/** The stand-alone image class (seedemu/compiler/DockerImage.py). It
    differs from the compose compiler's class in two ways: software the
    base image already has is never recorded, and the Dockerfile installs
    `apt-utils` before anything else. */
module StandaloneImage {
  import opened Wrappers
  import opened Strings
  import opened Software
  import opened ImageCore

  /** `DockerImageFileTemplates['dockerfile_start']`. */
  const StartTemplate := "ARG DEBIAN_FRONTEND=noninteractive\nRUN echo 'exec zsh' > /root/.bashrc\n"

  /** The software of the base image, or none without a base. */
  function BaseSoftware(base: Option<Image>): seq<Software>
  {
    if base.Some? then base.value.software else []
  }

  /** The class invariant: nothing recorded is already in the base. */
  predicate NoBaseSoftware(img: Image)
  {
    forall s :: s in img.software ==> s !in BaseSoftware(img.base)
  }

  /** The constructor: a remote image may not have a base; the directory
      name defaults to the image name; the given software is kept in order
      except what the base already has. */
  function NewImage(name: string, software: seq<Software>, local: bool, dirName: Option<string>,
                    base: Option<Image>): (r: Result<Image>)
    ensures r.Failure? <==> !local && base.Some?
    ensures r.Success? ==> && r.value.name == name && r.value.local == local
                           && r.value.base == base && r.value.tiers.None?
    ensures r.Success? ==> r.value.dirName == (if dirName.Some? then dirName.value else name)
    ensures r.Success? ==> forall s :: s in r.value.software <==> s in software && s !in BaseSoftware(base)
    ensures r.Success? ==> r.value.software == Minus(software, BaseSoftware(base))
    ensures r.Success? ==> NoBaseSoftware(r.value)
  {
    if !local && base.Some? then Failure("Remote images cannot have a base image")
    else Success(Image(name, Minus(software, BaseSoftware(base)), local,
                       if dirName.Some? then dirName.value else name, base, None))
  }

  /** `addSoftware`: ignored for software the base has, appended
      otherwise; nothing else changes, and the invariant is kept. */
  function AddSoftware(img: Image, s: Software): (r: Image)
    ensures s in BaseSoftware(img.base) ==> r == img
    ensures s !in BaseSoftware(img.base) ==> r.software == img.software + [s]
    ensures r == img.(software := r.software)
    ensures NoBaseSoftware(img) ==> NoBaseSoftware(r)
  {
    if s in BaseSoftware(img.base) then img else img.(software := img.software + [s])
  }

  /** The `for s in self.getSoftware(): if not (s in base): addSoftware(s)`
      loop of `rebaseImage`. */
  function AddMissing(img: Image, soft: seq<Software>, drop: seq<Software>): Image
  {
    if |soft| == 0 then img
    else
      var last := soft[|soft| - 1];
      var prev := AddMissing(img, soft[..|soft| - 1], drop);
      if last !in drop then AddSoftware(prev, last) else prev
  }

  /** When `drop` is the base's software, the loop appends exactly the
      listed software the base lacks, in list order, and touches nothing
      else. */
  lemma {:induction false} AddMissingIsMinus(img: Image, soft: seq<Software>)
    ensures AddMissing(img, soft, BaseSoftware(img.base)).software
              == img.software + Minus(soft, BaseSoftware(img.base))
    ensures AddMissing(img, soft, BaseSoftware(img.base))
              == img.(software := AddMissing(img, soft, BaseSoftware(img.base)).software)
  {
    if |soft| > 0 {
      AddMissingIsMinus(img, soft[..|soft| - 1]);
    }
  }

  const AptUtils := [Text("\n# Setup apt-get and update accordingly\n"), AptInstall(["apt-utils"])]

  /** `generateImageSetup`, as a plan: FROM, default commands, the
      `apt-utils` line, the package section, the script section, CMD. */
  function ImageSetup(img: Image, digest: string -> string): (r: seq<Instr>)
    ensures |r| >= 6 && r[|r| - 1] == Cmd
    ensures img.base.Some? ==> r[1] == From(if img.base.value.local then img.base.value.name
                                            else digest(img.base.value.name))
    ensures img.base.None? ==> forall i :: 0 <= i < |r| ==> !r[i].From?
  {
    FromSection(img.base, digest) + DefaultSection(StartTemplate) + AptUtils
    + PackageSection(img.software, img.tiers) + ScriptSection(img.software, digest) + CmdSection()
  }

  /** The text written to `Dockerfile`; `print` adds a final newline. */
  function SetupFileText(img: Image, digest: string -> string): string
  {
    Render(ImageSetup(img, digest)) + "\n"
  }

  /** The first install line is always `apt-utils` alone; the others are
      exactly those of the package section. */
  lemma ImageSetupAptLines(img: Image, digest: string -> string)
    ensures AptLines(ImageSetup(img, digest)) == [["apt-utils"]] + AptLines(PackageSection(img.software, img.tiers))
  {
    PlainSections(img, digest);
    AptUtilsLine();
    AptLinesFive(FromSection(img.base, digest), DefaultSection(StartTemplate), AptUtils,
                 PackageSection(img.software, img.tiers), ScriptSection(img.software, digest), CmdSection());
  }

  /** The sections around the install lines hold none. */
  lemma PlainSections(img: Image, digest: string -> string)
    ensures AptLines(FromSection(img.base, digest)) == []
    ensures AptLines(DefaultSection(StartTemplate)) == []
    ensures AptLines(ScriptSection(img.software, digest)) == []
    ensures AptLines(CmdSection()) == []
  {
    NoAptLines(FromSection(img.base, digest));
    NoAptLines(DefaultSection(StartTemplate));
    NoAptLines(ScriptSection(img.software, digest));
    NoAptLines(CmdSection());
  }

  lemma AptUtilsLine()
    ensures AptLines(AptUtils) == [["apt-utils"]]
  {
    AptLinesAppend([AptUtils[0]], [AptUtils[1]]);
    AptLinesSingle(AptUtils[0]);
    AptLinesSingle(AptUtils[1]);
    assert AptUtils == [AptUtils[0]] + [AptUtils[1]];
  }

  lemma AptLinesFive(f: seq<Instr>, d: seq<Instr>, u: seq<Instr>, p: seq<Instr>, sc: seq<Instr>, c: seq<Instr>)
    requires AptLines(f) == [] && AptLines(d) == [] && AptLines(sc) == [] && AptLines(c) == []
    ensures AptLines(f + d + u + p + sc + c) == AptLines(u) + AptLines(p)
  {
    AptLinesAppend(f, d);
    AptLinesAppend(f + d, u);
    AptLinesAppend(f + d + u, p);
    AptLinesAppend(f + d + u + p, sc);
    AptLinesAppend(f + d + u + p + sc, c);
  }

  /** Every package-manager requirement is installed by some line of the
      setup, every installed name is `apt-utils`, one of those requirements
      or a tier member, and every install line is sorted and free of
      duplicates. */
  lemma ImageSetupInstallsEverything(img: Image, digest: string -> string)
    ensures var lines := AptLines(ImageSetup(img, digest));
            && (forall n :: n in PackageNames(img.software) ==> exists k :: 0 <= k < |lines| && n in lines[k])
            && (forall k, n :: 0 <= k < |lines| && n in lines[k] ==>
                  n == "apt-utils" || Installable(img.software, img.tiers, n))
            && (forall k :: 0 <= k < |lines| ==> StrictlySorted(lines[k]))
  {
    ImageSetupAptLines(img, digest);
    PackageSectionInstallsEverything(img.software, img.tiers);
    ShiftCovers(img, AptLines(PackageSection(img.software, img.tiers)), ["apt-utils"]);
  }

  lemma ShiftCovers(img: Image, lines: seq<seq<string>>, first: seq<string>)
    requires forall n :: n in PackageNames(img.software) ==> exists k :: 0 <= k < |lines| && n in lines[k]
    requires forall k, n :: 0 <= k < |lines| && n in lines[k] ==> Installable(img.software, img.tiers, n)
    requires forall k :: 0 <= k < |lines| ==> StrictlySorted(lines[k])
    requires StrictlySorted(first)
    ensures forall n :: n in PackageNames(img.software) ==>
              exists k :: 0 <= k < |[first] + lines| && n in ([first] + lines)[k]
    ensures forall k, n :: 0 <= k < |[first] + lines| && n in ([first] + lines)[k] ==>
              n in first || Installable(img.software, img.tiers, n)
    ensures forall k :: 0 <= k < |[first] + lines| ==> StrictlySorted(([first] + lines)[k])
  {
    var all := [first] + lines;
    forall n | n in PackageNames(img.software) ensures exists k :: 0 <= k < |all| && n in all[k] {
      var k :| 0 <= k < |lines| && n in lines[k];
      assert all[k + 1] == lines[k];
    }
    forall k, n | 0 <= k < |all| && n in all[k] ensures n in first || Installable(img.software, img.tiers, n) {
      if k > 0 {
        assert all[k] == lines[k - 1];
      }
    }
  }

  /** `rebaseImage` as written: a new local image on `base` holding the
      software of `self` that `base` lacks, and the tiers of `self` that
      meet it; it raises when `self` has no tiers, as the compose
      compiler's class does. */
  function RebaseAsWritten(self: Image, base: Image): (r: Result<Image>)
    ensures r.Failure? <==> self.tiers.None? || self.tiers.value == []
    ensures r.Success? ==> && r.value.name == self.name && r.value.dirName == self.dirName
                           && r.value.local && r.value.base == Some(base)
    ensures r.Success? ==> r.value.software == Minus(self.software, base.software)
    ensures r.Success? ==> NoBaseSoftware(r.value)
    ensures r.Success? ==> r.value.tiers == Some(TiersMeeting(self.tiers.value, r.value.software))
  {
    var blank := NewImage(self.name, [], true, Some(self.dirName), Some(base)).value;
    var rebased := AddMissing(blank, self.software, base.software);
    AddMissingIsMinus(blank, self.software);
    assert [] + Minus(self.software, base.software) == Minus(self.software, base.software);
    if self.tiers.None? || |self.tiers.value| == 0 then
      Failure("local variable 'tiers' referenced before assignment")
    else
      Success(rebased.(tiers := Some(TiersMeeting(self.tiers.value, rebased.software))))
  }

  /** `rebaseImage` with `tiers` initialised to `None`. */
  function RebaseCorrected(self: Image, base: Image): (r: Image)
    ensures r.name == self.name && r.dirName == self.dirName && r.local && r.base == Some(base)
    ensures forall s :: s in r.software <==> s in self.software && s !in base.software
    ensures NoBaseSoftware(r)
    ensures self.tiers.None? || self.tiers.value == [] ==> r.tiers.None?
    ensures self.tiers.Some? && self.tiers.value != [] ==>
              r.tiers.Some? && forall t :: t in r.tiers.value <==> t in self.tiers.value && Meets(t, r.software)
    ensures RebaseAsWritten(self, base).Success? ==> RebaseAsWritten(self, base).value == r
  {
    var blank := NewImage(self.name, [], true, Some(self.dirName), Some(base)).value;
    var rebased := AddMissing(blank, self.software, base.software);
    AddMissingIsMinus(blank, self.software);
    assert [] + Minus(self.software, base.software) == Minus(self.software, base.software);
    if self.tiers.None? || |self.tiers.value| == 0 then rebased
    else rebased.(tiers := Some(TiersMeeting(self.tiers.value, rebased.software)))
  }
}
