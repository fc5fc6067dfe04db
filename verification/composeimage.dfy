/** The candidate-image class the compose compiler uses
    (`DockerImage` inside seedemu/compiler/Docker.py). It keeps the
    software list exactly as given: unlike the stand-alone class it does
    not drop what the base image already provides. */
module ComposeImage {
  import opened Wrappers
  import opened Strings
  import opened Software
  import opened ImageCore

  /** `DockerCompilerFileTemplates['dockerfile']`. */
  const DockerfileTemplate := "ARG DEBIAN_FRONTEND=noninteractive\nRUN echo 'exec zsh' > /root/.bashrc\n"

  /** The constructor: a remote image may not have a base; the directory
      name defaults to the image name; no install tiers yet. */
  function NewImage(name: string, software: seq<Software>, local: bool, dirName: Option<string>,
                    base: Option<Image>): (r: Result<Image>)
    ensures r.Failure? <==> !local && base.Some?
    ensures r.Success? ==> && r.value.name == name && r.value.software == software
                           && r.value.local == local && r.value.base == base && r.value.tiers.None?
    ensures r.Success? ==> r.value.dirName == (if dirName.Some? then dirName.value else name)
  {
    if !local && base.Some? then Failure("Remote images cannot have a base image")
    else Success(Image(name, software, local, if dirName.Some? then dirName.value else name, base, None))
  }

  /** `addSoftware`: appends, duplicates included; nothing else changes. */
  function AddSoftware(img: Image, s: Software): (r: Image)
    ensures r.software == img.software + [s]
    ensures r == img.(software := r.software)
  {
    img.(software := img.software + [s])
  }

  /** The `for s in self.getSoftware(): if not (s in base): addSoftware(s)`
      loop of `rebaseImage`. */
  function AddMissing(img: Image, soft: seq<Software>, drop: seq<Software>): Image
  {
    if |soft| == 0 then img
    else
      var last := soft[|soft| - 1];
      var prev := AddMissing(img, soft[..|soft| - 1], drop);
      if last !in drop then AddSoftware(prev, last) else prev
  }

  /** The loop appends exactly the listed software not in `drop`, in list
      order, and touches no other field. */
  lemma {:induction false} AddMissingIsMinus(img: Image, soft: seq<Software>, drop: seq<Software>)
    ensures AddMissing(img, soft, drop).software == img.software + Minus(soft, drop)
    ensures AddMissing(img, soft, drop) == img.(software := AddMissing(img, soft, drop).software)
  {
    if |soft| > 0 {
      AddMissingIsMinus(img, soft[..|soft| - 1], drop);
    }
  }

  /** `generateDockerFile`, as a plan: the FROM part, the default
      commands, the package section, the script section, the CMD line. */
  function DockerFile(img: Image, digest: string -> string): (r: seq<Instr>)
    ensures |r| >= 2 && r[|r| - 1] == Cmd
    ensures img.base.Some? ==> r[1] == From(if img.base.value.local then img.base.value.name
                                            else digest(img.base.value.name))
    ensures img.base.None? ==> forall i :: 0 <= i < |r| ==> !r[i].From?
  {
    FromSection(img.base, digest) + DefaultSection(DockerfileTemplate)
    + PackageSection(img.software, img.tiers) + ScriptSection(img.software, digest) + CmdSection()
  }

  /** The Dockerfile text `generateDockerFile` returns. */
  function DockerFileText(img: Image, digest: string -> string): string
  {
    Render(DockerFile(img, digest))
  }

  /** The install lines of the Dockerfile are exactly those of its package
      section. */
  lemma DockerFileAptLines(img: Image, digest: string -> string)
    ensures AptLines(DockerFile(img, digest)) == AptLines(PackageSection(img.software, img.tiers))
  {
    var f := FromSection(img.base, digest);
    var d := DefaultSection(DockerfileTemplate);
    var p := PackageSection(img.software, img.tiers);
    var sc := ScriptSection(img.software, digest);
    var c := CmdSection();
    AptLinesAppend(f, d);
    AptLinesAppend(f + d, p);
    AptLinesAppend(f + d + p, sc);
    AptLinesAppend(f + d + p + sc, c);
    NoAptLines(f);
    NoAptLines(d);
    NoAptLines(sc);
    NoAptLines(c);
  }

  /** Every package-manager requirement of the image is installed by some
      line of its Dockerfile, every installed name is one of those
      requirements or a tier member, and every install line is sorted and
      free of duplicates. */
  lemma DockerFileInstallsEverything(img: Image, digest: string -> string)
    ensures var lines := AptLines(DockerFile(img, digest));
            && (forall n :: n in PackageNames(img.software) ==> exists k :: 0 <= k < |lines| && n in lines[k])
            && (forall k, n :: 0 <= k < |lines| && n in lines[k] ==> Installable(img.software, img.tiers, n))
            && (forall k :: 0 <= k < |lines| ==> StrictlySorted(lines[k]))
  {
    DockerFileAptLines(img, digest);
    PackageSectionInstallsEverything(img.software, img.tiers);
  }

  /** `rebaseImage` as written: a new local image on `base` holding the
      software of `self` that `base` lacks, and the tiers of `self` that
      meet it. When `self` has no tiers (`None` or an empty list) the
      variable `tiers` is never assigned and the call raises. */
  function RebaseAsWritten(self: Image, base: Image): (r: Result<Image>)
    ensures r.Failure? <==> self.tiers.None? || self.tiers.value == []
    ensures r.Success? ==> && r.value.name == self.name && r.value.dirName == self.dirName
                           && r.value.local && r.value.base == Some(base)
    ensures r.Success? ==> r.value.software == Minus(self.software, base.software)
    ensures r.Success? ==> r.value.tiers == Some(TiersMeeting(self.tiers.value, r.value.software))
  {
    var blank := NewImage(self.name, [], true, Some(self.dirName), Some(base)).value;
    var rebased := AddMissing(blank, self.software, base.software);
    AddMissingIsMinus(blank, self.software, base.software);
    assert [] + Minus(self.software, base.software) == Minus(self.software, base.software);
    if self.tiers.None? || |self.tiers.value| == 0 then
      Failure("local variable 'tiers' referenced before assignment")
    else
      Success(rebased.(tiers := Some(TiersMeeting(self.tiers.value, rebased.software))))
  }

  /** `rebaseImage` with `tiers` initialised to `None`: an image without
      tiers rebases to one without tiers, and otherwise the result is the
      one the source computes. */
  function RebaseCorrected(self: Image, base: Image): (r: Image)
    ensures r.name == self.name && r.dirName == self.dirName && r.local && r.base == Some(base)
    ensures forall s :: s in r.software <==> s in self.software && s !in base.software
    ensures self.tiers.None? || self.tiers.value == [] ==> r.tiers.None?
    ensures self.tiers.Some? && self.tiers.value != [] ==>
              r.tiers.Some? && forall t :: t in r.tiers.value <==> t in self.tiers.value && Meets(t, r.software)
    ensures RebaseAsWritten(self, base).Success? ==> RebaseAsWritten(self, base).value == r
  {
    var blank := NewImage(self.name, [], true, Some(self.dirName), Some(base)).value;
    var rebased := AddMissing(blank, self.software, base.software);
    AddMissingIsMinus(blank, self.software, base.software);
    assert [] + Minus(self.software, base.software) == Minus(self.software, base.software);
    if self.tiers.None? || |self.tiers.value| == 0 then rebased
    else rebased.(tiers := Some(TiersMeeting(self.tiers.value, rebased.software)))
  }
}
