/** What the two `DockerImage` classes have in common
    (seedemu/compiler/Docker.py and seedemu/compiler/DockerImage.py): the
    image value itself, and the Dockerfile it is turned into, kept as a
    list of instructions so that its package-install section can be
    reasoned about. `md5(...).hexdigest()` is the parameter `digest`. */
module ImageCore {
  import opened Wrappers
  import opened Strings
  import opened NodeFiles
  import opened Software

  /** One installation tier: requirements installed by one `RUN` line. The
      source keeps a tier as a Python set and only ever asks for its
      members, so a duplicate-free sequence stands for it here. */
  type Tier = seq<Software>

  /** A candidate or node image. `tiers` is `None` until install tiers are
      set; only local images may have a base. */
  datatype Image = Image(name: string, software: seq<Software>, local: bool, dirName: string,
                         base: Option<Image>, tiers: Option<seq<Tier>>)

  /** One Dockerfile instruction; `Text` is fixed template or comment text. */
  datatype Instr =
    | Text(text: string)
    | From(ref: string)
    | AptInstall(packages: seq<string>)
    | Copy(staged: string, path: string)
    | ChmodX(path: string)
    | RunScript(path: string)
    | Cmd

  const AptPrefix := "RUN apt-get update && apt-get install -y --no-install-recommends "

  function InstrText(i: Instr): string
  {
    match i
    case Text(t) => t
    case From(ref) => "FROM " + ref + "\n"
    case AptInstall(p) => AptPrefix + Join(p, ' ') + "\n"
    case Copy(staged, path) => "COPY " + staged + " " + path + "\n"
    case ChmodX(path) => "RUN chmod +x " + path + "\n"
    case RunScript(path) => "RUN ." + path + "\n"
    case Cmd => "CMD [\"/start.sh\"]\n"
  }

  /** The Dockerfile text. */
  function Render(instrs: seq<Instr>): string
  {
    if |instrs| == 0 then "" else InstrText(instrs[0]) + Render(instrs[1..])
  }

  /** The `FROM` part: a remote base is named by the digest of its name
      (its locally built alias), a local base by its own name. */
  function FromSection(base: Option<Image>, digest: string -> string): (r: seq<Instr>)
    ensures base.None? ==> r == []
    ensures base.Some? ==> |r| == 2 && r[1].From?
    ensures base.Some? && !base.value.local ==> r[1].ref == digest(base.value.name)
    ensures base.Some? && base.value.local ==> r[1].ref == base.value.name
  {
    match base
    case None => []
    case Some(b) =>
      [Text("# The base image of the DockerImage\n"),
       From(if !b.local then digest(b.name) else b.name)]
  }

  function DefaultSection(template: string): seq<Instr>
  {
    [Text("\n# Default dockerfile commands used for all SEED docker images\n"), Text(template)]
  }

  function CmdSection(): seq<Instr>
  {
    [Text("\n# Command that runs when a container based on this image is instantiated\n"), Cmd]
  }

  /** `[pkg.name for pkg in tier]`. */
  function TierNames(t: Tier): (r: seq<string>)
    ensures |r| == |t|
    ensures forall i :: 0 <= i < |t| ==> r[i] == t[i].name
  {
    if |t| == 0 then [] else [t[0].name] + TierNames(t[1..])
  }

  /** The names the tier lines install (`installedSoft`). */
  function Installed(tiers: seq<Tier>): (r: set<string>)
    ensures forall k, n :: 0 <= k < |tiers| && n in TierNames(tiers[k]) ==> n in r
    ensures forall n :: n in r ==> exists k :: 0 <= k < |tiers| && n in TierNames(tiers[k])
  {
    set k, n | 0 <= k < |tiers| && n in TierNames(tiers[k]) :: n
  }

  function Without(names: seq<string>, drop: set<string>): (r: seq<string>)
    ensures Elems(r) == Elems(names) - drop
  {
    if |names| == 0 then []
    else
      assert Elems(names) == {names[0]} + Elems(names[1..]);
      var head := if names[0] in drop then [] else [names[0]];
      var rest := Without(names[1..], drop);
      assert Elems(head + rest) == Elems(head) + Elems(rest);
      head + rest
  }

  function TierLines(tiers: seq<Tier>): (r: seq<Instr>)
    ensures |r| == |tiers|
    ensures forall k :: 0 <= k < |tiers| ==> r[k] == AptInstall(SortUnique(TierNames(tiers[k])))
  {
    if |tiers| == 0 then [] else [AptInstall(SortUnique(TierNames(tiers[0])))] + TierLines(tiers[1..])
  }

  /** The package lists of the `apt-get install` lines, in order. */
  function AptLines(instrs: seq<Instr>): seq<seq<string>>
  {
    if |instrs| == 0 then []
    else (if instrs[0].AptInstall? then [instrs[0].packages] else []) + AptLines(instrs[1..])
  }

  lemma AptLinesAppend(a: seq<Instr>, b: seq<Instr>)
    ensures AptLines(a + b) == AptLines(a) + AptLines(b)
  {
    if |a| > 0 {
      assert (a + b)[1..] == a[1..] + b;
      AptLinesAppend(a[1..], b);
    } else {
      assert a + b == b;
    }
  }

  lemma AptLinesTiers(tiers: seq<Tier>)
    ensures |AptLines(TierLines(tiers))| == |tiers|
    ensures forall k :: 0 <= k < |tiers| ==> AptLines(TierLines(tiers))[k] == SortUnique(TierNames(tiers[k]))
  {
    if |tiers| > 0 {
      assert TierLines(tiers) == [AptInstall(SortUnique(TierNames(tiers[0])))] + TierLines(tiers[1..]);
      AptLinesAppend([AptInstall(SortUnique(TierNames(tiers[0])))], TierLines(tiers[1..]));
      AptLinesTiers(tiers[1..]);
    }
  }

  function BoolText(b: bool): string
  {
    if b then "True" else "False"
  }

  /** The package-manager part of `generateDockerFile` /
      `generateImageSetup`: with tiers, one sorted line per tier and then
      one sorted line of the names no tier installed; without tiers, one
      sorted line of every name; nothing when no requirement uses the
      package manager. */
  function PackageSection(soft: seq<Software>, tiers: Option<seq<Tier>>): (r: seq<Instr>)
    ensures forall i :: 0 <= i < |r| ==> !r[i].From?
  {
    var names := PackageNames(soft);
    if |names| == 0 then []
    else
      match tiers
      case Some(ts) => [PackageHeader(true)] + TierLines(ts) + Leftover(Without(names, Installed(ts)))
      case None => [PackageHeader(false), AptInstall(SortUnique(names))]
  }

  function PackageHeader(tiered: bool): Instr
  {
    Text("\n# Installing software with package manager (software_tiers=" + BoolText(tiered) + ")\n")
  }

  /** The line for the names no tier installed, when there are any. */
  function Leftover(toInstall: seq<string>): seq<Instr>
  {
    if |toInstall| > 0
    then [Text("\n# Installing leftover software packages after installing all tiers\n"),
          AptInstall(SortUnique(toInstall))]
    else []
  }

  lemma AptLinesSingle(i: Instr)
    ensures AptLines([i]) == (if i.AptInstall? then [i.packages] else [])
  {
    assert [i][1..] == [];
  }

  lemma SkipText(h: Instr, x: seq<Instr>, y: seq<Instr>)
    requires !h.AptInstall?
    ensures AptLines([h] + x + y) == AptLines(x) + AptLines(y)
  {
    AptLinesAppend([h], x);
    AptLinesAppend([h] + x, y);
    AptLinesSingle(h);
  }

  lemma TieredLines(ts: seq<Tier>, toInstall: seq<string>)
    ensures AptLines([PackageHeader(true)] + TierLines(ts) + Leftover(toInstall))
              == AptLines(TierLines(ts)) + (if |toInstall| > 0 then [SortUnique(toInstall)] else [])
  {
    SkipText(PackageHeader(true), TierLines(ts), Leftover(toInstall));
    LeftoverLines(toInstall);
  }

  lemma LeftoverLines(toInstall: seq<string>)
    ensures AptLines(Leftover(toInstall)) == (if |toInstall| > 0 then [SortUnique(toInstall)] else [])
  {
    if |toInstall| > 0 {
      var t := Text("\n# Installing leftover software packages after installing all tiers\n");
      var l := AptInstall(SortUnique(toInstall));
      AptLinesAppend([t], [l]);
      AptLinesSingle(t);
      AptLinesSingle(l);
      assert Leftover(toInstall) == [t] + [l];
    }
  }

  lemma PackageLinesShape(soft: seq<Software>, ts: seq<Tier>)
    requires |PackageNames(soft)| > 0
    ensures var toInstall := Without(PackageNames(soft), Installed(ts));
            AptLines(PackageSection(soft, Some(ts)))
              == AptLines(TierLines(ts)) + (if |toInstall| > 0 then [SortUnique(toInstall)] else [])
  {
    TieredLines(ts, Without(PackageNames(soft), Installed(ts)));
  }

  /** Without tiers the package section is one sorted, duplicate-free line
      holding every package-manager name; with no such name it is empty. */
  lemma PackageSectionSingleLine(soft: seq<Software>)
    ensures |PackageNames(soft)| == 0 ==> AptLines(PackageSection(soft, None)) == []
    ensures |PackageNames(soft)| > 0 ==>
              var lines := AptLines(PackageSection(soft, None));
              |lines| == 1 && StrictlySorted(lines[0]) && Elems(lines[0]) == Elems(PackageNames(soft))
  {
    var names := PackageNames(soft);
    if |names| > 0 {
      var l := AptInstall(SortUnique(names));
      AptLinesAppend([PackageHeader(false)], [l]);
      AptLinesSingle(PackageHeader(false));
      AptLinesSingle(l);
      assert [PackageHeader(false), l] == [PackageHeader(false)] + [l];
    }
  }

  /** An empty tier list installs the same packages, in the same single
      line, as no tier list at all. */
  lemma EmptyTiersLikeNoTiers(soft: seq<Software>)
    ensures AptLines(PackageSection(soft, Some([]))) == AptLines(PackageSection(soft, None))
  {
    var names := PackageNames(soft);
    if |names| > 0 {
      PackageLinesShape(soft, []);
      PackageSectionSingleLine(soft);
      var toInstall := Without(names, Installed([]));
      assert Installed([]) == {};
      assert toInstall[0] in Elems(toInstall) by {
        assert names[0] in Elems(names);
      }
      AptLinesTiers([]);
      SortedUnique(SortUnique(toInstall), SortUnique(names));
    }
  }

  /** With tiers, the install lines are one sorted, duplicate-free line per
      tier, in tier order, holding that tier's names, followed by a
      leftover line exactly when some package-manager name is in no tier,
      holding exactly those names. */
  lemma PackageSectionTiered(soft: seq<Software>, ts: seq<Tier>)
    requires |PackageNames(soft)| > 0
    ensures var lines := AptLines(PackageSection(soft, Some(ts)));
            && |ts| <= |lines| <= |ts| + 1
            && (forall k :: 0 <= k < |lines| ==> StrictlySorted(lines[k]))
            && (forall k :: 0 <= k < |ts| ==> Elems(lines[k]) == Elems(TierNames(ts[k])))
            && (|lines| == |ts| + 1 <==> Elems(PackageNames(soft)) - Installed(ts) != {})
            && (|lines| == |ts| + 1 ==> Elems(lines[|ts|]) == Elems(PackageNames(soft)) - Installed(ts))
  {
    var toInstall := Without(PackageNames(soft), Installed(ts));
    PackageLinesShape(soft, ts);
    AptLinesTiers(ts);
    if |toInstall| == 0 {
      ElemsEmpty(toInstall);
    } else {
      assert toInstall[0] in Elems(toInstall);
    }
  }

  /** With tiers, every package-manager name is on some install line, and
      every name on a line is one the image needs or one a tier lists. */
  lemma PackageSectionTieredCovers(soft: seq<Software>, ts: seq<Tier>)
    requires |PackageNames(soft)| > 0
    ensures var lines := AptLines(PackageSection(soft, Some(ts)));
            && (forall n :: n in PackageNames(soft) ==> exists k :: 0 <= k < |lines| && n in lines[k])
            && (forall k, n :: 0 <= k < |lines| && n in lines[k] ==> n in PackageNames(soft) || n in Installed(ts))
  {
    PackageSectionTiered(soft, ts);
    CoverFromShape(PackageNames(soft), ts, AptLines(PackageSection(soft, Some(ts))));
  }

  lemma CoverFromShape(names: seq<string>, ts: seq<Tier>, lines: seq<seq<string>>)
    requires |ts| <= |lines| <= |ts| + 1
    requires forall k :: 0 <= k < |ts| ==> Elems(lines[k]) == Elems(TierNames(ts[k]))
    requires |lines| == |ts| + 1 <==> Elems(names) - Installed(ts) != {}
    requires |lines| == |ts| + 1 ==> Elems(lines[|ts|]) == Elems(names) - Installed(ts)
    ensures forall n :: n in names ==> exists k :: 0 <= k < |lines| && n in lines[k]
    ensures forall k, n :: 0 <= k < |lines| && n in lines[k] ==> n in names || n in Installed(ts)
  {
    forall n | n in names ensures exists k :: 0 <= k < |lines| && n in lines[k] {
      if n in Installed(ts) {
        var k :| 0 <= k < |ts| && n in TierNames(ts[k]);
        assert n in Elems(TierNames(ts[k]));
        assert n in Elems(lines[k]);
      } else {
        assert n in Elems(names) - Installed(ts);
        assert n in Elems(lines[|ts|]);
      }
    }
    forall k, n | 0 <= k < |lines| && n in lines[k] ensures n in names || n in Installed(ts) {
      assert n in Elems(lines[k]);
      if k < |ts| {
        assert n in Elems(TierNames(ts[k]));
      }
    }
  }

  /** `n` is a package-manager name of `soft` or a member of one of the
      tiers. */
  predicate Installable(soft: seq<Software>, tiers: Option<seq<Tier>>, n: string)
  {
    n in PackageNames(soft) || (tiers.Some? && n in Installed(tiers.value))
  }

  /** Whatever the tiers, every package-manager name is on some install
      line of the package section, every name on a line is one of those
      names or a tier member, and every line is sorted and free of
      duplicates. */
  lemma PackageSectionInstallsEverything(soft: seq<Software>, tiers: Option<seq<Tier>>)
    ensures var lines := AptLines(PackageSection(soft, tiers));
            && (forall n :: n in PackageNames(soft) ==> exists k :: 0 <= k < |lines| && n in lines[k])
            && (forall k, n :: 0 <= k < |lines| && n in lines[k] ==> Installable(soft, tiers, n))
            && (forall k :: 0 <= k < |lines| ==> StrictlySorted(lines[k]))
  {
    var names := PackageNames(soft);
    if |names| == 0 {
      assert forall n :: n !in names;
    } else if tiers.None? {
      PackageSectionSingleLine(soft);
      SingleLineCovers(names, AptLines(PackageSection(soft, tiers)));
    } else {
      PackageSectionTiered(soft, tiers.value);
      PackageSectionTieredCovers(soft, tiers.value);
    }
  }

  lemma SingleLineCovers(names: seq<string>, lines: seq<seq<string>>)
    requires |lines| == 1 && Elems(lines[0]) == Elems(names)
    ensures forall n :: n in names ==> exists k :: 0 <= k < |lines| && n in lines[k]
    ensures forall k, n :: 0 <= k < |lines| && n in lines[k] ==> n in names
  {
    forall n | n in names ensures exists k :: 0 <= k < |lines| && n in lines[k] {
      assert n in Elems(names);
      assert n in Elems(lines[0]);
    }
    forall k, n | 0 <= k < |lines| && n in lines[k] ensures n in names {
      assert n in Elems(lines[0]);
    }
  }

  /** `__runFile`: copy the staged file to its path, make it executable,
      run it. */
  function RunFile(f: NodeFile, digest: string -> string): seq<Instr>
  {
    [Copy(digest(f.path), f.path), ChmodX(f.path), RunScript(f.path)]
  }

  function ScriptRuns(scripts: seq<Software>, digest: string -> string): (r: seq<Instr>)
    requires forall s :: s in scripts ==> s.installScript.Some?
    ensures |r| == 3 * |scripts|
    ensures forall i :: 0 <= i < |r| ==> !r[i].AptInstall? && !r[i].From?
    ensures forall j :: 0 <= j < |scripts| ==>
              r[3 * j..3 * j + 3] == RunFile(scripts[j].installScript.value, digest)
  {
    if |scripts| == 0 then []
    else
      var rest := ScriptRuns(scripts[1..], digest);
      var r := RunFile(scripts[0].installScript.value, digest) + rest;
      assert forall j :: 1 <= j < |scripts| ==> r[3 * j..3 * j + 3] == rest[3 * (j - 1)..3 * (j - 1) + 3];
      r
  }

  /** The script part: every script-installed requirement in list order,
      each as COPY, `chmod +x`, RUN. */
  function ScriptSection(soft: seq<Software>, digest: string -> string): (r: seq<Instr>)
    ensures |Scripted(soft)| == 0 ==> r == []
    ensures forall i :: 0 <= i < |r| ==> !r[i].AptInstall? && !r[i].From?
    ensures |Scripted(soft)| > 0 ==> |r| == 1 + 3 * |Scripted(soft)| && r[0].Text?
    ensures |Scripted(soft)| > 0 ==> forall j :: 0 <= j < |Scripted(soft)| ==>
              r[1 + 3 * j..4 + 3 * j] == RunFile(Scripted(soft)[j].installScript.value, digest)
  {
    var scripts := Scripted(soft);
    if |scripts| == 0 then []
    else
      var runs := ScriptRuns(scripts, digest);
      var r := [Text("\n# Installing software via script\n")] + runs;
      assert forall j :: 0 <= j < |scripts| ==> r[1 + 3 * j..4 + 3 * j] == runs[3 * j..3 * j + 3];
      r
  }

  /** `[s for s in soft if not (s in drop)]`, written from the back so
      that it follows a left-to-right loop step by step. */
  function Minus(soft: seq<Software>, drop: seq<Software>): (r: seq<Software>)
    ensures forall s :: s in r <==> s in soft && s !in drop
    ensures |r| <= |soft|
  {
    if |soft| == 0 then []
    else
      var init := soft[..|soft| - 1];
      var last := soft[|soft| - 1];
      assert soft == init + [last];
      Minus(init, drop) + (if last in drop then [] else [last])
  }

  /** Filtering a concatenation filters each part, in order. */
  lemma {:induction false} MinusAppend(a: seq<Software>, b: seq<Software>, drop: seq<Software>)
    ensures Minus(a + b, drop) == Minus(a, drop) + Minus(b, drop)
  {
    if |b| == 0 {
      assert a + b == a;
    } else {
      var init := b[..|b| - 1];
      var last := b[|b| - 1];
      assert (a + b)[..|a + b| - 1] == a + init && (a + b)[|a + b| - 1] == last;
      MinusAppend(a, init, drop);
    }
  }

  /** A single requirement is kept exactly when `drop` lacks it. */
  lemma MinusSingle(s: Software, drop: seq<Software>)
    ensures Minus([s], drop) == if s in drop then [] else [s]
  {
    assert [s][..0] == [];
  }

  /** `tier.intersection(soft)` is non-empty. */
  predicate Meets(t: Tier, soft: seq<Software>)
  {
    exists s :: s in t && s in soft
  }

  /** The tiers that share a requirement with `soft`, in order. */
  function TiersMeeting(tiers: seq<Tier>, soft: seq<Software>): (r: seq<Tier>)
    ensures forall t :: t in r <==> t in tiers && Meets(t, soft)
    ensures |r| <= |tiers|
  {
    if |tiers| == 0 then []
    else
      var init := tiers[..|tiers| - 1];
      var last := tiers[|tiers| - 1];
      assert tiers == init + [last];
      TiersMeeting(init, soft) + (if Meets(last, soft) then [last] else [])
  }

  /** Selecting from a concatenation selects from each part, in order. */
  lemma {:induction false} TiersMeetingAppend(a: seq<Tier>, b: seq<Tier>, soft: seq<Software>)
    ensures TiersMeeting(a + b, soft) == TiersMeeting(a, soft) + TiersMeeting(b, soft)
  {
    if |b| == 0 {
      assert a + b == a;
    } else {
      var init := b[..|b| - 1];
      var last := b[|b| - 1];
      assert (a + b)[..|a + b| - 1] == a + init && (a + b)[|a + b| - 1] == last;
      TiersMeetingAppend(a, init, soft);
    }
  }

  /** A single tier is kept exactly when it shares a requirement with
      `soft`. */
  lemma TiersMeetingSingle(t: Tier, soft: seq<Software>)
    ensures TiersMeeting([t], soft) == if Meets(t, soft) then [t] else []
  {
    assert [t][..0] == [];
  }

  /** The text of a plan is the texts of its parts in order. */
  lemma {:induction false} RenderAppend(a: seq<Instr>, b: seq<Instr>)
    ensures Render(a + b) == Render(a) + Render(b)
  {
    if |a| == 0 {
      assert a + b == b;
    } else {
      assert (a + b)[1..] == a[1..] + b;
      RenderAppend(a[1..], b);
    }
  }

  /** A plan with no install instruction contributes no install line. */
  lemma NoAptLines(instrs: seq<Instr>)
    requires forall i :: 0 <= i < |instrs| ==> !instrs[i].AptInstall?
    ensures AptLines(instrs) == []
  {
    if |instrs| > 0 {
      NoAptLines(instrs[1..]);
    }
  }
}
