/** Grouping of package-manager software into install tiers
    (`Docker._groupSoftware`), and the per-node image built from it
    (`_imageFromNode` and the rebase in `_compileNode`), all in
    seedemu/compiler/Docker.py.

    For each image, every package-manager entry of the nodes using it is
    counted, one per list entry. Passes run from the number of nodes
    using the image down to 1; pass `k` forms the tier of the packages
    counted exactly `k` times, and every node needing one of them gets the
    whole tier appended to its `__soft_install_tiers` attribute. */
module Tiering {
  import opened Wrappers
  import opened Strings
  import opened Software
  import opened ImageCore
  import opened ImageSelection
  import ComposeImage

  /** A node taking part in grouping, with the name of the image
      `_selectImageFor` chose for it. */
  datatype Member = Member(node: Node, image: string)

  /** Only routers, hosts, service nodes and route servers are grouped. */
  predicate Grouped(kind: string)
  {
    kind == "rnode" || kind == "hnode" || kind == "snode" || kind == "rs"
  }

  /** The registry walk of `_groupSoftware`: keep the grouped kinds, in
      registry order, and choose each node's image with `_selectImageFor`
      as the program has it; a failing choice fails the whole grouping. */
  function Members(c: Compiler, objs: seq<(string, Node)>): (r: Result<seq<Member>>)
    ensures r.Failure? <==> exists i :: 0 <= i < |objs| && Grouped(objs[i].0)
                                        && SelectImageAsWritten(c, objs[i].1).Failure?
    ensures r.Success? ==> |r.value| <= |objs|
    ensures r.Success? ==> forall m :: m in r.value ==>
              exists o :: o in objs && Grouped(o.0) && o.1 == m.node
                          && SelectImageAsWritten(c, o.1) == Success(ImageOf(c, o.1))
                          && m.image == ImageOf(c, o.1).name
    ensures r.Success? ==> && |r.value| == |GroupedNodes(objs)|
                           && forall i :: 0 <= i < |r.value| ==>
                                r.value[i] == Member(GroupedNodes(objs)[i], ImageOf(c, GroupedNodes(objs)[i]).name)
  {
    if |objs| == 0 then Success([])
    else
      var init := objs[..|objs| - 1];
      var last := objs[|objs| - 1];
      assert forall o :: o in init ==> o in objs;
      assert forall i :: 0 <= i < |init| ==> init[i] == objs[i];
      var prev :- Members(c, init);
      if !Grouped(last.0) then Success(prev)
      else
        var img :- SelectImageAsWritten(c, last.1);
        Success(prev + [Member(last.1, img.name)])
  }

  /** The nodes of the grouped kinds, in registry order. */
  function GroupedNodes(objs: seq<(string, Node)>): (r: seq<Node>)
    ensures |r| <= |objs|
    ensures forall n :: n in r <==> exists o :: o in objs && Grouped(o.0) && o.1 == n
  {
    if |objs| == 0 then []
    else
      var init := objs[..|objs| - 1];
      var last := objs[|objs| - 1];
      assert objs == init + [last];
      GroupedNodes(init) + (if Grouped(last.0) then [last.1] else [])
  }

  /** The image chosen for a node whose choice succeeds. */
  function ImageOf(c: Compiler, node: Node): Image
  {
    var r := SelectImageAsWritten(c, node);
    if r.Success? then r.value else Ubuntu
  }

  /** `groupIter[img]`: how many grouped nodes use the image. */
  function Uses(members: seq<Member>, img: string): nat
  {
    if |members| == 0 then 0
    else Uses(members[..|members| - 1], img) + (if members[|members| - 1].image == img then 1 else 0)
  }

  /** How many entries of `xs` are `x`. */
  function Count(x: Software, xs: seq<Software>): nat
  {
    if |xs| == 0 then 0
    else Count(x, xs[..|xs| - 1]) + (if xs[|xs| - 1] == x then 1 else 0)
  }

  lemma {:induction false} CountAppend(x: Software, a: seq<Software>, b: seq<Software>)
    ensures Count(x, a + b) == Count(x, a) + Count(x, b)
  {
    if |b| == 0 {
      assert a + b == a;
    } else {
      assert (a + b)[..|a + b| - 1] == a + b[..|b| - 1];
      CountAppend(x, a, b[..|b| - 1]);
    }
  }

  lemma {:induction false} CountPositive(x: Software, xs: seq<Software>)
    ensures x in xs <==> Count(x, xs) > 0
  {
    if |xs| > 0 {
      var init := xs[..|xs| - 1];
      assert xs == init + [xs[|xs| - 1]];
      CountPositive(x, init);
    }
  }

  /** The package-manager entries of one list, in order. */
  function PackageEntries(soft: seq<Software>): (r: seq<Software>)
    ensures forall s :: s in r <==> s in soft && UsePackageManager(s)
  {
    if |soft| == 0 then []
    else
      var init := soft[..|soft| - 1];
      var last := soft[|soft| - 1];
      assert soft == init + [last];
      PackageEntries(init) + (if UsePackageManager(last) then [last] else [])
  }

  /** Every package-manager entry of every node using `img`, in registry
      order: `group[soft]` has one node per occurrence here. */
  function Entries(members: seq<Member>, img: string): (r: seq<Software>)
    ensures forall s :: s in r <==> exists m :: m in members && m.image == img
                                              && s in m.node.software && UsePackageManager(s)
  {
    if |members| == 0 then []
    else
      var init := members[..|members| - 1];
      var last := members[|members| - 1];
      assert members == init + [last];
      Entries(init, img) + (if last.image == img then PackageEntries(last.node.software) else [])
  }

  /** `len(group[soft])`. */
  function Refs(members: seq<Member>, img: string, s: Software): nat
  {
    Count(s, Entries(members, img))
  }

  /** The keys of `group`, in insertion order: each entry once. */
  function Distinct(xs: seq<Software>): (r: seq<Software>)
    ensures forall s :: s in r <==> s in xs
    ensures NoDuplicates(r)
  {
    if |xs| == 0 then []
    else
      var init := xs[..|xs| - 1];
      var last := xs[|xs| - 1];
      assert xs == init + [last];
      var d := Distinct(init);
      if last in d then d else d + [last]
  }

  /** The keys whose count is `k`, in key order. */
  function OfCount(keys: seq<Software>, entries: seq<Software>, k: nat): (r: seq<Software>)
    ensures forall s :: s in r <==> s in keys && Count(s, entries) == k
    ensures NoDuplicates(keys) ==> NoDuplicates(r)
  {
    if |keys| == 0 then []
    else
      var init := keys[..|keys| - 1];
      var last := keys[|keys| - 1];
      assert keys == init + [last];
      var prev := OfCount(init, entries, k);
      var r := prev + (if Count(last, entries) == k then [last] else []);
      assert NoDuplicates(keys) ==> NoDuplicates(r) by {
        if NoDuplicates(keys) {
          assert NoDuplicates(init);
          assert last !in init;
          assert last !in prev;
        }
      }
      r
  }

  /** `currentTier` of pass `k` for image `img`: exactly the
      package-manager requirements of its nodes counted `k` times. */
  function TierAt(members: seq<Member>, img: string, k: nat): (r: Tier)
    ensures forall s :: s in r <==> s in Entries(members, img) && Refs(members, img, s) == k
    ensures NoDuplicates(r)
  {
    OfCount(Distinct(Entries(members, img)), Entries(members, img), k)
  }

  /** The node is in `currentTierNodes` of pass `k`: it needs a package of
      that tier. */
  predicate Needs(members: seq<Member>, i: nat, k: nat)
    requires i < |members|
  {
    exists s :: s in TierAt(members, members[i].image, k) && s in members[i].node.software
  }

  /** The passes `k, k-1, ..., 1` at which node `i` is given a tier. */
  function Levels(members: seq<Member>, i: nat, k: nat): (r: seq<nat>)
    requires i < |members|
    ensures forall j :: 0 <= j < |r| ==> 1 <= r[j] <= k
    ensures forall a, b :: 0 <= a < b < |r| ==> r[a] > r[b]
    ensures forall l :: l in r <==> 1 <= l <= k && Needs(members, i, l)
  {
    if k == 0 then []
    else
      var rest := Levels(members, i, k - 1);
      assert forall j :: 0 <= j < |rest| ==> rest[j] < k;
      (if Needs(members, i, k) then [k] else []) + rest
  }

  /** The `__soft_install_tiers` attribute node `i` ends with: absent when
      no pass reached it, otherwise its tiers in pass order. */
  function Attribute(members: seq<Member>, i: nat): (r: Option<seq<Tier>>)
    requires i < |members|
    ensures var img := members[i].image;
            var levels := Levels(members, i, Uses(members, img));
            && (r.None? <==> |levels| == 0)
            && (r.Some? ==> |r.value| == |levels|
                            && forall j :: 0 <= j < |levels| ==> r.value[j] == TierAt(members, img, levels[j]))
  {
    var img := members[i].image;
    var levels := Levels(members, i, Uses(members, img));
    if |levels| == 0 then None
    else Some(seq(|levels|, j requires 0 <= j < |levels| => TierAt(members, img, levels[j])))
  }

  /** `_groupSoftware`: the attribute of every grouped node. */
  function GroupSoftware(members: seq<Member>): (r: seq<Option<seq<Tier>>>)
    ensures |r| == |members|
    ensures forall i :: 0 <= i < |members| ==> r[i] == Attribute(members, i)
  {
    seq(|members|, i requires 0 <= i < |members| => Attribute(members, i))
  }

  /** Node `i` needs a package of the pass-`k` tier: one of its
      package-manager requirements is counted exactly `k` times. */
  predicate NeedsPackageCounted(members: seq<Member>, i: nat, k: nat)
    requires i < |members|
  {
    exists s :: s in members[i].node.software && UsePackageManager(s)
                && Refs(members, members[i].image, s) == k
  }

  /** A node gets the tier of pass `k` exactly when one of its
      package-manager requirements is counted `k` times, i.e. when it
      needs a package of that tier. */
  lemma TierIffNeeded(members: seq<Member>, i: nat, k: nat)
    requires i < |members| && 1 <= k <= Uses(members, members[i].image)
    ensures NeedsPackageCounted(members, i, k)
            <==> (Attribute(members, i).Some? && TierAt(members, members[i].image, k) in Attribute(members, i).value)
  {
    if NeedsPackageCounted(members, i, k) {
      NeededGetsTier(members, i, k);
    }
    if Attribute(members, i).Some? && TierAt(members, members[i].image, k) in Attribute(members, i).value {
      TierWasNeeded(members, i, k);
    }
  }

  lemma NeededGetsTier(members: seq<Member>, i: nat, k: nat)
    requires i < |members| && 1 <= k <= Uses(members, members[i].image)
    requires NeedsPackageCounted(members, i, k)
    ensures Attribute(members, i).Some? && TierAt(members, members[i].image, k) in Attribute(members, i).value
  {
    var img := members[i].image;
    var s :| s in members[i].node.software && UsePackageManager(s) && Refs(members, img, s) == k;
    assert members[i] in members;
    assert s in Entries(members, img);
    assert s in TierAt(members, img, k);
    assert Needs(members, i, k);
    var levels := Levels(members, i, Uses(members, img));
    assert k in levels;
    var j :| 0 <= j < |levels| && levels[j] == k;
    assert Attribute(members, i).value[j] == TierAt(members, img, k);
  }

  lemma TierWasNeeded(members: seq<Member>, i: nat, k: nat)
    requires i < |members| && 1 <= k
    requires Attribute(members, i).Some? && TierAt(members, members[i].image, k) in Attribute(members, i).value
    ensures NeedsPackageCounted(members, i, k)
  {
    var img := members[i].image;
    var levels := Levels(members, i, Uses(members, img));
    var a := Attribute(members, i).value;
    var j :| 0 <= j < |a| && a[j] == TierAt(members, img, k);
    var l := levels[j];
    assert l in levels;
    assert Needs(members, i, l);
    var s :| s in TierAt(members, img, l) && s in members[i].node.software;
    assert s in TierAt(members, img, k);
  }

  /** A node without package-manager software gets no attribute. */
  lemma NoPackagesNoAttribute(members: seq<Member>, i: nat)
    requires i < |members|
    requires forall s :: s in members[i].node.software ==> !UsePackageManager(s)
    ensures Attribute(members, i).None?
  {
    var img := members[i].image;
    forall l: nat ensures !Needs(members, i, l) {
      TierIsPackages(members, img, l);
    }
    NoNeedsNoLevels(members, i, Uses(members, img));
  }

  /** A tier holds only package-manager software. */
  lemma TierIsPackages(members: seq<Member>, img: string, k: nat)
    ensures forall s :: s in TierAt(members, img, k) ==> UsePackageManager(s)
  {
  }

  lemma NoNeedsNoLevels(members: seq<Member>, i: nat, k: nat)
    requires i < |members|
    requires forall l: nat :: !Needs(members, i, l)
    ensures Levels(members, i, k) == []
  {
  }

  lemma {:induction false} CountAtMostOne(s: Software, xs: seq<Software>)
    requires NoDuplicates(xs)
    ensures Count(s, xs) <= 1
  {
    if |xs| > 0 {
      var init := xs[..|xs| - 1];
      assert NoDuplicates(init);
      CountAtMostOne(s, init);
      if xs[|xs| - 1] == s {
        CountPositive(s, init);
        assert s !in init;
      }
    }
  }

  lemma {:induction false} PackageEntriesNoDuplicates(soft: seq<Software>)
    requires NoDuplicates(soft)
    ensures NoDuplicates(PackageEntries(soft))
  {
    if |soft| > 0 {
      var init := soft[..|soft| - 1];
      assert NoDuplicates(init);
      PackageEntriesNoDuplicates(init);
      assert soft[|soft| - 1] !in init;
    }
  }

  /** When no node lists a requirement twice, a count never exceeds the
      number of nodes using the image. */
  lemma {:induction false} RefsAtMostUses(members: seq<Member>, img: string, s: Software)
    requires forall m :: m in members ==> NoDuplicates(m.node.software)
    ensures Refs(members, img, s) <= Uses(members, img)
  {
    if |members| > 0 {
      var init := members[..|members| - 1];
      var last := members[|members| - 1];
      assert forall m :: m in init ==> m in members;
      RefsAtMostUses(init, img, s);
      var extra := if last.image == img then PackageEntries(last.node.software) else [];
      CountAppend(s, Entries(init, img), extra);
      if last.image == img {
        PackageEntriesNoDuplicates(last.node.software);
        CountAtMostOne(s, extra);
      }
    }
  }

  /** When no node lists a requirement twice, every package-manager
      requirement of a node is in one of its tiers: the tier of the pass
      equal to its count. */
  lemma EveryPackageTiered(members: seq<Member>, i: nat, s: Software)
    requires i < |members|
    requires forall m :: m in members ==> NoDuplicates(m.node.software)
    requires s in members[i].node.software && UsePackageManager(s)
    ensures var a := Attribute(members, i);
            a.Some? && exists j :: 0 <= j < |a.value| && s in a.value[j]
  {
    var img := members[i].image;
    assert members[i] in members;
    assert s in Entries(members, img);
    CountPositive(s, Entries(members, img));
    RefsAtMostUses(members, img, s);
    var k := Refs(members, img, s);
    assert s in TierAt(members, img, k);
    assert Needs(members, i, k);
    var levels := Levels(members, i, Uses(members, img));
    assert k in levels;
    var j :| 0 <= j < |levels| && levels[j] == k;
    assert s in Attribute(members, i).value[j];
  }

  const PkgX := Software("x", None)
  const PkgY := Software("y", None)
  const PkgZ := Software("z", None)

  /** One node listing `x` twice. */
  const Doubled := [Member(Node(1, "h", [PkgX, PkgX]), "img")]

  /** Counting list entries: a single node listing `x` twice counts it
      twice, more than the one pass its image runs, so `x` lands in no
      tier and the node gets no attribute at all. */
  lemma DuplicateEntryGetsNoTier()
    ensures Uses(Doubled, "img") == 1
    ensures Refs(Doubled, "img", PkgX) == 2
    ensures Attribute(Doubled, 0).None?
  {
    var soft := [PkgX, PkgX];
    assert soft[..1] == [PkgX];
    assert [PkgX][..0] == [];
    assert PackageEntries([PkgX]) == [PkgX];
    assert PackageEntries(soft) == [PkgX, PkgX];
    assert Doubled[..0] == [];
    assert Entries(Doubled, "img") == soft;
    assert Count(PkgX, [PkgX]) == 1;
    assert Count(PkgX, soft) == 2;
    assert !Needs(Doubled, 0, 1) by {
      assert PkgX !in TierAt(Doubled, "img", 1);
      assert forall s :: s in soft ==> s == PkgX;
    }
    assert Levels(Doubled, 0, 1) == [];
  }

  /** Two nodes on one image, needing {x, y} and {x, z}. */
  const TwoNodes := [Member(Node(1, "a", [PkgX, PkgY]), "img"), Member(Node(1, "b", [PkgX, PkgZ]), "img")]

  lemma TwoNodesEntries()
    ensures Entries(TwoNodes, "img") == [PkgX, PkgY, PkgX, PkgZ]
    ensures Uses(TwoNodes, "img") == 2
  {
    var m0 := TwoNodes[0];
    assert TwoNodes[..1] == [m0] && [m0][..0] == [];
    assert [PkgX, PkgY][..1] == [PkgX] && [PkgX][..0] == [];
    assert [PkgX, PkgZ][..1] == [PkgX];
    assert PackageEntries([PkgX]) == [PkgX];
    assert PackageEntries([PkgX, PkgY]) == [PkgX, PkgY];
    assert PackageEntries([PkgX, PkgZ]) == [PkgX, PkgZ];
    assert Entries([m0], "img") == [PkgX, PkgY];
    assert Uses([m0], "img") == 1;
  }

  lemma CountOne(x: Software, y: Software)
    ensures Count(x, [y]) == if x == y then 1 else 0
  {
    assert [y][..0] == [];
  }

  lemma TwoNodesCounts(e: seq<Software>)
    requires e == [PkgX, PkgY, PkgX, PkgZ]
    ensures Count(PkgX, e) == 2 && Count(PkgY, e) == 1 && Count(PkgZ, e) == 1
  {
    assert e == [PkgX] + [PkgY] + [PkgX] + [PkgZ];
    forall x | x in {PkgX, PkgY, PkgZ}
      ensures Count(x, e) == Count(x, [PkgX]) + Count(x, [PkgY]) + Count(x, [PkgX]) + Count(x, [PkgZ])
    {
      CountAppend(x, [PkgX] + [PkgY] + [PkgX], [PkgZ]);
      CountAppend(x, [PkgX] + [PkgY], [PkgX]);
      CountAppend(x, [PkgX], [PkgY]);
    }
    CountOne(PkgX, PkgX);
    CountOne(PkgX, PkgY);
    CountOne(PkgX, PkgZ);
    CountOne(PkgY, PkgX);
    CountOne(PkgY, PkgY);
    CountOne(PkgY, PkgZ);
    CountOne(PkgZ, PkgX);
    CountOne(PkgZ, PkgY);
    CountOne(PkgZ, PkgZ);
  }

  /** The tiers of the two passes: `x` alone is counted twice, `y` and
      `z` once. */
  lemma TwoNodesTiers()
    ensures PkgX in TierAt(TwoNodes, "img", 2)
    ensures PkgY in TierAt(TwoNodes, "img", 1) && PkgZ in TierAt(TwoNodes, "img", 1)
    ensures Uses(TwoNodes, "img") == 2
  {
    TwoNodesEntries();
    TwoNodesCounts(Entries(TwoNodes, "img"));
  }

  /** A tier is installed whole: the first node, needing {x, y}, gets a
      second tier holding `z`, which it does not need. */
  lemma WholeTierInstalled()
    ensures var a := Attribute(TwoNodes, 0);
            && a.Some? && |a.value| == 2
            && PkgZ in a.value[1] && PkgZ !in TwoNodes[0].node.software
  {
    TwoNodesTiers();
    var soft := TwoNodes[0].node.software;
    assert TwoNodes[0].image == "img" && PkgX in soft && PkgY in soft;
    assert Needs(TwoNodes, 0, 2);
    assert Needs(TwoNodes, 0, 1);
    TwoLevels(TwoNodes, 0);
    var a := Attribute(TwoNodes, 0);
    assert a.value[1] == TierAt(TwoNodes, "img", 1);
  }

  /** A node needing a package at both passes of a two-node image gets
      both tiers, the rarer one second. */
  lemma TwoLevels(members: seq<Member>, i: nat)
    requires i < |members| && Needs(members, i, 2) && Needs(members, i, 1)
    ensures Levels(members, i, 2) == [2, 1]
  {
    assert Levels(members, i, 0) == [];
    assert Levels(members, i, 1) == [1];
  }

  /** `_imageFromNode`: a local image named after the node, on the
      built-in image, holding the node's software and, when the node has
      the attribute, its tiers. */
  function NodeImage(nodeName: string, node: Node, attribute: Option<seq<Tier>>): (r: Image)
    ensures r.name == nodeName && r.dirName == nodeName && r.local && r.base == Some(Ubuntu)
    ensures r.software == node.software && r.tiers == attribute
  {
    var blank := ComposeImage.NewImage(nodeName, node.software, true, None, Some(Ubuntu));
    blank.value.(tiers := attribute)
  }

  /** In `_compileNode` the node image is rebased on the image chosen for
      the node. As written, a node with no package-manager software gets
      no attribute, so its image has no tiers and the rebase raises. */
  lemma NodeWithoutPackagesFailsToCompile(members: seq<Member>, i: nat, nodeName: string, base: Image)
    requires i < |members|
    requires forall s :: s in members[i].node.software ==> !UsePackageManager(s)
    ensures ComposeImage.RebaseAsWritten(NodeImage(nodeName, members[i].node, Attribute(members, i)), base).Failure?
  {
    NoPackagesNoAttribute(members, i);
  }

  /** With the corrected rebase the same node compiles to an image without
      tiers holding what the chosen image lacks. */
  lemma NodeWithoutPackagesCompilesCorrected(members: seq<Member>, i: nat, nodeName: string, base: Image)
    requires i < |members|
    requires forall s :: s in members[i].node.software ==> !UsePackageManager(s)
    ensures var r := ComposeImage.RebaseCorrected(NodeImage(nodeName, members[i].node, Attribute(members, i)), base);
            && r.tiers.None? && r.base == Some(base)
            && forall s :: s in r.software <==> s in members[i].node.software && s !in base.software
  {
    NoPackagesNoAttribute(members, i);
  }
}
