/** The compose compiler's image catalog and the choice of a candidate
    image for a node (`Docker.addImage`, `forceImage`, `disableImages`,
    `setImageOverride`, `_selectImageFor` in seedemu/compiler/Docker.py).

    The catalog is a dict from image name to (image, priority); Python
    dicts iterate in insertion order, so it is a sequence here, with
    distinct names. */
module ImageSelection {
  import opened Wrappers
  import opened Strings
  import opened Software
  import opened ImageCore

  datatype Entry = Entry(image: Image, priority: int)

  /** A node is identified by (asn, name) for per-node overrides. */
  datatype NodeKey = NodeKey(asn: int, name: string)

  /** The part of a node selection looks at. */
  datatype Node = Node(asn: int, name: string, software: seq<Software>)

  datatype Compiler = Compiler(images: seq<Entry>, forced: Option<string>, disabled: bool,
                               perNode: map<NodeKey, string>)

  /** The built-in image every compiler starts with (`DefaultImages`). */
  const Ubuntu := Image("ubuntu:20.04", [], false, "ubuntu:20.04", None, None)

  predicate DistinctNames(images: seq<Entry>)
  {
    forall i, j :: 0 <= i < j < |images| ==> images[i].image.name != images[j].image.name
  }

  /** `self.__images[name]`, or `None` where the dict lookup raises. */
  function Find(images: seq<Entry>, name: string): (r: Option<Entry>)
    ensures r.Some? <==> exists i :: 0 <= i < |images| && images[i].image.name == name
    ensures r.Some? ==> r.value in images && r.value.image.name == name
  {
    if |images| == 0 then None
    else if images[0].image.name == name then Some(images[0])
    else
      var r := Find(images[1..], name);
      assert forall i :: 1 <= i < |images| ==> images[i] == images[1..][i - 1];
      r
  }

  /** With distinct names the entry found is the one at the name's index. */
  lemma FindIndex(images: seq<Entry>, i: nat)
    requires DistinctNames(images) && i < |images|
    ensures Find(images, images[i].image.name) == Some(images[i])
  {
    if i > 0 {
      assert images[0].image.name != images[i].image.name;
      assert DistinctNames(images[1..]) by {
        forall a, b | 0 <= a < b < |images[1..]| ensures images[1..][a].image.name != images[1..][b].image.name {
          assert images[1..][a] == images[a + 1] && images[1..][b] == images[b + 1];
        }
      }
      FindIndex(images[1..], i - 1);
    }
  }

  /** The constructor: the built-in image is the only entry, at priority 0,
      and nothing is forced, disabled or overridden. */
  function NewCompiler(): (r: Compiler)
    ensures DistinctNames(r.images)
    ensures Find(r.images, "ubuntu:20.04") == Some(Entry(Ubuntu, 0))
    ensures forall name :: Find(r.images, name).Some? ==> name == "ubuntu:20.04"
    ensures |r.images| == 1
    ensures r.forced.None? && !r.disabled && r.perNode == map[]
  {
    Compiler([Entry(Ubuntu, 0)], None, false, map[])
  }

  /** `addImage`: refused for a name already in the catalog; otherwise
      exactly one entry is added at the end and every other lookup is
      unchanged. */
  function AddImage(c: Compiler, img: Image, priority: int): (r: Result<Compiler>)
    ensures r.Failure? <==> Find(c.images, img.name).Some?
    ensures r.Success? ==> r.value.images == c.images + [Entry(img, priority)]
    ensures r.Success? ==> r.value == c.(images := r.value.images)
    ensures r.Success? && DistinctNames(c.images) ==> DistinctNames(r.value.images)
    ensures r.Success? ==> Find(r.value.images, img.name) == Some(Entry(img, priority))
    ensures r.Success? ==> forall n :: n != img.name ==> Find(r.value.images, n) == Find(c.images, n)
  {
    if Find(c.images, img.name).Some? then Failure("image with name " + img.name + " already exists.")
    else
      var images := c.images + [Entry(img, priority)];
      FindAppend(c.images, Entry(img, priority));
      Success(c.(images := images))
  }

  lemma FindAppend(images: seq<Entry>, e: Entry)
    requires Find(images, e.image.name).None?
    ensures Find(images + [e], e.image.name) == Some(e)
    ensures forall n :: n != e.image.name ==> Find(images + [e], n) == Find(images, n)
  {
    if |images| > 0 {
      assert (images + [e])[1..] == images[1..] + [e];
      FindAppend(images[1..], e);
    }
  }

  /** `forceImage`; `None` switches forcing off. */
  function ForceImage(c: Compiler, name: Option<string>): (r: Compiler)
    ensures r.forced == name && r == c.(forced := name)
  {
    c.(forced := name)
  }

  function DisableImages(c: Compiler, disabled: bool): (r: Compiler)
    ensures r.disabled == disabled && r == c.(disabled := disabled)
  {
    c.(disabled := disabled)
  }

  /** `setImageOverride`: records the image for one node, replacing an
      earlier override of that node only. */
  function SetImageOverride(c: Compiler, node: Node, imageName: string): (r: Compiler)
    ensures NodeKey(node.asn, node.name) in r.perNode && r.perNode[NodeKey(node.asn, node.name)] == imageName
    ensures forall k :: k != NodeKey(node.asn, node.name) ==>
              (k in r.perNode <==> k in c.perNode) && (k in c.perNode ==> r.perNode[k] == c.perNode[k])
    ensures r.images == c.images && r.forced == c.forced && r.disabled == c.disabled
  {
    c.(perNode := c.perNode[NodeKey(node.asn, node.name) := imageName])
  }

  /** `len(set(nodeSoft) - set(image.getSoftware()))`. */
  function Missing(soft: seq<Software>, img: Image): nat
  {
    |Elems(soft) - Elems(img.software)|
  }

  lemma MissingBound(soft: seq<Software>, img: Image)
    ensures Missing(soft, img) <= |soft|
  {
    ElemsCard(soft);
  }

  /** One round of the candidate loop of `_selectImageFor`: an image
      missing fewer requirements restarts the candidates, one missing
      as many joins them, one missing more is passed over. */
  function ScanStep(acc: (seq<Entry>, nat), e: Entry, soft: seq<Software>): (seq<Entry>, nat)
  {
    var missing := Missing(soft, e.image);
    if missing < acc.1 then ([e], missing)
    else if missing == acc.1 then (acc.0 + [e], acc.1)
    else acc
  }

  /** The candidate loop over a prefix of the catalog: the candidates so
      far and `minMissing`, which starts at `len(nodeSoft)`. */
  function Scan(entries: seq<Entry>, soft: seq<Software>): (seq<Entry>, nat)
  {
    if |entries| == 0 then ([], |soft|)
    else ScanStep(Scan(entries[..|entries| - 1], soft), entries[|entries| - 1], soft)
  }

  /** The fewest missing requirements over a non-empty catalog. */
  function MinMissing(entries: seq<Entry>, soft: seq<Software>): (m: nat)
    requires |entries| > 0
    ensures forall i :: 0 <= i < |entries| ==> m <= Missing(soft, entries[i].image)
    ensures exists i :: 0 <= i < |entries| && m == Missing(soft, entries[i].image)
  {
    var e := entries[|entries| - 1];
    if |entries| == 1 then Missing(soft, e.image)
    else
      var init := entries[..|entries| - 1];
      var m := MinMissing(init, soft);
      assert forall i :: 0 <= i < |init| ==> init[i] == entries[i];
      if Missing(soft, e.image) < m then Missing(soft, e.image) else m
  }

  /** The catalog entries with exactly `m` missing requirements, in
      catalog order. */
  function WithMissing(entries: seq<Entry>, soft: seq<Software>, m: nat): (r: seq<Entry>)
    ensures forall e {:trigger e in r} :: e in r <==> e in entries && Missing(soft, e.image) == m
  {
    if |entries| == 0 then []
    else
      var init := entries[..|entries| - 1];
      var e := entries[|entries| - 1];
      assert entries == init + [e];
      WithMissing(init, soft, m) + (if Missing(soft, e.image) == m then [e] else [])
  }

  lemma NoneMissing(entries: seq<Entry>, soft: seq<Software>, m: nat)
    requires forall i :: 0 <= i < |entries| ==> Missing(soft, entries[i].image) != m
    ensures WithMissing(entries, soft, m) == []
  {
  }

  /** After the loop the candidates are exactly the catalog images with
      the fewest missing requirements, in catalog order; so there is a
      candidate whenever the catalog is non-empty. */
  lemma {:induction false} ScanFindsMinimum(entries: seq<Entry>, soft: seq<Software>)
    requires |entries| > 0
    ensures Scan(entries, soft) == (WithMissing(entries, soft, MinMissing(entries, soft)), MinMissing(entries, soft))
    ensures |Scan(entries, soft).0| > 0
  {
    var init := entries[..|entries| - 1];
    var e := entries[|entries| - 1];
    assert entries == init + [e];
    if |init| == 0 {
      ScanFirst(e, soft);
    } else {
      ScanFindsMinimum(init, soft);
      ScanExtend(init, e, soft);
    }
    var m := MinMissing(entries, soft);
    var i :| 0 <= i < |entries| && m == Missing(soft, entries[i].image);
    assert entries[i] in WithMissing(entries, soft, m);
  }

  lemma ScanFirst(e: Entry, soft: seq<Software>)
    ensures Scan([e], soft) == ([e], Missing(soft, e.image))
    ensures MinMissing([e], soft) == Missing(soft, e.image)
    ensures WithMissing([e], soft, Missing(soft, e.image)) == [e]
  {
    MissingBound(soft, e.image);
    assert [e][..0] == [];
    assert Scan([], soft) == ([], |soft|);
    assert [] + [e] == [e];
  }

  /** One more catalog entry: how the scan, the minimum and the entries
      at a given count each extend. */
  lemma Unfold(init: seq<Entry>, e: Entry, soft: seq<Software>, m: nat)
    requires |init| > 0
    ensures Scan(init + [e], soft) == ScanStep(Scan(init, soft), e, soft)
    ensures MinMissing(init + [e], soft)
              == if Missing(soft, e.image) < MinMissing(init, soft) then Missing(soft, e.image) else MinMissing(init, soft)
    ensures WithMissing(init + [e], soft, m)
              == WithMissing(init, soft, m) + (if Missing(soft, e.image) == m then [e] else [])
  {
    var entries := init + [e];
    assert entries[..|entries| - 1] == init && entries[|entries| - 1] == e;
  }

  lemma ScanExtend(init: seq<Entry>, e: Entry, soft: seq<Software>)
    requires |init| > 0
    requires Scan(init, soft) == (WithMissing(init, soft, MinMissing(init, soft)), MinMissing(init, soft))
    ensures Scan(init + [e], soft)
              == (WithMissing(init + [e], soft, MinMissing(init + [e], soft)), MinMissing(init + [e], soft))
  {
    var m0 := MinMissing(init, soft);
    var w := WithMissing(init, soft, m0);
    var missing := Missing(soft, e.image);
    if missing < m0 {
      Unfold(init, e, soft, missing);
      NoneMissing(init, soft, missing);
      assert Scan(init + [e], soft) == ([e], missing);
      assert MinMissing(init + [e], soft) == missing;
      assert WithMissing(init + [e], soft, missing) == [] + [e] == [e];
    } else if missing == m0 {
      Unfold(init, e, soft, m0);
      assert Scan(init + [e], soft) == (w + [e], m0);
      assert WithMissing(init + [e], soft, m0) == w + [e];
    } else {
      Unfold(init, e, soft, m0);
      assert Scan(init + [e], soft) == (w, m0);
      assert WithMissing(init + [e], soft, m0) == w + [];
      assert w + [] == w;
    }
  }

  /** The last candidate whose priority is at least `p`, or `dflt`. */
  function LastAtLeast(cands: seq<Entry>, p: int, dflt: Entry): Entry
  {
    if |cands| == 0 then dflt
    else if cands[|cands| - 1].priority >= p then cands[|cands| - 1]
    else LastAtLeast(cands[..|cands| - 1], p, dflt)
  }

  /** The tie-break loop as written: `maxPiro` keeps the first candidate's
      priority, so the result is the last candidate whose priority is at
      least that, not the one with the highest priority. */
  function TieBreakAsWritten(cands: seq<Entry>): (r: Entry)
    requires |cands| > 0
    ensures r in cands && r.priority >= cands[0].priority
    ensures exists k :: 0 <= k < |cands| && cands[k] == r
                        && forall j :: k < j < |cands| ==> cands[j].priority < cands[0].priority
  {
    LastAtLeastIn(cands, cands[0].priority, cands[0]);
    LastAtLeastLatest(cands, cands[0].priority, cands[0]);
    LastAtLeast(cands, cands[0].priority, cands[0])
  }

  /** When some candidate reaches `p`, the result is the last one that
      does: every later candidate is below `p`. */
  lemma {:induction false} LastAtLeastLatest(cands: seq<Entry>, p: int, dflt: Entry)
    requires exists i :: 0 <= i < |cands| && cands[i].priority >= p
    ensures exists k :: 0 <= k < |cands| && cands[k] == LastAtLeast(cands, p, dflt) && cands[k].priority >= p
                        && forall j :: k < j < |cands| ==> cands[j].priority < p
  {
    var n := |cands| - 1;
    if cands[n].priority >= p {
      assert cands[n] == LastAtLeast(cands, p, dflt);
    } else {
      var init := cands[..n];
      var i :| 0 <= i < |cands| && cands[i].priority >= p;
      assert init[i] == cands[i];
      LastAtLeastLatest(init, p, dflt);
      var k :| 0 <= k < |init| && init[k] == LastAtLeast(init, p, dflt) && init[k].priority >= p
               && forall j :: k < j < |init| ==> init[j].priority < p;
      forall j | k < j < |cands| ensures cands[j].priority < p {
        if j < n {
          assert cands[j] == init[j];
        }
      }
      assert cands[k] == init[k];
    }
  }

  lemma LastAtLeastIn(cands: seq<Entry>, p: int, dflt: Entry)
    ensures var r := LastAtLeast(cands, p, dflt); r == dflt || (r in cands && r.priority >= p)
  {
    if |cands| > 0 {
      LastAtLeastIn(cands[..|cands| - 1], p, dflt);
    }
  }

  /** The tie-break the documentation of `addImage` describes: the highest
      priority wins, and among equal priorities the one added last. */
  function TieBreak(cands: seq<Entry>): (r: Entry)
    requires |cands| > 0
    ensures r in cands
    ensures forall i :: 0 <= i < |cands| ==> cands[i].priority <= r.priority
  {
    var last := cands[|cands| - 1];
    if |cands| == 1 then last
    else
      var init := cands[..|cands| - 1];
      var b := TieBreak(init);
      assert forall i :: 0 <= i < |init| ==> init[i] == cands[i];
      if last.priority >= b.priority then last else b
  }

  /** Among candidates of the highest priority, the tie-break takes the
      one added last. */
  lemma {:induction false} TieBreakLatest(cands: seq<Entry>)
    requires |cands| > 0
    ensures exists i :: 0 <= i < |cands| && cands[i] == TieBreak(cands)
                        && forall j :: i < j < |cands| ==> cands[j].priority < TieBreak(cands).priority
  {
    var n := |cands| - 1;
    var last := cands[n];
    var r := TieBreak(cands);
    if n == 0 || last.priority >= TieBreak(cands[..n]).priority {
      assert r == last;
      assert cands[n] == r;
    } else {
      var init := cands[..n];
      var b := TieBreak(init);
      assert r == b;
      TieBreakLatest(init);
      var i :| 0 <= i < |init| && init[i] == b && forall j :: i < j < |init| ==> init[j].priority < b.priority;
      forall j | i < j < |cands| ensures cands[j].priority < r.priority {
        if j < n {
          assert cands[j] == init[j];
        }
      }
      assert cands[i] == r;
    }
  }

  /** The default choice as written: after the candidate loop the function
      returns the loop variable `image`, i.e. the last catalog image,
      whatever the candidates and the tie-break chose. It raises on an
      empty catalog. */
  function SelectDefaultAsWritten(images: seq<Entry>, soft: seq<Software>): (r: Result<Image>)
    ensures r.Failure? <==> |images| == 0
    ensures r.Success? ==> r.value == images[|images| - 1].image
  {
    if |images| == 0 then Failure("_selectImageFor ended w/ no images?")
    else
      ScanFindsMinimum(images, soft);
      var cands := Scan(images, soft).0;
      var selected := TieBreakAsWritten(cands);
      Success(images[|images| - 1].image)
  }

  /** The default choice as documented: among the images with the fewest
      missing requirements, the highest priority, the latest on ties. */
  function SelectDefault(images: seq<Entry>, soft: seq<Software>): (r: Result<Image>)
    ensures r.Failure? <==> |images| == 0
    ensures r.Success? ==> exists k :: 0 <= k < |images| && images[k].image == r.value && BestAt(images, soft, k)
  {
    if |images| == 0 then Failure("_selectImageFor ended w/ no images?")
    else
      ScanFindsMinimum(images, soft);
      var cands := Scan(images, soft).0;
      var e := TieBreak(cands);
      TieBreakInCatalog(images, soft);
      Success(e.image)
  }

  /** Catalog entry `k` has the fewest missing requirements and, among the
      entries that do, the highest priority; every later such entry has a
      lower one. */
  predicate BestAt(images: seq<Entry>, soft: seq<Software>, k: nat)
    requires k < |images|
  {
    TopAt(images, soft, MinMissing(images, soft), k)
  }

  /** Catalog entry `k` has `m` missing requirements and, among the
      entries that do, the highest priority; every later such entry has a
      lower one. */
  predicate TopAt(images: seq<Entry>, soft: seq<Software>, m: nat, k: nat)
    requires k < |images|
  {
    && Missing(soft, images[k].image) == m
    && (forall j :: 0 <= j < |images| && Missing(soft, images[j].image) == m ==> images[j].priority <= images[k].priority)
    && (forall j :: k < j < |images| && Missing(soft, images[j].image) == m ==> images[j].priority < images[k].priority)
  }

  /** The tie-break over the scan's candidates picks the best catalog
      entry. */
  lemma TieBreakInCatalog(images: seq<Entry>, soft: seq<Software>)
    requires |images| > 0
    ensures |Scan(images, soft).0| > 0
    ensures exists k :: 0 <= k < |images| && images[k] == TieBreak(Scan(images, soft).0) && BestAt(images, soft, k)
  {
    ScanFindsMinimum(images, soft);
    TieBreakTopAt(images, soft, MinMissing(images, soft));
  }

  /** The tie-break over the entries with `m` missing is the top such
      catalog entry. */
  lemma TieBreakTopAt(images: seq<Entry>, soft: seq<Software>, m: nat)
    requires |WithMissing(images, soft, m)| > 0
    ensures exists k :: 0 <= k < |images| && images[k] == TieBreak(WithMissing(images, soft, m)) && TopAt(images, soft, m, k)
  {
    var cands := WithMissing(images, soft, m);
    var e := TieBreak(cands);
    TieBreakLatest(cands);
    var i :| 0 <= i < |cands| && cands[i] == e && forall j :: i < j < |cands| ==> cands[j].priority < e.priority;
    WithMissingLater(images, soft, m, i, e.priority);
    var k :| 0 <= k < |images| && images[k] == e
             && forall j :: k < j < |images| && Missing(soft, images[j].image) == m ==> images[j].priority < e.priority;
    TieBreakTopsCatalog(images, soft, m);
    assert cands[i] in cands;
    assert TopAt(images, soft, m, k);
  }

  /** No catalog entry with `m` missing outranks the tie-break over those
      entries. */
  lemma TieBreakTopsCatalog(images: seq<Entry>, soft: seq<Software>, m: nat)
    requires |WithMissing(images, soft, m)| > 0
    ensures forall j :: 0 <= j < |images| && Missing(soft, images[j].image) == m
                        ==> images[j].priority <= TieBreak(WithMissing(images, soft, m)).priority
  {
    var cands := WithMissing(images, soft, m);
    TieBreakBest(cands);
    forall j | 0 <= j < |images| && Missing(soft, images[j].image) == m
      ensures images[j].priority <= TieBreak(cands).priority
    {
      assert images[j] in cands;
    }
  }

  /** If every candidate after candidate `i` is below `p`, then so is
      every catalog entry with `m` missing requirements after the one
      candidate `i` came from. */
  lemma {:induction false} WithMissingLater(entries: seq<Entry>, soft: seq<Software>, m: nat, i: nat, p: int)
    requires i < |WithMissing(entries, soft, m)|
    requires forall t :: i < t < |WithMissing(entries, soft, m)| ==> WithMissing(entries, soft, m)[t].priority < p
    ensures exists k :: 0 <= k < |entries| && entries[k] == WithMissing(entries, soft, m)[i]
                        && forall j :: k < j < |entries| && Missing(soft, entries[j].image) == m
                                       ==> entries[j].priority < p
  {
    var n := |entries| - 1;
    var init := entries[..n];
    var e := entries[n];
    var w0 := WithMissing(init, soft, m);
    var w := WithMissing(entries, soft, m);
    var hit := Missing(soft, e.image) == m;
    WithMissingSnoc(entries, soft, m);
    if i < |w0| {
      assert forall t :: i < t < |w0| ==> w0[t] == w[t];
      WithMissingLater(init, soft, m, i, p);
      var k :| 0 <= k < |init| && init[k] == w0[i]
               && forall j :: k < j < |init| && Missing(soft, init[j].image) == m ==> init[j].priority < p;
      assert hit ==> w[|w0|] == e;
      forall j | k < j < |entries| && Missing(soft, entries[j].image) == m
        ensures entries[j].priority < p
      {
        if j < n {
          assert entries[j] == init[j];
        }
      }
      assert entries[k] == init[k] && w[i] == w0[i];
    } else {
      assert w[i] == e;
    }
  }

  lemma WithMissingSnoc(entries: seq<Entry>, soft: seq<Software>, m: nat)
    requires |entries| > 0
    ensures WithMissing(entries, soft, m)
              == WithMissing(entries[..|entries| - 1], soft, m)
                 + (if Missing(soft, entries[|entries| - 1].image) == m then [entries[|entries| - 1]] else [])
  {
  }

  /** No candidate outranks the tie-break's choice. */
  lemma TieBreakBest(cands: seq<Entry>)
    requires |cands| > 0
    ensures forall f :: f in cands ==> f.priority <= TieBreak(cands).priority
  {
    forall f | f in cands ensures f.priority <= TieBreak(cands).priority {
      var i :| 0 <= i < |cands| && cands[i] == f;
    }
  }

  /** `_selectImageFor`: a per-node override first, then disabled images
      (the built-in image), then a forced image, then the default choice.
      A named image missing from the catalog raises. */
  function SelectImage(c: Compiler, node: Node): (r: Result<Image>)
    ensures var key := NodeKey(node.asn, node.name);
            key in c.perNode ==>
              (r.Success? <==> Find(c.images, c.perNode[key]).Some?)
              && (r.Success? ==> r.value.name == c.perNode[key])
    ensures var key := NodeKey(node.asn, node.name);
            key !in c.perNode && c.disabled ==>
              (r.Success? <==> Find(c.images, "ubuntu:20.04").Some?)
              && (r.Success? ==> r.value.name == "ubuntu:20.04")
    ensures var key := NodeKey(node.asn, node.name);
            key !in c.perNode && !c.disabled && c.forced.Some? ==>
              (r.Success? <==> Find(c.images, c.forced.value).Some?)
              && (r.Success? ==> r.value.name == c.forced.value)
    ensures var key := NodeKey(node.asn, node.name);
            key !in c.perNode && !c.disabled && c.forced.None? ==> r == SelectDefault(c.images, node.software)
  {
    var key := NodeKey(node.asn, node.name);
    if key in c.perNode then
      match Find(c.images, c.perNode[key])
      case None => Failure("image-per-node configured, but image " + c.perNode[key] + " does not exist.")
      case Some(e) => Success(e.image)
    else if c.disabled then
      match Find(c.images, "ubuntu:20.04")
      case None => Failure("KeyError: ubuntu:20.04")
      case Some(e) => Success(e.image)
    else if c.forced.Some? then
      match Find(c.images, c.forced.value)
      case None => Failure("forced-image configured, but image " + c.forced.value + " does not exist.")
      case Some(e) => Success(e.image)
    else SelectDefault(c.images, node.software)
  }

  /** `_selectImageFor` as written: the override, disabled and forced
      branches are those of `SelectImage`, but the default branch returns
      the last catalog image, whatever the scan found. */
  function SelectImageAsWritten(c: Compiler, node: Node): (r: Result<Image>)
    ensures var key := NodeKey(node.asn, node.name);
            key in c.perNode || c.disabled || c.forced.Some? ==> r == SelectImage(c, node)
    ensures var key := NodeKey(node.asn, node.name);
            key !in c.perNode && !c.disabled && c.forced.None? ==>
              (r.Failure? <==> |c.images| == 0)
              && (r.Success? ==> r.value == c.images[|c.images| - 1].image)
  {
    var key := NodeKey(node.asn, node.name);
    if key in c.perNode || c.disabled || c.forced.Some? then SelectImage(c, node)
    else SelectDefaultAsWritten(c.images, node.software)
  }

  /** With the built-in image, then `a` (which has the node's package),
      then `b` (which has nothing), the program picks `b` for the node
      where the documented choice is `a`. */
  lemma SelectImageAsWrittenDiffers()
    ensures var c := Compiler([Entry(Ubuntu, 0), Entry(ImageA, 0), Entry(ImageB, 0)], None, false, map[]);
            var node := Node(1, "n", [PkgX]);
            && SelectImageAsWritten(c, node) == Success(ImageB)
            && SelectImage(c, node) == Success(ImageA)
  {
    var images := [Entry(Ubuntu, 0), Entry(ImageA, 0), Entry(ImageB, 0)];
    var c := Compiler(images, None, false, map[]);
    var node := Node(1, "n", [PkgX]);
    assert Elems([PkgX]) == {PkgX};
    assert Elems(ImageA.software) == {PkgX};
    assert Elems(ImageB.software) == {} && Elems(Ubuntu.software) == {};
    assert Missing([PkgX], ImageA) == 0;
    assert Missing([PkgX], ImageB) == 1 && Missing([PkgX], Ubuntu) == 1;
    assert images[1] == Entry(ImageA, 0);
    assert MinMissing(images, [PkgX]) == 0;
    var r := SelectDefault(images, [PkgX]);
    var k :| 0 <= k < |images| && images[k].image == r.value && BestAt(images, [PkgX], k);
    assert Missing([PkgX], images[k].image) == 0;
    assert k == 1;
  }

  /** A per-node override wins over disabled and forced images, whatever
      they are set to. */
  lemma OverrideWins(c: Compiler, node: Node, imageName: string, forced: Option<string>, disabled: bool)
    requires Find(c.images, imageName).Some?
    ensures var c2 := DisableImages(ForceImage(SetImageOverride(c, node, imageName), forced), disabled);
            SelectImage(c2, node) == Success(Find(c.images, imageName).value.image)
  {
  }

  /** Disabling images wins over forcing one. */
  lemma DisableWinsOverForce(c: Compiler, node: Node, forced: string)
    requires NodeKey(node.asn, node.name) !in c.perNode
    ensures SelectImage(DisableImages(ForceImage(c, Some(forced)), true), node)
              == SelectImage(DisableImages(c, true), node)
  {
  }

  /** A fresh compiler always chooses the built-in image. */
  lemma FreshCompilerChoosesUbuntu(node: Node)
    ensures SelectImage(NewCompiler(), node) == Success(Ubuntu)
  {
    var c := NewCompiler();
    var r := SelectImage(c, node);
    assert r.Success?;
    var e :| e in c.images && e.image == r.value;
  }

  const PkgX := Software("x", None)
  const ImageA := Image("a", [PkgX], false, "a", None, None)
  const ImageB := Image("b", [], false, "b", None, None)

  /** The returned image ignores the candidates: with `a` (which has the
      node's one package) added before `b` (which has nothing), `a` is the
      only candidate, yet the last catalog image `b` is returned. */
  lemma SelectReturnsLastImage()
    ensures var images := [Entry(ImageA, 0), Entry(ImageB, 0)];
            && Scan(images, [PkgX]).0 == [Entry(ImageA, 0)]
            && SelectDefaultAsWritten(images, [PkgX]) == Success(ImageB)
            && SelectDefault(images, [PkgX]) == Success(ImageA)
  {
    var images := [Entry(ImageA, 0), Entry(ImageB, 0)];
    assert Elems([PkgX]) == {PkgX};
    assert Elems(ImageA.software) == {PkgX};
    assert Elems(ImageB.software) == {};
    assert Missing([PkgX], ImageA) == 0;
    assert Missing([PkgX], ImageB) == 1;
    assert images[..1] == [Entry(ImageA, 0)];
    ScanFirst(Entry(ImageA, 0), [PkgX]);
    assert Scan(images, [PkgX]) == ([Entry(ImageA, 0)], 0);
    var r := SelectDefault(images, [PkgX]);
    var e :| e in images && e.image == r.value && Missing([PkgX], e.image) == MinMissing(images, [PkgX]);
  }

  /** The tie-break never raises `maxPiro`: with priorities 0, 5, 1 it
      picks the priority-1 candidate, not the priority-5 one. */
  lemma TieBreakIgnoresHigherPriority()
    ensures var cands := [Entry(ImageA, 0), Entry(ImageB, 5), Entry(Ubuntu, 1)];
            && TieBreakAsWritten(cands) == Entry(Ubuntu, 1)
            && TieBreak(cands) == Entry(ImageB, 5)
  {
    var cands := [Entry(ImageA, 0), Entry(ImageB, 5), Entry(Ubuntu, 1)];
    assert cands[..2] == [Entry(ImageA, 0), Entry(ImageB, 5)];
    assert cands[..2][..1] == [Entry(ImageA, 0)];
  }
}
