/** Dependency collection for the prebuilt images
    (seedemu/compiler/DockerImageBuilders.py). The class hierarchy the
    source walks by reflection is an explicit finite graph: each class
    lists its direct subclasses and either declares its software
    dependencies or does not implement `softwareDeps`. */
module ImageBuilders {
  import opened Wrappers
  import opened Strings
  import opened Software
  import opened ImageCore
  import StandaloneImage

  /** What calling `softwareDeps` on a class does. `Declared` returns a
      list: with `classMethod` the call without arguments works, otherwise
      that call raises `TypeError` and only the retry with the class as
      argument works. `NotImplemented` raises `NotImplementedError`.
      `Property` is a `@property`: on the class it is a property object,
      so both calls raise `TypeError`; `getter` is what the getter itself
      returns. */
  datatype Deps = Declared(software: seq<Software>, classMethod: bool) | NotImplemented | Property(getter: seq<Software>)

  datatype ClassInfo = ClassInfo(subclasses: seq<string>, deps: Deps)

  /** The class graph, by class name. A name without an entry has no
      subclasses and no dependencies. */
  type ClassGraph = map<string, ClassInfo>

  function Subclasses(g: ClassGraph, c: string): seq<string>
  {
    if c in g then g[c].subclasses else []
  }

  /** What a visit adds to the accumulated list: the declared software,
      or nothing when `softwareDeps` is not implemented. */
  function DepsOf(g: ClassGraph, c: string): seq<Software>
  {
    if c in g && g[c].deps.Declared? then g[c].deps.software else []
  }

  /** Visiting the class raises an uncaught `TypeError`. */
  predicate Raises(g: ClassGraph, c: string)
  {
    c in g && g[c].deps.Property?
  }

  /** `cls.softwareDeps()` without arguments returns a list. */
  predicate CallableBare(g: ClassGraph, c: string)
  {
    c in g && g[c].deps.Declared? && g[c].deps.classMethod
  }

  /** Every class the graph mentions, plus `root`. */
  ghost function Universe(g: ClassGraph, root: string): set<string>
  {
    {root} + g.Keys + (set c, i | c in g && 0 <= i < |g[c].subclasses| :: g[c].subclasses[i])
  }

  lemma SubclassInUniverse(g: ClassGraph, root: string, c: string, i: nat)
    requires i < |Subclasses(g, c)|
    ensures Subclasses(g, c)[i] in Universe(g, root)
  {
  }

  // ---------------------------------------------------------------
  // __dedupe_software_deps
  // ---------------------------------------------------------------

  /** The package-manager requirements of a list, as the set the source
      collects. */
  function PackageSet(soft: seq<Software>): (r: set<Software>)
    ensures forall s :: s in r <==> s in soft && UsePackageManager(s)
  {
    set s | s in soft && UsePackageManager(s)
  }

  /** The `scripts` list: script-installed requirements, each appended the
      first time it is seen. */
  function ScriptsInOrder(soft: seq<Software>): (r: seq<Software>)
    ensures forall s :: s in r <==> s in soft && !UsePackageManager(s)
    ensures NoDuplicates(r)
  {
    if |soft| == 0 then []
    else
      var init := soft[..|soft| - 1];
      var last := soft[|soft| - 1];
      assert soft == init + [last];
      var prev := ScriptsInOrder(init);
      if UsePackageManager(last) || last in prev then prev else prev + [last]
  }

  /** The position of the first occurrence of `x`. */
  function FirstIndex(soft: seq<Software>, x: Software): (r: nat)
    requires x in soft
    ensures r < |soft| && soft[r] == x && x !in soft[..r]
  {
    if soft[0] == x then 0
    else
      var k := FirstIndex(soft[1..], x);
      assert soft[1..][..k] == soft[1..k + 1];
      k + 1
  }

  lemma FirstIndexPrefix(soft: seq<Software>, n: nat, x: Software)
    requires n <= |soft| && x in soft[..n]
    ensures FirstIndex(soft[..n], x) == FirstIndex(soft, x)
  {
    var a := FirstIndex(soft[..n], x);
    var b := FirstIndex(soft, x);
    assert soft[..n][..a] == soft[..a];
  }

  /** The scripts keep the order of their first occurrences in the
      input. */
  lemma {:induction false} ScriptsFirstOccurrenceOrder(soft: seq<Software>, a: nat, b: nat)
    requires a < b < |ScriptsInOrder(soft)|
    ensures ScriptsInOrder(soft)[a] in soft && ScriptsInOrder(soft)[b] in soft
    ensures FirstIndex(soft, ScriptsInOrder(soft)[a]) < FirstIndex(soft, ScriptsInOrder(soft)[b])
  {
    var r := ScriptsInOrder(soft);
    assert r[a] in r && r[b] in r;
    var init := soft[..|soft| - 1];
    var last := soft[|soft| - 1];
    assert soft == init + [last];
    var prev := ScriptsInOrder(init);
    assert init == soft[..|soft| - 1];
    if b < |prev| {
      assert r[a] == prev[a] && r[b] == prev[b];
      ScriptsFirstOccurrenceOrder(init, a, b);
      FirstIndexPrefix(soft, |soft| - 1, r[a]);
      FirstIndexPrefix(soft, |soft| - 1, r[b]);
    } else {
      assert r[b] == last && last !in prev;
      assert last !in init;
      assert prev[a] in prev && prev[a] in init;
      FirstIndexPrefix(soft, |soft| - 1, r[a]);
      assert soft[..|soft| - 1] == init;
      assert FirstIndex(soft, last) == |soft| - 1;
    }
  }

  /** `__dedupe_software_deps`: the package set in some order (Python's
      set iteration order is not fixed, so any enumeration is allowed),
      then the scripts in first-occurrence order. */
  method Dedupe(soft: seq<Software>) returns (r: seq<Software>)
    ensures forall s :: s in r <==> s in soft
    ensures NoDuplicates(r)
    ensures |r| == |PackageSet(soft)| + |ScriptsInOrder(soft)|
    ensures forall i :: 0 <= i < |PackageSet(soft)| ==> UsePackageManager(r[i])
    ensures r[|PackageSet(soft)|..] == ScriptsInOrder(soft)
  {
    var packages := PackageSet(soft);
    var listed: seq<Software> := [];
    var left := packages;
    while left != {}
      invariant forall s :: s in listed ==> s in packages && s !in left
      invariant forall s :: s in packages ==> s in listed || s in left
      invariant left <= packages
      invariant NoDuplicates(listed)
      invariant |listed| + |left| == |packages|
      decreases |left|
    {
      var p :| p in left;
      listed := listed + [p];
      left := left - {p};
    }
    var scripts := ScriptsInOrder(soft);
    r := listed + scripts;
    assert r[|listed|..] == scripts;
    assert forall i :: 0 <= i < |listed| ==> listed[i] in packages;
  }

  /** Deduplicating a list with no package-manager entries keeps exactly
      its first occurrences; a duplicate-free list of scripts is kept as
      it is. */
  lemma {:induction false} ScriptsUnchanged(soft: seq<Software>)
    requires NoDuplicates(soft)
    requires forall i :: 0 <= i < |soft| ==> !UsePackageManager(soft[i])
    ensures ScriptsInOrder(soft) == soft
  {
    if |soft| > 0 {
      var init := soft[..|soft| - 1];
      assert NoDuplicates(init);
      ScriptsUnchanged(init);
      assert soft[|soft| - 1] !in init;
      assert soft == init + [soft[|soft| - 1]];
    }
  }

  // ---------------------------------------------------------------
  // __get_software_deps
  // ---------------------------------------------------------------

  /** The software accumulated by visiting `order`, in visit order. */
  function Collected(g: ClassGraph, order: seq<string>): seq<Software>
  {
    if |order| == 0 then []
    else Collected(g, order[..|order| - 1]) + DepsOf(g, order[|order| - 1])
  }

  /** Accumulated software comes from a visited class that declares it;
      a class without `softwareDeps` adds nothing. */
  lemma {:induction false} CollectedFrom(g: ClassGraph, order: seq<string>, s: Software)
    ensures s in Collected(g, order) <==>
              exists i :: 0 <= i < |order| && order[i] in g && g[order[i]].deps.Declared?
                                           && s in g[order[i]].deps.software
  {
    if |order| > 0 {
      var init := order[..|order| - 1];
      CollectedFrom(g, init, s);
      if s in Collected(g, order) && s !in Collected(g, init) {
        assert s in DepsOf(g, order[|order| - 1]);
      }
      if exists i :: 0 <= i < |order| && order[i] in g && g[order[i]].deps.Declared?
                     && s in g[order[i]].deps.software {
        var i :| 0 <= i < |order| && order[i] in g && g[order[i]].deps.Declared?
                 && s in g[order[i]].deps.software;
        if i < |order| - 1 {
          assert init[i] == order[i];
        }
      }
    }
  }

  /** Software that only excluded classes declare is never collected by
      a walk that visits no excluded class. */
  lemma OnlyExcludedDeclares(g: ClassGraph, order: seq<string>, excluded: set<string>, s: Software)
    requires forall i :: 0 <= i < |order| ==> order[i] !in excluded
    requires forall c :: c in g && g[c].deps.Declared? && s in g[c].deps.software ==> c in excluded
    ensures s !in Collected(g, order)
  {
    CollectedFrom(g, order, s);
  }

  /** The walk's state: the classes visited so far in visit order
      (`checked_classes` is their set), the `classes_to_check` list and
      the accumulated `deps_acc`. */
  datatype Walk = Walk(order: seq<string>, queue: seq<string>, acc: seq<Software>)

  /** The `for subcls in cls.__subclasses__()` loop: a subclass is
      appended unless already visited, already queued or excluded. */
  function EnqueueSubs(checked: set<string>, excluded: set<string>, queue: seq<string>,
                       subs: seq<string>): (r: seq<string>)
    ensures queue <= r
    ensures forall c :: c in r <==> c in queue || (c in subs && c !in checked && c !in excluded)
    ensures NoDuplicates(queue) ==> NoDuplicates(r)
  {
    if |subs| == 0 then queue
    else
      var init := subs[..|subs| - 1];
      var sub := subs[|subs| - 1];
      assert subs == init + [sub];
      var q := EnqueueSubs(checked, excluded, queue, init);
      if sub !in checked && sub !in q && sub !in excluded then q + [sub] else q
  }

  /** One round of `__get_software_deps`: pop the last queued class; if
      it is not excluded, add its software, mark it visited and queue its
      subclasses. */
  function Step(g: ClassGraph, excluded: set<string>, w: Walk): Walk
    requires |w.queue| > 0
  {
    var cls := w.queue[|w.queue| - 1];
    var rest := w.queue[..|w.queue| - 1];
    if cls in excluded then w.(queue := rest)
    else Walk(w.order + [cls], EnqueueSubs(Elems(w.order) + {cls}, excluded, rest, Subclasses(g, cls)),
              w.acc + DepsOf(g, cls))
  }

  /** No class is visited or queued twice, and the software is what the
      visits declared. */
  predicate Tidy(g: ClassGraph, w: Walk)
  {
    && NoDuplicates(w.order) && NoDuplicates(w.queue)
    && (forall c :: c in w.queue ==> c !in w.order)
    && w.acc == Collected(g, w.order)
  }

  /** Excluded classes are never visited, and only the root can be
      queued while excluded. */
  predicate Clean(root: string, excluded: set<string>, w: Walk)
  {
    && (forall i :: 0 <= i < |w.order| ==> w.order[i] !in excluded)
    && (forall c :: c in w.queue && c in excluded ==> c == root)
  }

  /** Every non-excluded subclass of a visited class is visited or
      queued. */
  predicate Closed(g: ClassGraph, excluded: set<string>, w: Walk)
  {
    forall i, j :: 0 <= i < |w.order| && 0 <= j < |Subclasses(g, w.order[i])|
                   && Subclasses(g, w.order[i])[j] !in excluded
                   ==> Subclasses(g, w.order[i])[j] in w.order || Subclasses(g, w.order[i])[j] in w.queue
  }

  /** Every class other than the root is reached as a subclass of an
      earlier visit. */
  predicate Reached(g: ClassGraph, root: string, w: Walk)
  {
    && (forall i :: 0 <= i < |w.order| && w.order[i] != root ==>
                      exists k :: 0 <= k < i && w.order[i] in Subclasses(g, w.order[k]))
    && (forall c :: c in w.queue && c != root ==>
                      exists k :: 0 <= k < |w.order| && c in Subclasses(g, w.order[k]))
  }

  /** The root is queued or has been dealt with. */
  predicate RootHandled(root: string, excluded: set<string>, w: Walk)
  {
    root in w.queue || root in excluded || root in w.order
  }

  ghost predicate Bounded(g: ClassGraph, root: string, w: Walk)
  {
    Elems(w.order) <= Universe(g, root) && Elems(w.queue) <= Universe(g, root)
  }

  lemma StepTidy(g: ClassGraph, excluded: set<string>, w: Walk)
    requires |w.queue| > 0 && Tidy(g, w)
    ensures Tidy(g, Step(g, excluded, w))
  {
    var cls := w.queue[|w.queue| - 1];
    var rest := w.queue[..|w.queue| - 1];
    assert w.queue == rest + [cls];
    if cls !in excluded {
      var w2 := Step(g, excluded, w);
      assert w2.order[..|w2.order| - 1] == w.order;
      assert cls !in w.order;
      assert cls !in rest;
      assert forall c :: c in w2.queue ==> c in rest || c !in Elems(w.order) + {cls};
    }
  }

  lemma StepClean(g: ClassGraph, root: string, excluded: set<string>, w: Walk)
    requires |w.queue| > 0 && Clean(root, excluded, w)
    ensures Clean(root, excluded, Step(g, excluded, w))
  {
    var rest := w.queue[..|w.queue| - 1];
    assert w.queue == rest + [w.queue[|w.queue| - 1]];
  }

  lemma StepClosed(g: ClassGraph, excluded: set<string>, w: Walk)
    requires |w.queue| > 0 && Closed(g, excluded, w)
    ensures Closed(g, excluded, Step(g, excluded, w))
  {
    var cls := w.queue[|w.queue| - 1];
    var rest := w.queue[..|w.queue| - 1];
    assert w.queue == rest + [cls];
    var w2 := Step(g, excluded, w);
    if cls !in excluded {
      forall i, j | 0 <= i < |w2.order| && 0 <= j < |Subclasses(g, w2.order[i])|
                    && Subclasses(g, w2.order[i])[j] !in excluded
        ensures Subclasses(g, w2.order[i])[j] in w2.order || Subclasses(g, w2.order[i])[j] in w2.queue
      {
        var sub := Subclasses(g, w2.order[i])[j];
        if i < |w.order| {
          assert w2.order[i] == w.order[i];
          assert sub in w.order || sub in w.queue;
          assert sub in w.order || sub == cls || sub in rest;
        } else {
          assert sub in Subclasses(g, cls);
        }
      }
    }
  }

  lemma StepReached(g: ClassGraph, root: string, excluded: set<string>, w: Walk)
    requires |w.queue| > 0 && Reached(g, root, w)
    ensures Reached(g, root, Step(g, excluded, w))
  {
    StepReachedOrder(g, root, excluded, w);
    StepReachedQueue(g, root, excluded, w);
  }

  lemma StepReachedOrder(g: ClassGraph, root: string, excluded: set<string>, w: Walk)
    requires |w.queue| > 0 && Reached(g, root, w)
    ensures var w2 := Step(g, excluded, w);
            forall i :: 0 <= i < |w2.order| && w2.order[i] != root ==>
                          exists k :: 0 <= k < i && w2.order[i] in Subclasses(g, w2.order[k])
  {
    var cls := w.queue[|w.queue| - 1];
    var w2 := Step(g, excluded, w);
    if cls !in excluded {
      var n := |w.order|;
      assert cls in w.queue;
      forall i | 0 <= i < |w2.order| && w2.order[i] != root
        ensures exists k :: 0 <= k < i && w2.order[i] in Subclasses(g, w2.order[k])
      {
        if i < n {
          var k :| 0 <= k < i && w.order[i] in Subclasses(g, w.order[k]);
          assert w2.order[k] == w.order[k] && w2.order[i] == w.order[i];
        } else {
          assert w2.order[i] == cls;
          var k :| 0 <= k < n && cls in Subclasses(g, w.order[k]);
          assert w2.order[k] == w.order[k];
        }
      }
    }
  }

  lemma StepReachedQueue(g: ClassGraph, root: string, excluded: set<string>, w: Walk)
    requires |w.queue| > 0 && Reached(g, root, w)
    ensures var w2 := Step(g, excluded, w);
            forall c :: c in w2.queue && c != root ==>
                          exists k :: 0 <= k < |w2.order| && c in Subclasses(g, w2.order[k])
  {
    var cls := w.queue[|w.queue| - 1];
    var rest := w.queue[..|w.queue| - 1];
    assert w.queue == rest + [cls];
    var w2 := Step(g, excluded, w);
    assert forall c :: c in rest ==> c in w.queue;
    if cls !in excluded {
      var n := |w.order|;
      forall c | c in w2.queue && c != root
        ensures exists k :: 0 <= k < |w2.order| && c in Subclasses(g, w2.order[k])
      {
        if c in rest {
          var k :| 0 <= k < n && c in Subclasses(g, w.order[k]);
          assert w2.order[k] == w.order[k];
        } else {
          assert w2.order[n] == cls;
        }
      }
    }
  }

  lemma StepRootHandled(g: ClassGraph, root: string, excluded: set<string>, w: Walk)
    requires |w.queue| > 0 && RootHandled(root, excluded, w)
    ensures RootHandled(root, excluded, Step(g, excluded, w))
  {
    var rest := w.queue[..|w.queue| - 1];
    assert w.queue == rest + [w.queue[|w.queue| - 1]];
  }

  /** Each round visits a new class of the finite universe, or shortens
      the queue without visiting. */
  lemma StepProgress(g: ClassGraph, root: string, excluded: set<string>, w: Walk)
    requires |w.queue| > 0 && Tidy(g, w) && Bounded(g, root, w)
    ensures Bounded(g, root, Step(g, excluded, w))
    ensures var w2 := Step(g, excluded, w);
            || Universe(g, root) - Elems(w2.order) < Universe(g, root) - Elems(w.order)
            || (Elems(w2.order) == Elems(w.order) && |w2.queue| < |w.queue|)
  {
    var cls := w.queue[|w.queue| - 1];
    var rest := w.queue[..|w.queue| - 1];
    assert w.queue == rest + [cls];
    var w2 := Step(g, excluded, w);
    if cls !in excluded {
      assert Elems(w2.order) == Elems(w.order) + {cls};
      assert cls in Universe(g, root) && cls !in Elems(w.order);
      forall c | c in w2.queue ensures c in Universe(g, root) {
        if c !in rest {
          var j :| 0 <= j < |Subclasses(g, cls)| && Subclasses(g, cls)[j] == c;
          SubclassInUniverse(g, root, cls, j);
        }
      }
    }
  }

  /** A round keeps everything the walk keeps, and makes progress. */
  lemma StepWalking(g: ClassGraph, root: string, excluded: set<string>, w: Walk)
    requires |w.queue| > 0 && Walking(g, root, excluded, w)
    ensures Walking(g, root, excluded, Step(g, excluded, w))
    ensures var w2 := Step(g, excluded, w);
            || Universe(g, root) - Elems(w2.order) < Universe(g, root) - Elems(w.order)
            || (Elems(w2.order) == Elems(w.order) && |w2.queue| < |w.queue|)
  {
    StepTidy(g, excluded, w);
    StepClean(g, root, excluded, w);
    StepClosed(g, excluded, w);
    StepReached(g, root, excluded, w);
    StepRootHandled(g, root, excluded, w);
    StepProgress(g, root, excluded, w);
  }

  /** Everything the walk keeps, together. */
  ghost predicate Walking(g: ClassGraph, root: string, excluded: set<string>, w: Walk)
  {
    Tidy(g, w) && Clean(root, excluded, w) && Closed(g, excluded, w) && Reached(g, root, w)
    && RootHandled(root, excluded, w) && Bounded(g, root, w)
  }

  /** A walk prefix: no class twice, no excluded class, and every class
      other than the root reached as a subclass of an earlier visit. */
  predicate Partial(g: ClassGraph, root: string, excluded: set<string>, order: seq<string>)
  {
    && NoDuplicates(order)
    && (forall i :: 0 <= i < |order| ==> order[i] !in excluded)
    && (forall i :: 0 <= i < |order| && order[i] != root ==>
                      exists k :: 0 <= k < i && order[i] in Subclasses(g, order[k]))
  }

  /** A finished walk: the root is visited exactly when not excluded, and
      the visits are closed under non-excluded subclasses. */
  predicate Complete(g: ClassGraph, root: string, excluded: set<string>, order: seq<string>)
  {
    && Partial(g, root, excluded, order)
    && (root !in excluded <==> root in order)
    && (forall i, j :: 0 <= i < |order| && 0 <= j < |Subclasses(g, order[i])|
                       && Subclasses(g, order[i])[j] !in excluded
                       ==> Subclasses(g, order[i])[j] in order)
  }

  /** Popping a non-excluded class extends the visits to a walk prefix. */
  lemma StopAt(g: ClassGraph, root: string, excluded: set<string>, w: Walk)
    requires |w.queue| > 0 && w.queue[|w.queue| - 1] !in excluded
    requires NoDuplicates(w.order) && forall c :: c in w.queue ==> c !in w.order
    requires Clean(root, excluded, w) && Reached(g, root, w)
    ensures Partial(g, root, excluded, w.order + [w.queue[|w.queue| - 1]])
  {
    var cls := w.queue[|w.queue| - 1];
    assert cls in w.queue;
    FreshSnoc(w.order, cls);
    StopAtReached(g, root, w);
  }

  /** Appending an entry not yet present keeps a list free of repeats. */
  lemma FreshSnoc(s: seq<string>, x: string)
    requires NoDuplicates(s) && x !in s
    ensures NoDuplicates(s + [x])
  {
    var o := s + [x];
    forall i, j | 0 <= i < j < |o| ensures o[i] != o[j] {
      if j < |s| {
        assert o[i] == s[i] && o[j] == s[j];
      } else {
        assert o[i] == s[i] && s[i] in s;
      }
    }
  }

  /** The popped class was queued as a subclass of an earlier visit. */
  lemma StopAtReached(g: ClassGraph, root: string, w: Walk)
    requires |w.queue| > 0 && Reached(g, root, w)
    ensures var o := w.order + [w.queue[|w.queue| - 1]];
            forall i :: 0 <= i < |o| && o[i] != root ==> exists k :: 0 <= k < i && o[i] in Subclasses(g, o[k])
  {
    var cls := w.queue[|w.queue| - 1];
    var o := w.order + [cls];
    assert cls in w.queue;
    forall i | 0 <= i < |o| && o[i] != root
      ensures exists k :: 0 <= k < i && o[i] in Subclasses(g, o[k])
    {
      if i < |w.order| {
        var k :| 0 <= k < i && w.order[i] in Subclasses(g, w.order[k]);
        assert o[k] == w.order[k] && o[i] == w.order[i];
      } else {
        var k :| 0 <= k < |w.order| && cls in Subclasses(g, w.order[k]);
        assert o[k] == w.order[k];
      }
    }
  }

  /** The `__get_software_deps` recursion from `[root]`, as a loop. It
      fails on the first visited class whose `softwareDeps` raises a
      `TypeError` the retry does not catch; otherwise it returns the
      accumulated software, before deduplication. `order` is the visit
      order, ending with the failing class on failure. */
  method WalkClasses(g: ClassGraph, root: string, excluded: set<string>)
    returns (order: seq<string>, r: Result<seq<Software>>)
    ensures Partial(g, root, excluded, order)
    ensures r.Failure? <==> exists i :: 0 <= i < |order| && Raises(g, order[i])
    ensures r.Failure? ==> && |order| > 0 && Raises(g, order[|order| - 1])
                           && forall i :: 0 <= i < |order| - 1 ==> !Raises(g, order[i])
    ensures r.Success? ==> Complete(g, root, excluded, order) && r.value == Collected(g, order)
  {
    var w := Walk([], [root], []);
    while |w.queue| > 0
      invariant Walking(g, root, excluded, w)
      invariant forall i :: 0 <= i < |w.order| ==> !Raises(g, w.order[i])
      decreases Universe(g, root) - Elems(w.order), |w.queue|
    {
      var cls := w.queue[|w.queue| - 1];
      if cls !in excluded && Raises(g, cls) {
        StopAt(g, root, excluded, w);
        order := w.order + [cls];
        assert Raises(g, order[|order| - 1]);
        return order, Failure("TypeError");
      }
      StepWalking(g, root, excluded, w);
      StepNoRaise(g, excluded, w);
      w := Step(g, excluded, w);
    }
    Finished(g, root, excluded, w);
    order, r := w.order, Success(w.acc);
  }

  /** `get_seed_deps`: the walk from `root` (the installer base class),
      then `__dedupe_software_deps` of what it accumulated. */
  method SeedDeps(g: ClassGraph, root: string, excluded: set<string>)
    returns (order: seq<string>, r: Result<seq<Software>>)
    ensures Partial(g, root, excluded, order)
    ensures r.Failure? <==> exists i :: 0 <= i < |order| && Raises(g, order[i])
    ensures r.Success? ==> Complete(g, root, excluded, order)
    ensures r.Success? ==> (forall s :: s in r.value <==> s in Collected(g, order)) && NoDuplicates(r.value)
    ensures r.Success? ==> && |PackageSet(Collected(g, order))| <= |r.value|
                           && r.value[|PackageSet(Collected(g, order))|..] == ScriptsInOrder(Collected(g, order))
  {
    var walked;
    order, walked := WalkClasses(g, root, excluded);
    if walked.Failure? {
      return order, Failure(walked.error);
    }
    var deduped := Dedupe(walked.value);
    r := Success(deduped);
  }

  /** With the queue empty, the visited classes are closed under
      non-excluded subclasses. */
  lemma Finished(g: ClassGraph, root: string, excluded: set<string>, w: Walk)
    requires Walking(g, root, excluded, w) && |w.queue| == 0
    ensures Complete(g, root, excluded, w.order)
  {
  }

  /** A round that does not stop visits no raising class. */
  lemma StepNoRaise(g: ClassGraph, excluded: set<string>, w: Walk)
    requires |w.queue| > 0 && forall i :: 0 <= i < |w.order| ==> !Raises(g, w.order[i])
    requires w.queue[|w.queue| - 1] in excluded || !Raises(g, w.queue[|w.queue| - 1])
    ensures var w2 := Step(g, excluded, w); forall i :: 0 <= i < |w2.order| ==> !Raises(g, w2.order[i])
  {
    var w2 := Step(g, excluded, w);
    assert forall i :: 0 <= i < |w.order| ==> w2.order[i] == w.order[i];
  }

  // ---------------------------------------------------------------
  // get_seedemu_*_image
  // ---------------------------------------------------------------

  /** The plain Ubuntu image the seedemu image is built on. */
  const UbuntuBase := Image("ubuntu:20.04", [], true, "ubuntu:20.04", None, None)

  /** The `<owner>/seedemu` image for a walk: local, on a local Ubuntu
      base, holding the software the visited classes declare, once each. */
  ghost predicate SeedemuOf(g: ClassGraph, owner: string, order: seq<string>, img: Image)
  {
    && img.name == owner + "/seedemu" && img.local && img.base == Some(UbuntuBase)
    && (forall s :: s in img.software <==> s in Collected(g, order))
    && NoDuplicates(img.software)
  }

  /** `get_seedemu_image`: the seed walk with the listed exclusions, then
      the image of its deduplicated software. It fails when the walk
      does. */
  method SeedemuImage(g: ClassGraph, root: string, excluded: set<string>, owner: string)
    returns (order: seq<string>, r: Result<Image>)
    ensures Partial(g, root, excluded, order)
    ensures r.Failure? <==> exists i :: 0 <= i < |order| && Raises(g, order[i])
    ensures r.Success? ==> Complete(g, root, excluded, order) && SeedemuOf(g, owner, order, r.value)
  {
    var soft;
    order, soft := SeedDeps(g, root, excluded);
    if soft.Failure? {
      return order, Failure(soft.error);
    }
    var built := StandaloneImage.NewImage(owner + "/seedemu", soft.value, true, None, Some(UbuntuBase));
    MinusNothing(soft.value);
    r := Success(built.value);
  }

  /** Dropping nothing keeps a list as it is. */
  lemma {:induction false} MinusNothing(soft: seq<Software>)
    ensures Minus(soft, []) == soft
  {
    if |soft| > 0 {
      MinusNothing(soft[..|soft| - 1]);
      assert soft == soft[..|soft| - 1] + [soft[|soft| - 1]];
    }
  }

  /** The software the listed classes declare, in list order, by calling
      `softwareDeps()` on each without arguments: a class that does not
      take that call returns nothing and raises instead. */
  function DeclaredDeps(g: ClassGraph, classes: seq<string>): (r: Result<seq<Software>>)
    ensures r.Failure? <==> exists i :: 0 <= i < |classes| && !CallableBare(g, classes[i])
    ensures r.Success? ==> r.value == Collected(g, classes)
  {
    if |classes| == 0 then Success([])
    else
      var c := classes[|classes| - 1];
      var init := classes[..|classes| - 1];
      var prev := DeclaredDeps(g, init);
      assert forall i :: 0 <= i < |init| ==> init[i] == classes[i];
      if prev.Failure? then prev
      else if !CallableBare(g, c) then Failure(if c in g && g[c].deps.NotImplemented? then "NotImplementedError" else "TypeError")
      else Success(prev.value + g[c].deps.software)
  }

  /** `get_seedemu_tor_image`, `get_seedemu_botnet_image` and
      `get_seedemu_eth_image`: the deduplicated software of the listed
      service classes, as a local `<owner>/<suffix>` image built on the
      seedemu image, so it records none of the seedemu image's software.
      `order` is the seed walk, empty when the listed classes already
      fail. */
  method SpecialisedImage(g: ClassGraph, root: string, excluded: set<string>, owner: string,
                          suffix: string, classes: seq<string>) returns (order: seq<string>, r: Result<Image>)
    ensures Partial(g, root, excluded, order)
    ensures r.Failure? <==> || (exists i :: 0 <= i < |classes| && !CallableBare(g, classes[i]))
                            || (exists i :: 0 <= i < |order| && Raises(g, order[i]))
    ensures r.Success? ==> && r.value.name == owner + "/" + suffix && r.value.local
                           && r.value.base.Some? && Complete(g, root, excluded, order)
                           && SeedemuOf(g, owner, order, r.value.base.value)
    ensures r.Success? ==> forall s :: s in r.value.software <==>
                             s in Collected(g, classes) && s !in r.value.base.value.software
  {
    var declared := DeclaredDeps(g, classes);
    if declared.Failure? {
      return [], Failure(declared.error);
    }
    var soft := Dedupe(declared.value);
    var seedemu;
    order, seedemu := SeedemuImage(g, root, excluded, owner);
    if seedemu.Failure? {
      return order, Failure(seedemu.error);
    }
    var built := StandaloneImage.NewImage(owner + "/" + suffix, soft, true, None, Some(seedemu.value));
    r := Success(built.value);
  }

  // ---------------------------------------------------------------
  // A `@property` softwareDeps
  // ---------------------------------------------------------------

  /** The installer hierarchy around the reverse DNS server: `Server`
      sits under `NodeSoftwareInstaller` (its subclass `BotnetServer` is
      one the seedemu image excludes), and `ReverseDomainNameServer`
      declares `softwareDeps` as a `@property` returning no software. */
  const ReverseDnsGraph: ClassGraph := map[
    "NodeSoftwareInstaller" := ClassInfo(["Server"], NotImplemented),
    "Server" := ClassInfo(["BotnetServer", "ReverseDomainNameServer"], NotImplemented),
    "BotnetServer" := ClassInfo([], Declared([], true)),
    "ReverseDomainNameServer" := ClassInfo([], Property([]))]

  /** The shape of that hierarchy: the installer's one subclass, the
      server's two, and the one class that raises. */
  lemma ReverseDnsGraphShape()
    ensures Subclasses(ReverseDnsGraph, "NodeSoftwareInstaller") == ["Server"]
    ensures Subclasses(ReverseDnsGraph, "Server") == ["BotnetServer", "ReverseDomainNameServer"]
    ensures forall c :: Raises(ReverseDnsGraph, c) <==> c == "ReverseDomainNameServer"
  {
  }

  /** A finished walk contains every non-excluded subclass of a visit. */
  lemma ClosedUnder(g: ClassGraph, root: string, excluded: set<string>, order: seq<string>, c: string, j: nat)
    requires Complete(g, root, excluded, order) && c in order
    requires j < |Subclasses(g, c)| && Subclasses(g, c)[j] !in excluded
    ensures Subclasses(g, c)[j] in order
  {
    var i :| 0 <= i < |order| && order[i] == c;
    assert Subclasses(g, order[i])[j] == Subclasses(g, c)[j];
  }

  /** Every finished walk of that hierarchy visits the reverse DNS
      server. */
  lemma CompleteVisitsReverseDns(order: seq<string>)
    requires Complete(ReverseDnsGraph, "NodeSoftwareInstaller", {"BotnetServer"}, order)
    ensures "ReverseDomainNameServer" in order
  {
    var g := ReverseDnsGraph;
    var excluded := {"BotnetServer"};
    ReverseDnsGraphShape();
    assert "NodeSoftwareInstaller" !in excluded;
    ClosedUnder(g, "NodeSoftwareInstaller", excluded, order, "NodeSoftwareInstaller", 0);
    ClosedUnder(g, "NodeSoftwareInstaller", excluded, order, "Server", 1);
  }

  /** As written, building the seedemu image over that hierarchy raises
      `TypeError` at the reverse DNS server. */
  method ReverseDnsBreaksSeedemuImage(owner: string) returns (order: seq<string>, r: Result<Image>)
    ensures r.Failure? && "ReverseDomainNameServer" in order
  {
    order, r := SeedemuImage(ReverseDnsGraph, "NodeSoftwareInstaller", {"BotnetServer"}, owner);
    ReverseDnsGraphShape();
    if r.Success? {
      CompleteVisitsReverseDns(order);
    }
    var i :| 0 <= i < |order| && Raises(ReverseDnsGraph, order[i]);
    assert order[i] == "ReverseDomainNameServer";
  }

  /** The graph with every `@property` declared as a class method
      returning what its getter returns, as the other services do. */
  function Fixed(g: ClassGraph): (r: ClassGraph)
    ensures r.Keys == g.Keys
    ensures forall c :: Subclasses(r, c) == Subclasses(g, c) && !Raises(r, c)
    ensures forall c :: c in g ==> DepsOf(r, c) == Intended(g, c)
  {
    map c | c in g :: if g[c].deps.Property? then ClassInfo(g[c].subclasses, Declared(g[c].deps.getter, true)) else g[c]
  }

  /** The software a class is meant to contribute: its list, or what its
      getter returns. */
  function Intended(g: ClassGraph, c: string): seq<Software>
  {
    if c in g && g[c].deps.Property? then g[c].deps.getter else DepsOf(g, c)
  }

  /** The walk only depends on the subclasses, which fixing keeps. */
  lemma FixedSameWalk(g: ClassGraph, root: string, excluded: set<string>, order: seq<string>)
    ensures Complete(Fixed(g), root, excluded, order) <==> Complete(g, root, excluded, order)
  {
    assert forall c :: Subclasses(Fixed(g), c) == Subclasses(g, c);
  }

  /** With every `softwareDeps` a class method, the seedemu image is
      always built, and it holds exactly the software the visited
      classes are meant to contribute, getters included. */
  method SeedemuImageFixed(g: ClassGraph, root: string, excluded: set<string>, owner: string)
    returns (order: seq<string>, img: Image)
    ensures Complete(g, root, excluded, order)
    ensures img.name == owner + "/seedemu" && img.local && img.base == Some(UbuntuBase) && NoDuplicates(img.software)
    ensures forall s :: s in img.software <==> exists i :: 0 <= i < |order| && s in Intended(g, order[i])
  {
    var fixed := Fixed(g);
    var r;
    order, r := SeedemuImage(fixed, root, excluded, owner);
    assert forall i :: 0 <= i < |order| ==> !Raises(fixed, order[i]);
    img := r.value;
    FixedSameWalk(g, root, excluded, order);
    forall s ensures s in img.software <==> exists i :: 0 <= i < |order| && s in Intended(g, order[i]) {
      CollectedFrom(fixed, order, s);
      forall i | 0 <= i < |order|
        ensures (order[i] in fixed && fixed[order[i]].deps.Declared? && s in fixed[order[i]].deps.software)
                <==> s in Intended(g, order[i])
      {
      }
    }
  }
}
