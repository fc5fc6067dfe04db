/** The dependency-ordered layer runner
    (InternetSimulator/src/seedsim/renderer/Renderer.py).

    Layers are registered once under a unique name, each with the names of
    the layers it depends on. Rendering a layer renders its dependencies
    first, depth-first and in declaration order, then runs the layer's
    `onRender` and marks it done; a layer already done is skipped. The
    `onRender` side effects are modelled by appending the layer's name to
    a log, so the log is the order in which layers actually ran. */
module Renderer {
  import opened Wrappers
  import opened Strings

  datatype Layer = Layer(deps: seq<string>, done: bool)

  /** `layers` is the renderer's dict, `order` its key (insertion) order,
      `log` the sequence of `onRender` calls so far. */
  datatype State = State(layers: map<string, Layer>, order: seq<string>, log: seq<string>)

  /** A freshly constructed renderer. */
  const Empty := State(map[], [], [])

  lemma EmptyIsConsistent()
    ensures Registered(Empty) && Consistent(Empty)
  {
  }

  /** The dict's key order lists every registered name exactly once. */
  ghost predicate Registered(st: State)
  {
    && (forall i, j :: 0 <= i < j < |st.order| ==> st.order[i] != st.order[j])
    && Elems(st.order) == st.layers.Keys
  }

  /** Every dependency of the `i`-th logged layer was logged before it. */
  ghost predicate DepsLoggedBefore(st: State, i: nat)
    requires i < |st.log|
  {
    st.log[i] in st.layers && forall d :: d in st.layers[st.log[i]].deps ==> d in st.log[..i]
  }

  /** The log agrees with the done flags: each layer ran at most once, a
      layer ran iff it is done, and it ran after all its dependencies. */
  ghost predicate Consistent(st: State)
  {
    && (forall i, j :: 0 <= i < j < |st.log| ==> st.log[i] != st.log[j])
    && (forall n :: n in st.log <==> n in st.layers && st.layers[n].done)
    && (forall i :: 0 <= i < |st.log| ==> DepsLoggedBefore(st, i))
  }

  /** A rank that strictly decreases along every registered dependency:
      a witness that the dependency graph is acyclic. The source has no
      cycle check, and a cycle makes `__render` recurse forever. */
  ghost predicate Ranked(layers: map<string, Layer>, rank: map<string, nat>)
  {
    && layers.Keys <= rank.Keys
    && forall n, d :: n in layers && d in layers[n].deps && d in layers ==> rank[d] < rank[n]
  }

  ghost predicate Acyclic(layers: map<string, Layer>)
  {
    exists rank :: Ranked(layers, rank)
  }

  /** Every dependency names a registered layer. */
  ghost predicate Closed(layers: map<string, Layer>)
  {
    forall n, d :: n in layers && d in layers[n].deps ==> d in layers
  }

  /** Rendering changes done flags only. */
  ghost predicate SameShape(a: map<string, Layer>, b: map<string, Layer>)
  {
    a.Keys == b.Keys && forall n :: n in a ==> b[n].deps == a[n].deps
  }

  /** `addLayer`: refused for a name already registered; otherwise exactly
      one new, not-done entry and nothing else changes. */
  function AddLayer(st: State, name: string, deps: seq<string>): (r: Result<State>)
    ensures r.Failure? <==> name in st.layers
    ensures r.Success? ==> r.value.layers == st.layers[name := Layer(deps, false)]
    ensures r.Success? ==> r.value.layers.Keys == st.layers.Keys + {name}
    ensures r.Success? ==> forall n :: n in st.layers ==> r.value.layers[n] == st.layers[n]
    ensures r.Success? ==> r.value.order == st.order + [name] && r.value.log == st.log
    ensures r.Success? && Registered(st) ==> Registered(r.value)
    ensures r.Success? && Consistent(st) ==> Consistent(r.value)
  {
    if name in st.layers then Failure("layer " + name + " already added.")
    else
      var r := State(st.layers[name := Layer(deps, false)], st.order + [name], st.log);
      assert Elems(r.order) == Elems(st.order) + {name};
      assert forall i :: 0 <= i < |st.log| && DepsLoggedBefore(st, i) ==> DepsLoggedBefore(r, i);
      Success(r)
  }

  /** The last two lines of `__render`: run `onRender`, mark done. */
  function MarkDone(st: State, name: string): (r: State)
    requires name in st.layers && !st.layers[name].done
    requires forall d :: d in st.layers[name].deps ==> d in st.layers && st.layers[d].done
    ensures SameShape(st.layers, r.layers) && r.order == st.order
    ensures r.layers[name].done
    ensures forall n :: n in st.layers && n != name ==> r.layers[n] == st.layers[n]
    ensures r.log == st.log + [name]
    ensures Consistent(st) ==> Consistent(r)
  {
    var r := State(st.layers[name := st.layers[name].(done := true)], st.order, st.log + [name]);
    assert Consistent(st) ==> Consistent(r) by {
      if Consistent(st) {
        assert name !in st.log;
        forall i | 0 <= i < |r.log| ensures DepsLoggedBefore(r, i) {
          if i < |st.log| {
            assert DepsLoggedBefore(st, i);
            assert r.log[..i] == st.log[..i];
          } else {
            assert r.log[..i] == st.log;
          }
        }
      }
    }
    r
  }

  /** `__render(name)`. */
  function RenderLayer(st: State, name: string, ghost rank: map<string, nat>): (r: Result<State>)
    requires Ranked(st.layers, rank)
    ensures name !in st.layers ==> r.Failure?
    ensures name in st.layers && st.layers[name].done ==> r == Success(st)
    ensures (&& name in st.layers && !st.layers[name].done
             && exists d :: d in st.layers[name].deps && d !in st.layers) ==> r.Failure?
    ensures Closed(st.layers) && name in st.layers ==> r.Success?
    ensures r.Success? ==> SameShape(st.layers, r.value.layers) && r.value.order == st.order
    ensures r.Success? ==> name in r.value.layers && r.value.layers[name].done
    ensures r.Success? ==> forall n :: n in st.layers && st.layers[n].done ==> r.value.layers[n].done
    ensures r.Success? ==> forall n :: n in st.layers && r.value.layers[n].done && !st.layers[n].done
                                       ==> rank[n] <= rank[name]
    ensures r.Success? ==> st.log <= r.value.log
    ensures r.Success? && Consistent(st) ==> Consistent(r.value)
    decreases if name in st.layers then rank[name] + 1 else 0, 1, 0
  {
    if name !in st.layers then Failure("Layer " + name + " requried but missing")
    else if st.layers[name].done then Success(st)
    else
      var r1 := RenderDeps(st, st.layers[name].deps, rank[name], rank);
      if r1.Failure? then r1
      else Success(MarkDone(r1.value, name))
  }

  /** The `for dep in layer.getDependencies()` loop of `__render`. */
  function RenderDeps(st: State, deps: seq<string>, ghost bound: nat, ghost rank: map<string, nat>): (r: Result<State>)
    requires Ranked(st.layers, rank)
    requires forall d :: d in deps && d in st.layers ==> rank[d] < bound
    ensures (exists d :: d in deps && d !in st.layers) ==> r.Failure?
    ensures Closed(st.layers) && (forall d :: d in deps ==> d in st.layers) ==> r.Success?
    ensures r.Success? ==> SameShape(st.layers, r.value.layers) && r.value.order == st.order
    ensures r.Success? ==> forall d :: d in deps ==> d in r.value.layers && r.value.layers[d].done
    ensures r.Success? ==> forall n :: n in st.layers && st.layers[n].done ==> r.value.layers[n].done
    ensures r.Success? ==> forall n :: n in st.layers && r.value.layers[n].done && !st.layers[n].done
                                       ==> rank[n] < bound
    ensures r.Success? ==> st.log <= r.value.log
    ensures r.Success? && Consistent(st) ==> Consistent(r.value)
    decreases bound + 1, 0, |deps|
  {
    if |deps| == 0 then Success(st)
    else
      var r1 := RenderLayer(st, deps[0], rank);
      if r1.Failure? then r1
      else
        var r2 := RenderDeps(r1.value, deps[1..], bound, rank);
        assert forall d :: d in deps <==> d == deps[0] || d in deps[1..];
        r2
  }

  /** `render()`: renders every registered layer in registration order.
      It succeeds exactly when every dependency names a registered layer;
      then every layer is done, each ran exactly once overall, and each
      ran after all of its dependencies. */
  method Render(st: State, ghost rank: map<string, nat>) returns (r: Result<State>)
    requires Registered(st) && Consistent(st)
    requires Ranked(st.layers, rank)
    ensures r.Success? <==> Closed(st.layers)
    ensures r.Success? ==> SameShape(st.layers, r.value.layers) && Consistent(r.value)
    ensures r.Success? ==> forall n :: n in r.value.layers ==> r.value.layers[n].done
    ensures r.Success? ==> st.log <= r.value.log
  {
    var cur := st;
    var i := 0;
    while i < |st.order|
      invariant 0 <= i <= |st.order|
      invariant Progress(st, cur, i, rank)
    {
      var next := RenderLayer(cur, st.order[i], rank);
      if next.Failure? {
        FailureMeansOpen(st, cur, i, rank);
        return next;
      }
      StepProgress(st, cur, i, rank);
      cur := next.value;
      i := i + 1;
    }
    AllDone(st, cur);
    DoneMeansClosed(st, cur);
    return Success(cur);
  }

  /** The loop invariant of `render()` after the first `i` names. */
  ghost predicate Progress(st: State, cur: State, i: nat, rank: map<string, nat>)
  {
    && i <= |st.order|
    && SameShape(st.layers, cur.layers) && cur.order == st.order
    && Consistent(cur) && st.log <= cur.log
    && Ranked(cur.layers, rank)
    && (forall k :: 0 <= k < i ==> st.order[k] in cur.layers && cur.layers[st.order[k]].done)
    && (forall n :: n in st.layers && st.layers[n].done ==> cur.layers[n].done)
  }

  /** Rendering the next name keeps the invariant. */
  lemma StepProgress(st: State, cur: State, i: nat, rank: map<string, nat>)
    requires Registered(st) && Consistent(st) && Ranked(st.layers, rank)
    requires i < |st.order| && Progress(st, cur, i, rank)
    requires RenderLayer(cur, st.order[i], rank).Success?
    ensures Progress(st, RenderLayer(cur, st.order[i], rank).value, i + 1, rank)
  {
    assert st.order[i] in Elems(st.order);
  }

  /** Rendering can only fail when some dependency is unregistered. */
  lemma FailureMeansOpen(st: State, cur: State, i: nat, rank: map<string, nat>)
    requires Registered(st) && i < |st.order| && Progress(st, cur, i, rank)
    requires RenderLayer(cur, st.order[i], rank).Failure?
    ensures !Closed(st.layers)
  {
    assert st.order[i] in Elems(st.order);
    if Closed(st.layers) {
      assert Closed(cur.layers);
    }
  }

  /** Once every name in the key order is done, every layer is. */
  lemma AllDone(st: State, cur: State)
    requires Registered(st) && SameShape(st.layers, cur.layers)
    requires forall k :: 0 <= k < |st.order| ==> st.order[k] in cur.layers && cur.layers[st.order[k]].done
    ensures forall n :: n in cur.layers ==> cur.layers[n].done
  {
    forall n | n in cur.layers ensures cur.layers[n].done {
      assert n in Elems(st.order);
      var k :| 0 <= k < |st.order| && st.order[k] == n;
    }
  }

  /** A consistent log in which every layer ran shows that every
      dependency was registered. */
  lemma DoneMeansClosed(st: State, cur: State)
    requires SameShape(st.layers, cur.layers) && Consistent(cur)
    requires forall n :: n in cur.layers ==> cur.layers[n].done
    ensures Closed(st.layers)
  {
    forall n, d | n in st.layers && d in st.layers[n].deps ensures d in st.layers {
      assert n in cur.log;
      var k :| 0 <= k < |cur.log| && cur.log[k] == n;
      assert DepsLoggedBefore(cur, k);
    }
  }

  /** From a fresh renderer, a successful `render()` ran every registered
      layer exactly once: the log is a duplicate-free listing of them. */
  lemma RenderFromFresh(st: State, r: State)
    requires Registered(st) && Consistent(st)
    requires forall n :: n in st.layers ==> !st.layers[n].done
    requires SameShape(st.layers, r.layers) && Consistent(r) && st.log <= r.log
    requires forall n :: n in r.layers ==> r.layers[n].done
    ensures st.log == []
    ensures Elems(r.log) == st.layers.Keys
    ensures |r.log| == |st.layers|
  {
    assert forall n :: n !in st.log;
    assert Elems(st.log) == {};
    ElemsEmpty(st.log);
    assert Elems(r.log) == r.layers.Keys;
    DistinctCard(r.log);
  }

  lemma DistinctCard(s: seq<string>)
    requires forall i, j :: 0 <= i < j < |s| ==> s[i] != s[j]
    ensures |Elems(s)| == |s|
  {
    if |s| > 0 {
      var t := s[..|s| - 1];
      assert s == t + [s[|s| - 1]];
      assert Elems(s) == Elems(t) + {s[|s| - 1]};
      assert s[|s| - 1] !in Elems(t);
      DistinctCard(t);
    }
  }
}
