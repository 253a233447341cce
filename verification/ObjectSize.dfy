/** The size estimate of a Python object graph: a worklist walk over builtin containers, with
  sharing and cycles. */
module ObjectSize {
  import opened Sets
  type Ref = nat

  /** An object: its own size and, for a builtin container, what it refers to in iteration
    order. */
  datatype Node =
    | Dict(shallow: nat, keys: seq<Ref>, values: seq<Ref>)
    | Collection(shallow: nat, items: seq<Ref>)
    | Leaf(shallow: nat)

  type Heap = map<Ref, Node>

  function Children(n: Node): seq<Ref> {
    match n
    case Dict(_, keys, values) => keys + values
    case Collection(_, items) => items
    case Leaf(_) => []
  }

  /** A dict refers to its keys and its values, any other container to its items. */
  predicate RefersTo(n: Node, c: Ref) {
    match n
    case Dict(_, keys, values) => c in keys || c in values
    case Collection(_, items) => c in items
    case Leaf(_) => false
  }

  lemma ChildrenAre(n: Node)
    ensures forall c :: c in Children(n) <==> RefersTo(n, c)
  {
  }

  /** Containers refer to objects of the heap. */
  ghost predicate Closed(h: Heap) {
    forall r, c :: r in h && RefersTo(h[r], c) ==> c in h
  }

  // ---------- reachability ----------

  ghost predicate Path(h: Heap, p: seq<Ref>) {
    && |p| > 0 && (forall i :: 0 <= i < |p| ==> p[i] in h)
    && forall i :: 0 <= i < |p| - 1 ==> RefersTo(h[p[i]], p[i + 1])
  }

  ghost predicate PathTo(h: Heap, p: seq<Ref>, root: Ref, r: Ref) {
    Path(h, p) && p[0] == root && p[|p| - 1] == r
  }

  ghost predicate Reachable(h: Heap, root: Ref, r: Ref) {
    exists p :: PathTo(h, p, root, r)
  }

  /** The objects reachable from `root` through containers. */
  ghost function Reach(h: Heap, root: Ref): set<Ref> {
    set r | r in h.Keys && Reachable(h, root, r)
  }

  lemma ReachRoot(h: Heap, root: Ref)
    requires root in h
    ensures Reachable(h, root, root)
  {
    assert PathTo(h, [root], root, root);
  }

  lemma ReachChild(h: Heap, root: Ref, r: Ref, c: Ref)
    requires Closed(h) && Reachable(h, root, r) && r in h && RefersTo(h[r], c)
    ensures Reachable(h, root, c)
  {
    var p :| PathTo(h, p, root, r);
    assert PathTo(h, p + [c], root, c);
  }

  /** A set that holds the root and every child of its members holds all that is reachable. */
  lemma {:induction false} ClosedSetContains(h: Heap, seen: set<Ref>, p: seq<Ref>, root: Ref, r: Ref)
    requires PathTo(h, p, root, r) && root in seen
    requires forall s, c :: s in seen && s in h && RefersTo(h[s], c) ==> c in seen
    ensures r in seen
    decreases |p|
  {
    if |p| > 1 {
      var init := p[..|p| - 1];
      assert PathTo(h, init, root, init[|init| - 1]);
      ClosedSetContains(h, seen, init, root, init[|init| - 1]);
      assert RefersTo(h[p[|p| - 2]], p[|p| - 2 + 1]);
    }
  }

  // ---------- sums over sets of objects ----------

  function SizeAt(h: Heap, r: Ref): nat {
    if r in h then h[r].shallow else 0
  }

  /** Each object counted once. */
  ghost function SumShallow(h: Heap, s: set<Ref>): nat
    decreases |s|
  {
    if s == {} then 0 else SizeAt(h, Pick(s)) + SumShallow(h, s - {Pick(s)})
  }

  lemma {:induction false} SumRemove(h: Heap, s: set<Ref>, r: Ref)
    requires r in s
    ensures SumShallow(h, s) == SizeAt(h, r) + SumShallow(h, s - {r})
    decreases |s|
  {
    var q := Pick(s);
    if q != r {
      SumRemove(h, s - {q}, r);
      SumRemove(h, s - {r}, q);
      assert s - {q} - {r} == s - {r} - {q};
    }
  }

  lemma SumAdd(h: Heap, s: set<Ref>, r: Ref)
    requires r !in s
    ensures SumShallow(h, s + {r}) == SumShallow(h, s) + SizeAt(h, r)
  {
    SumRemove(h, s + {r}, r);
    assert s + {r} - {r} == s;
  }

  // ---------- _estimate_object_size ----------

  /** What the walk has established: everything met is reachable, and whatever a visited object
    refers to is visited or on the stack. */
  ghost predicate Walked(h: Heap, root: Ref, seen: set<Ref>, stack: seq<Ref>) {
    && seen <= h.Keys && (forall r :: r in stack ==> r in h)
    && (forall r :: r in stack || r in seen ==> Reachable(h, root, r))
    && (root in seen || root in stack)
    && (forall r, c :: r in seen && RefersTo(h[r], c) ==> c in seen || c in stack)
  }

  lemma SkipKeeps(h: Heap, root: Ref, seen: set<Ref>, stack: seq<Ref>, item: Ref)
    requires Walked(h, root, seen, stack + [item]) && item in seen
    ensures Walked(h, root, seen, stack)
  {
    assert forall r :: r in stack + [item] <==> r in stack || r == item;
  }

  lemma VisitKeeps(h: Heap, root: Ref, seen: set<Ref>, stack: seq<Ref>, item: Ref)
    requires Closed(h) && Walked(h, root, seen, stack + [item])
    ensures Walked(h, root, seen + {item}, stack + Children(h[item]))
  {
    hide Reachable, RefersTo;
    ChildrenAre(h[item]);
    var grown := stack + Children(h[item]);
    assert forall r :: r in stack + [item] <==> r in stack || r == item;
    assert forall r :: r in grown <==> r in stack || r in Children(h[item]);
    forall c | c in Children(h[item]) ensures Reachable(h, root, c) && c in h { ReachChild(h, root, item, c); }
  }

  lemma WalkedAll(h: Heap, root: Ref, seen: set<Ref>)
    requires Walked(h, root, seen, [])
    ensures seen == Reach(h, root)
  {
    forall r | r in Reach(h, root) ensures r in seen {
      var p :| PathTo(h, p, root, r);
      ClosedSetContains(h, seen, p, root, r);
    }
  }

  /** Terminates on every finite graph, cycles included, and sums the shallow sizes of exactly
    the reachable objects, each once. */
  method EstimateObjectSize(h: Heap, root: Ref) returns (total: nat)
    requires Closed(h) && root in h
    ensures total == SumShallow(h, Reach(h, root))
  {
    hide Walked, Reach, SumShallow, Closed;
    var seen: set<Ref> := {};
    var stack: seq<Ref> := [root];
    total := 0;
    StartWalk(h, root);
    while stack != []
      invariant Walked(h, root, seen, stack) && total == SumShallow(h, seen)
      decreases |h.Keys - seen|, |stack|
    {
      var item := stack[|stack| - 1];
      assert stack == stack[..|stack| - 1] + [item];
      stack := stack[..|stack| - 1];
      InHeap(h, root, seen, stack, item);
      if item in seen {
        SkipKeeps(h, root, seen, stack, item);
        continue;
      }
      VisitKeeps(h, root, seen, stack, item);
      SumAdd(h, seen, item);
      assert h.Keys - seen == (h.Keys - (seen + {item})) + {item};
      seen := seen + {item};
      total := total + h[item].shallow;
      match h[item]
      case Dict(_, keys, values) =>
        assert stack + Children(h[item]) == stack + keys + values;
        stack := stack + keys;
        stack := stack + values;
      case Collection(_, items) =>
        stack := stack + items;
      case Leaf(_) =>
        assert stack + [] == stack;
    }
    WalkedAll(h, root, seen);
  }

  lemma StartWalk(h: Heap, root: Ref)
    requires root in h
    ensures Walked(h, root, {}, [root]) && SumShallow(h, {}) == 0
  {
    ReachRoot(h, root);
  }

  lemma InHeap(h: Heap, root: Ref, seen: set<Ref>, stack: seq<Ref>, item: Ref)
    requires Walked(h, root, seen, stack + [item])
    ensures item in h
  {
    assert item in stack + [item];
  }

  /** The estimate does not depend on the order containers are iterated in. */
  lemma {:induction false} OrderIrrelevant(h: Heap, g: Heap, root: Ref)
    requires h.Keys == g.Keys && forall r :: r in h ==> h[r].shallow == g[r].shallow
    requires forall r, c :: r in h ==> (RefersTo(h[r], c) <==> RefersTo(g[r], c))
    ensures SumShallow(h, Reach(h, root)) == SumShallow(g, Reach(g, root))
  {
    forall r | r in h.Keys ensures Reachable(h, root, r) <==> Reachable(g, root, r) {
      if Reachable(h, root, r) {
        var p :| PathTo(h, p, root, r);
        assert PathTo(g, p, root, r);
      }
      if Reachable(g, root, r) {
        var p :| PathTo(g, p, root, r);
        assert PathTo(h, p, root, r);
      }
    }
    assert Reach(h, root) == Reach(g, root);
    SameSums(h, g, Reach(h, root));
  }

  lemma {:induction false} SameSums(h: Heap, g: Heap, s: set<Ref>)
    requires forall r :: r in s ==> SizeAt(h, r) == SizeAt(g, r)
    ensures SumShallow(h, s) == SumShallow(g, s)
    decreases |s|
  {
    if s != {} { SameSums(h, g, s - {Pick(s)}); }
  }
}
