/** The traversal that hands a hostile stage everything it can reach
    (packages/agentseal/src/agentseal/hostile.py).

    An object is named by its `id()`. The heap is finite but may be cyclic. */
module Targets {
  import opened Sorting

  type Id = nat

  /** How `_targets` sees an object: whether it is a mutable container, and which branch of the
      `isinstance` chain it takes. A type may be both a Mapping and have attributes; the first
      test that holds decides. */
  datatype Node = Node(
    mutable: bool,          // MutableSequence, MutableSet or MutableMapping
    mapping: bool,          // Mapping
    collection: bool,       // list, tuple, set or frozenset
    attributes: bool,       // has a __dict__
    values: seq<Id>,        // .values() of a Mapping
    items: seq<Id>,         // iteration over a collection
    fields: seq<Id>,        // vars(item).values()
    valuesLeft: seq<Id>,    // .values() after a call of .clear(): empty, unless it raised
    itemsLeft: seq<Id>)     // iteration after a call of .clear()

  type Heap = map<Id, Node>

  function Children(node: Node): seq<Id> {
    if node.mapping then node.values
    else if node.collection then node.items
    else if node.attributes then node.fields
    else []
  }

  /** What the traversal follows from an object: the values of a mapping, the elements of a list,
      tuple or set that is none, the attributes of anything else that has some. */
  ghost predicate Follows(node: Node, c: Id) {
    || (node.mapping && c in node.values)
    || (!node.mapping && node.collection && c in node.items)
    || (!node.mapping && !node.collection && node.attributes && c in node.fields)
  }

  lemma ChildrenAreFollowed(node: Node, c: Id)
    ensures c in Children(node) <==> Follows(node, c)
  {
  }

  /** Every reference leads to an object. */
  ghost predicate Closed(heap: Heap, roots: seq<Id>) {
    && (forall r :: r in roots ==> r in heap)
    && (forall o, c :: o in heap && c in Children(heap[o]) ==> c in heap)
  }

  /** A call of `clear`, whether it raises or not, leaves nothing that was not there. */
  ghost predicate ClearShrinks(heap: Heap) {
    forall o, c :: o in heap && c in Children(Cleared(heap[o])) ==> c in Children(heap[o])
  }

  /** `path` starts at an argument and follows references the traversal follows. */
  ghost predicate Path(heap: Heap, roots: seq<Id>, path: seq<Id>) {
    && path != []
    && path[0] in roots
    && (forall i :: 0 <= i < |path| ==> path[i] in heap)
    && (forall i :: 0 <= i < |path| - 1 ==> Follows(heap[path[i]], path[i + 1]))
  }

  ghost predicate Reachable(heap: Heap, roots: seq<Id>, o: Id) {
    exists path :: Path(heap, roots, path) && path[|path| - 1] == o
  }

  // ----- Reachability -----

  lemma RootReachable(heap: Heap, roots: seq<Id>, o: Id)
    requires o in roots && o in heap
    ensures Reachable(heap, roots, o)
  {
    assert Path(heap, roots, [o]);
  }

  lemma ChildReachable(heap: Heap, roots: seq<Id>, o: Id, c: Id)
    requires Reachable(heap, roots, o) && o in heap && c in Children(heap[o]) && c in heap
    ensures Reachable(heap, roots, c)
  {
    var path :| Path(heap, roots, path) && path[|path| - 1] == o;
    assert Path(heap, roots, path + [c]);
  }

  /** A set that holds the arguments and is closed under references holds everything reachable. */
  lemma {:induction false} ClosedSetHoldsReachable(heap: Heap, roots: seq<Id>, s: set<Id>, path: seq<Id>)
    requires forall r :: r in roots ==> r in s
    requires forall o, c :: o in s && o in heap && c in Children(heap[o]) ==> c in s
    requires Path(heap, roots, path)
    ensures path[|path| - 1] in s
  {
    if |path| == 1 {
    } else {
      var prefix := path[..|path| - 1];
      assert Path(heap, roots, prefix);
      ClosedSetHoldsReachable(heap, roots, s, prefix);
      assert path[|path| - 1] in Children(heap[path[|path| - 2]]);
    }
  }

  // ----- The drained traversal -----

  /** Whatever the arguments or a seen object refer to is seen or still on the stack. */
  ghost predicate Explored(heap: Heap, roots: seq<Id>, seen: set<Id>, stack: seq<Id>) {
    && (forall o :: o in seen || o in stack ==> o in heap && Reachable(heap, roots, o))
    && (forall r :: r in roots ==> r in seen || r in stack)
    && (forall o, c :: o in seen && c in Children(heap[o]) ==> c in seen || c in stack)
  }

  /** `yielded` lists the mutable objects among those seen. */
  ghost predicate Yielded(heap: Heap, seen: set<Id>, yielded: seq<Id>) {
    && seen <= heap.Keys
    && Distinct(yielded)
    && (forall o :: o in yielded <==> o in seen && heap[o].mutable)
  }

  lemma ExploredAtStart(heap: Heap, roots: seq<Id>)
    requires Closed(heap, roots)
    ensures Explored(heap, roots, {}, roots)
  {
    forall o | o in roots
      ensures Reachable(heap, roots, o)
    {
      RootReachable(heap, roots, o);
    }
  }

  lemma ExploredAfterPop(heap: Heap, roots: seq<Id>, seen: set<Id>, stack: seq<Id>)
    requires stack != [] && Explored(heap, roots, seen, stack)
    requires stack[|stack| - 1] in seen
    ensures Explored(heap, roots, seen, stack[..|stack| - 1])
  {
  }

  lemma ExploredAfterVisit(heap: Heap, roots: seq<Id>, seen: set<Id>, rest: seq<Id>, o: Id)
    requires Closed(heap, roots) && Explored(heap, roots, seen, rest + [o])
    ensures o in heap && Explored(heap, roots, seen + {o}, rest + Children(heap[o]))
  {
    assert o in rest + [o];
    forall c | c in Children(heap[o])
      ensures c in heap && Reachable(heap, roots, c)
    {
      ChildReachable(heap, roots, o, c);
    }
    forall c | c in rest
      ensures c in heap && Reachable(heap, roots, c)
    {
      assert c in rest + [o];
    }
    forall p, c | p in seen && c in Children(heap[p])
      ensures c in seen + {o} || c in rest + Children(heap[o])
    {
      assert c in seen || c in rest + [o];
    }
    forall r | r in roots
      ensures r in seen + {o} || r in rest + Children(heap[o])
    {
      assert r in seen || r in rest + [o];
    }
  }

  lemma YieldedAfterVisit(heap: Heap, seen: set<Id>, yielded: seq<Id>, o: Id)
    requires Yielded(heap, seen, yielded) && o in heap && o !in seen
    ensures Yielded(heap, seen + {o}, if heap[o].mutable then yielded + [o] else yielded)
  {
  }

  lemma ExploredAtEnd(heap: Heap, roots: seq<Id>, seen: set<Id>, yielded: seq<Id>)
    requires Explored(heap, roots, seen, []) && Yielded(heap, seen, yielded)
    ensures forall o :: o in yielded <==> o in heap && heap[o].mutable && Reachable(heap, roots, o)
  {
    forall o | Reachable(heap, roots, o) ensures o in seen {
      ReachableIsSeen(heap, roots, seen, o);
    }
    hide Reachable;
  }

  lemma ReachableIsSeen(heap: Heap, roots: seq<Id>, seen: set<Id>, o: Id)
    requires Explored(heap, roots, seen, []) && Reachable(heap, roots, o)
    ensures o in seen
  {
    var path :| Path(heap, roots, path) && path[|path| - 1] == o;
    ClosedSetHoldsReachable(heap, roots, seen, path);
  }

  /** `list(_targets(args, kwargs))`: on every finite heap, cyclic or not, each mutable container
      reachable from the arguments is yielded exactly once, and nothing else is. */
  method DrainedTargets(heap: Heap, args: seq<Id>, kwargs: seq<Id>) returns (yielded: seq<Id>)
    requires Closed(heap, args + kwargs)
    ensures Distinct(yielded)
    ensures forall o :: o in yielded <==> o in heap && heap[o].mutable && Reachable(heap, args + kwargs, o)
  {
    hide Explored, Reachable, Closed;
    var seen: set<Id> := {};
    var stack := args + kwargs;
    yielded := [];
    ExploredAtStart(heap, args + kwargs);
    while stack != []
      invariant Explored(heap, args + kwargs, seen, stack)
      invariant Yielded(heap, seen, yielded)
      decreases heap.Keys - seen, |stack|
    {
      var item := stack[|stack| - 1];
      if item in seen {
        ExploredAfterPop(heap, args + kwargs, seen, stack);
        stack := stack[..|stack| - 1];
        continue;
      }
      assert stack == stack[..|stack| - 1] + [item];
      ExploredAfterVisit(heap, args + kwargs, seen, stack[..|stack| - 1], item);
      YieldedAfterVisit(heap, seen, yielded, item);
      stack := stack[..|stack| - 1];
      seen := seen + {item};
      if heap[item].mutable {
        yielded := yielded + [item];
      }
      stack := stack + Children(heap[item]);
    }
    ExploredAtEnd(heap, args + kwargs, seen, yielded);
  }

  // ----- The traversal that clears as it goes -----

  /** `target.clear()`, exceptions ignored: the container's own contents are what the call left,
      its attributes stay. */
  function Cleared(node: Node): Node {
    node.(values := node.valuesLeft, items := node.itemsLeft)
  }

  /** What the traversal follows from an object whose `clear` has been called: what that left of
      its values or elements, and its attributes as before. */
  ghost predicate FollowsCleared(node: Node, c: Id) {
    || (node.mapping && c in node.valuesLeft)
    || (!node.mapping && node.collection && c in node.itemsLeft)
    || (!node.mapping && !node.collection && node.attributes && c in node.fields)
  }

  lemma ClearedMeaning(node: Node, c: Id)
    ensures c in Children(Cleared(node)) <==> FollowsCleared(node, c)
    ensures Cleared(node).mutable == node.mutable && Cleared(node).fields == node.fields
  {
  }

  /** The heap in which every mutable container has already been cleared. */
  ghost function AllCleared(heap: Heap): Heap {
    map o | o in heap :: if heap[o].mutable then Cleared(heap[o]) else heap[o]
  }

  /** `heap` after exactly the containers in `erased` have been cleared. */
  ghost predicate ClearedIn(start: Heap, heap: Heap, erased: seq<Id>) {
    && heap.Keys == start.Keys
    && forall o :: o in start ==> heap[o] == if o in erased then Cleared(start[o]) else start[o]
  }

  lemma ClearOne(start: Heap, heap: Heap, erased: seq<Id>, o: Id)
    requires ClearedIn(start, heap, erased) && o in start && o !in erased
    ensures ClearedIn(start, heap[o := Cleared(heap[o])], erased + [o])
    ensures Children(Cleared(heap[o])) == Children(Cleared(start[o]))
  {
  }

  function ClearedAt(heap: Heap, o: Id): Heap
    requires o in heap
  {
    if heap[o].mutable then heap[o := Cleared(heap[o])] else heap
  }

  lemma EraseVisit(start: Heap, heap: Heap, roots: seq<Id>, seen: set<Id>, rest: seq<Id>, erased: seq<Id>, o: Id)
    requires Closed(start, roots) && ClearShrinks(start) && ClearedIn(start, heap, erased)
    requires Explored(AllCleared(start), roots, seen, rest + [o]) && Yielded(AllCleared(start), seen, erased)
    requires o !in seen
    ensures o in heap && o in start
    ensures var erased' := if heap[o].mutable then erased + [o] else erased;
            && ClearedIn(start, ClearedAt(heap, o), erased')
            && Explored(AllCleared(start), roots, seen + {o}, rest + Children(ClearedAt(heap, o)[o]))
            && Yielded(AllCleared(start), seen + {o}, erased')
  {
    ExploredAfterVisit(AllCleared(start), roots, seen, rest, o);
    YieldedAfterVisit(AllCleared(start), seen, erased, o);
    ClearOne(start, heap, erased, o);
  }

  /** `_erase` resumes the lazy traversal after clearing each yielded container, so it follows
      only what is left in a container it has just tried to clear. It tries exactly the mutable
      containers reachable in the heap where all of them are cleared, and touches nothing else. */
  method Erase(start: Heap, args: seq<Id>, kwargs: seq<Id>) returns (heap: Heap, erased: seq<Id>)
    requires Closed(start, args + kwargs) && ClearShrinks(start)
    ensures Distinct(erased) && ClearedIn(start, heap, erased)
    ensures forall o :: o in erased <==>
              o in start && start[o].mutable && Reachable(AllCleared(start), args + kwargs, o)
  {
    hide Explored, Yielded, ClearedIn, Reachable, Closed, ClearShrinks;
    ghost var view := AllCleared(start);
    var seen: set<Id> := {};
    var stack := args + kwargs;
    heap, erased := start, [];
    EraseStart(start, args + kwargs);
    while stack != []
      invariant ClearedIn(start, heap, erased)
      invariant Explored(view, args + kwargs, seen, stack)
      invariant Yielded(view, seen, erased)
      decreases start.Keys - seen, |stack|
    {
      var item := stack[|stack| - 1];
      if item in seen {
        ExploredAfterPop(view, args + kwargs, seen, stack);
        stack := stack[..|stack| - 1];
        continue;
      }
      assert stack == stack[..|stack| - 1] + [item];
      EraseVisit(start, heap, args + kwargs, seen, stack[..|stack| - 1], erased, item);
      stack := stack[..|stack| - 1];
      seen := seen + {item};
      if heap[item].mutable {
        heap, erased := heap[item := Cleared(heap[item])], erased + [item];
      }
      stack := stack + Children(heap[item]);
    }
    EraseEnd(start, args + kwargs, seen, erased);
  }

  lemma EraseStart(start: Heap, roots: seq<Id>)
    requires Closed(start, roots) && ClearShrinks(start)
    ensures ClearedIn(start, start, []) && Yielded(AllCleared(start), {}, [])
    ensures Explored(AllCleared(start), roots, {}, roots)
  {
    ExploredAtStart(AllCleared(start), roots);
  }

  lemma EraseEnd(start: Heap, roots: seq<Id>, seen: set<Id>, erased: seq<Id>)
    requires Explored(AllCleared(start), roots, seen, []) && Yielded(AllCleared(start), seen, erased)
    ensures Distinct(erased)
    ensures forall o :: o in erased <==>
              o in start && start[o].mutable && Reachable(AllCleared(start), roots, o)
  {
    ExploredAtEnd(AllCleared(start), roots, seen, erased);
  }

  /** A mutable container before the last object is left only through what clearing it leaves. */
  ghost predicate OpenPath(heap: Heap, path: seq<Id>)
    requires forall i :: 0 <= i < |path| ==> path[i] in heap
  {
    forall i :: 0 <= i < |path| - 1 ==>
      heap[path[i]].mutable ==> FollowsCleared(heap[path[i]], path[i + 1])
  }

  lemma PathWhenCleared(heap: Heap, roots: seq<Id>, path: seq<Id>)
    requires ClearShrinks(heap)
    ensures Path(AllCleared(heap), roots, path) <==> Path(heap, roots, path) && OpenPath(heap, path)
  {
    var view := AllCleared(heap);
    if Path(view, roots, path) {
      forall i | 0 <= i < |path| - 1
        ensures Follows(heap[path[i]], path[i + 1])
        ensures heap[path[i]].mutable ==> FollowsCleared(heap[path[i]], path[i + 1])
      {
        assert path[i + 1] in Children(view[path[i]]);
      }
    }
  }

  /** A container is reached by `_erase` exactly when some path leads to it that leaves every
      mutable container on the way through what clearing it leaves. */
  lemma ErasedExactlyWhen(heap: Heap, roots: seq<Id>, o: Id)
    requires ClearShrinks(heap)
    ensures Reachable(AllCleared(heap), roots, o) <==>
            exists path :: Path(heap, roots, path) && path[|path| - 1] == o && OpenPath(heap, path)
  {
    var view := AllCleared(heap);
    if Reachable(view, roots, o) {
      var path :| Path(view, roots, path) && path[|path| - 1] == o;
      PathWhenCleared(heap, roots, path);
    }
    if path :| Path(heap, roots, path) && path[|path| - 1] == o && OpenPath(heap, path) {
      PathWhenCleared(heap, roots, path);
    }
  }

  function ListNode(items: seq<Id>): Node {
    Node(true, false, true, false, [], items, [], [], [])
  }

  /** A list that holds a list. */
  function NestedLists(): Heap {
    map[0 := ListNode([1]), 1 := ListNode([])]
  }

  lemma NestedIsReached()
    ensures Closed(NestedLists(), [0]) && ClearShrinks(NestedLists()) && Reachable(NestedLists(), [0], 1)
  {
    hide Reachable;
    RootReachable(NestedLists(), [0], 0);
    assert Children(NestedLists()[0]) == [1] && Children(NestedLists()[1]) == [];
    ChildReachable(NestedLists(), [0], 0, 1);
  }

  /** "Clear every mutable container it can reach" fails for a list inside a list: `_targets`
      reaches the inner list, `_erase` does not. */
  lemma EraseMissesNestedList()
    ensures Closed(NestedLists(), [0]) && ClearShrinks(NestedLists())
    ensures Reachable(NestedLists(), [0], 1) && NestedLists()[1].mutable
    ensures !Reachable(AllCleared(NestedLists()), [0], 1)
  {
    NestedIsReached();
    var view := AllCleared(NestedLists());
    assert view.Keys == {0, 1} && Children(view[0]) == [];
    hide Closed, AllCleared, NestedLists, Path;
    forall path | Path(view, [0], path) ensures path[|path| - 1] in {0} {
      ClosedSetHoldsReachable(view, [0], {0}, path);
    }
  }
}
