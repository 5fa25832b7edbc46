/**
 Two more changes to the pointer tree of the registry: a key added behind its siblings, and a key
 that loses all its children at once.
 */
module RegistryEdits {
  import opened RegistryPaths
  import opened RegistryShape
  import opened Wire

  // ----- Adding a key at the end of a child list that is not empty

  ghost function TailOrder(order: Order, p: Path, n: Name): Order
    requires p in order
  {
    order[p := order[p] + [n]][Kid(p, n) := []]
  }

  lemma ListsTail(order: Order, p: Path, n: Name)
    requires ListsChildren(order) && p in order && Kid(p, n) !in order
    ensures ListsChildren(TailOrder(order, p, n))
  {
    var q := Kid(p, n);
    var order' := TailOrder(order, p, n);
    assert Up(q) == p && Last(q) == n && Distinct(order[p]) && n !in order[p];
    forall x | x in order' && x != [] ensures Up(x) in order' && Last(x) in order'[Up(x)] {
      if x != q {
        assert Up(x) in order && Last(x) in order[Up(x)];
      }
    }
    forall x, m | x in order' && m in order'[x] ensures Kid(x, m) in order' {
      if x != q && !(x == p && m == n) {
        assert m in order[x];
      }
    }
    forall x | x in order' ensures Distinct(order'[x]) {
      if x == p { DistinctCons(order[p], n); } else if x != q { assert Distinct(order[x]); }
    }
  }

  lemma ShapeTail(nodes: Nodes, order: Order, p: Path, n: Name, k: Ref)
    requires Shape(nodes, order) && p in nodes && Kid(p, n) !in nodes && GoodPath(Kid(p, n))
    requires k != NULL && k !in nodes.Values
    ensures Shape(nodes[Kid(p, n) := k], TailOrder(order, p, n))
  {
    hide GoodPath, ListsChildren;
    ListsTail(order, p, n);
  }

  lemma AtTail(nodes: Nodes, order: Order, p: Path, n: Name, k: Ref, x: Path, i: nat)
    requires Shape(nodes, order) && p in nodes && Kid(p, n) !in nodes && x in nodes
    ensures At(nodes[Kid(p, n) := k], TailOrder(order, p, n), x, i)
         == if x == p && i == |order[p]| then k else At(nodes, order, x, i)
    ensures At(nodes[Kid(p, n) := k], TailOrder(order, p, n), Kid(p, n), i) == NULL
  {
    hide GoodPath;
    ChildListed(nodes, order, p, n);
    assert i < |order[x]| ==> Kid(x, order[x][i]) in nodes;
  }

  // Memory after regkey_add_child_tail: the last child's next pointer leads to the new key k.
  ghost predicate AddedTail(heap: Heap, heap': Heap, nodes: Nodes, order: Order, p: Path, n: Name, k: Ref)
    requires p in nodes && p in order && nodes[p] in heap && order[p] != []
  {
    var last := At(nodes, order, p, |order[p]| - 1);
    && last in heap && k in heap' && heap'.Keys == heap.Keys + {k}
    && heap'[k].name == n && Labels(heap'[k].path, Kid(p, n)) && heap'[k].parent == nodes[p]
    && heap'[k].children == NULL && heap'[k].next == NULL
    && heap'[last] == heap[last].(next := k)
    && forall r | r in heap && r != last :: heap'[r] == heap[r]
  }

  ghost predicate TailReady(heap: Heap, heap': Heap, nodes: Nodes, order: Order, p: Path, n: Name, k: Ref) {
    && Shape(nodes, order) && Linked(heap, nodes, order) && p in nodes && p in order && Kid(p, n) !in nodes
    && k !in heap && nodes[p] in heap && order[p] != [] && AddedTail(heap, heap', nodes, order, p, n, k)
  }

  lemma TailFacts(heap: Heap, heap': Heap, nodes: Nodes, order: Order, p: Path, n: Name, k: Ref)
    requires TailReady(heap, heap', nodes, order, p, n, k)
    ensures nodes.Keys == order.Keys && nodes.Values <= heap.Keys && heap'.Keys == heap.Keys + {k} && Injective(nodes)
    ensures p in nodes && p in order && Kid(p, n) !in nodes
    ensures forall r | r in heap :: heap'[r] == heap[r].(next := heap'[r].next)
    ensures forall r | r in heap && r != At(nodes, order, p, |order[p]| - 1) :: heap'[r] == heap[r]
  {
    hide GoodPath, ListsChildren, Join, Labels;
  }

  lemma KeyTail(heap: Heap, heap': Heap, nodes: Nodes, order: Order, p: Path, n: Name, k: Ref, x: Path)
    requires TailReady(heap, heap', nodes, order, p, n, k) && (x in nodes || x == Kid(p, n))
    ensures nodes[Kid(p, n) := k][x] in heap'
    ensures KeyOk(heap', nodes[Kid(p, n) := k], TailOrder(order, p, n), x)
  {
    hide Shape, GoodPath, Join, Labels, At, TailOrder;
    TailFacts(heap, heap', nodes, order, p, n, k);
    var q := Kid(p, n);
    ChildListed(nodes, order, p, n);
    if x == q {
      AtTail(nodes, order, p, n, k, p, 0);
    } else {
      assert KeyOk(heap, nodes, order, x);
      AtTail(nodes, order, p, n, k, x, 0);
      assert x != [] ==> Up(x) != q;
      if x == [] { RootIsLast(heap, nodes, order, p); }
    }
  }

  // The root is no one's child.
  lemma RootIsLast(heap: Heap, nodes: Nodes, order: Order, p: Path)
    requires Shape(nodes, order) && Linked(heap, nodes, order) && p in nodes && p in order && order[p] != []
    ensures [] in nodes && At(nodes, order, p, |order[p]| - 1) != nodes[[]]
  {
    hide GoodPath;
    ListStep(heap, nodes, order, p, |order[p]| - 1);
  }

  lemma NextTail(heap: Heap, heap': Heap, nodes: Nodes, order: Order, p: Path, n: Name, k: Ref, x: Path, i: nat)
    requires TailReady(heap, heap', nodes, order, p, n, k)
    requires x in TailOrder(order, p, n) && i < |TailOrder(order, p, n)[x]|
    ensures NextOk(heap', nodes[Kid(p, n) := k], TailOrder(order, p, n), x, i)
  {
    hide GoodPath, Join, Labels, At, Shape, Linked;
    TailFacts(heap, heap', nodes, order, p, n, k);
    var q := Kid(p, n);
    assert x in nodes;
    AtTail(nodes, order, p, n, k, x, i + 1);
    if x == p && i == |order[p]| {
      ListStep(heap, nodes, order, p, i + 1);
    } else {
      ListStep(heap, nodes, order, x, i);
      ListStep(heap, nodes, order, x, i + 1);
      AtDistinct(nodes, order, x, i, p, |order[p]| - 1);
    }
  }

  lemma LinkedTail(heap: Heap, heap': Heap, nodes: Nodes, order: Order, p: Path, n: Name, k: Ref)
    requires TailReady(heap, heap', nodes, order, p, n, k)
    ensures Linked(heap', nodes[Kid(p, n) := k], TailOrder(order, p, n))
  {
    hide TailReady, KeyOk, NextOk;
    TailFacts(heap, heap', nodes, order, p, n, k);
    var q := Kid(p, n);
    var nodes', order' := nodes[q := k], TailOrder(order, p, n);
    forall x | x in nodes' ensures nodes'[x] in heap' && KeyOk(heap', nodes', order', x) {
      KeyTail(heap, heap', nodes, order, p, n, k, x);
    }
    forall x, i: nat | x in order' && i < |order'[x]| ensures NextOk(heap', nodes', order', x, i) {
      NextTail(heap, heap', nodes, order, p, n, k, x, i);
    }
    ValuesWith(nodes, q, k);
  }

  ghost function TailHeap(heap: Heap, nodes: Nodes, order: Order, p: Path, n: Name, text: string, k: Ref, rights: nat): Heap
    requires p in nodes && p in order && order[p] != [] && At(nodes, order, p, |order[p]| - 1) in heap
  {
    var last := At(nodes, order, p, |order[p]| - 1);
    heap[k := Key(n, text, Nil, rights, nodes[p], NULL, NULL)][last := heap[last].(next := k)]
  }

  // Adding a key behind its siblings keeps the registry and adds one entry to the map.
  lemma TailKeepsRegistry(heap: Heap, nextRef: Ref, root: Ref, nodes: Nodes, order: Order, p: Path, n: Name, text: string, rights: nat)
    requires IsRegistry(heap, nextRef, root, nodes, order)
    requires p in nodes && p in order && order[p] != [] && Kid(p, n) !in nodes && GoodPath(Kid(p, n)) && Labels(text, Kid(p, n))
    ensures At(nodes, order, p, |order[p]| - 1) in heap && nodes.Values <= heap.Keys
    ensures
      var heap' := TailHeap(heap, nodes, order, p, n, text, nextRef, rights);
      var nodes', order' := nodes[Kid(p, n) := nextRef], TailOrder(order, p, n);
      && IsRegistry(heap', nextRef + 1, root, nodes', order') && |nodes'| == |nodes| + 1
      && nodes'.Values <= heap'.Keys
      && ViewOf(heap', nodes') == ViewOf(heap, nodes)[Kid(p, n) := Entry(Nil, rights)]
      && Leaked(heap', nodes') == Leaked(heap, nodes) && |heap'| == |heap| + 1
  {
    hide Shape, Linked, GoodPath, Join, Labels, TailOrder, At, Kid, Leaked, ViewOf, TailHeap, TailReady;
    RegistryFacts(heap, nextRef, root, nodes, order);
    TailWritten(heap, nextRef, root, nodes, order, p, n, text, rights);
    var heap' := TailHeap(heap, nodes, order, p, n, text, nextRef, rights);
    LinkedTail(heap, heap', nodes, order, p, n, nextRef);
    ShapeTail(nodes, order, p, n, nextRef);
    TailView(heap, heap', nodes, order, p, n, nextRef, rights);
    NothingLeaked(heap, heap', nodes, Kid(p, n), nextRef);
  }

  // The two writes of regkey_add_child_tail.
  lemma TailWritten(heap: Heap, nextRef: Ref, root: Ref, nodes: Nodes, order: Order, p: Path, n: Name, text: string, rights: nat)
    requires IsRegistry(heap, nextRef, root, nodes, order)
    requires p in nodes && p in order && order[p] != [] && Kid(p, n) !in nodes && Labels(text, Kid(p, n))
    ensures At(nodes, order, p, |order[p]| - 1) in heap
    ensures
      var heap' := TailHeap(heap, nodes, order, p, n, text, nextRef, rights);
      && TailReady(heap, heap', nodes, order, p, n, nextRef) && heap'.Keys == heap.Keys + {nextRef}
      && heap'[nextRef].val == Nil && heap'[nextRef].rights == rights
  {
    hide Shape, Linked, GoodPath, Join, Labels, At, Kid;
    RegistryFacts(heap, nextRef, root, nodes, order);
    ListStep(heap, nodes, order, p, |order[p]| - 1);
    var heap' := TailHeap(heap, nodes, order, p, n, text, nextRef, rights);
    assert AddedTail(heap, heap', nodes, order, p, n, nextRef);
  }

  lemma TailView(heap: Heap, heap': Heap, nodes: Nodes, order: Order, p: Path, n: Name, k: Ref, rights: nat)
    requires TailReady(heap, heap', nodes, order, p, n, k) && k in heap' && heap'[k].val == Nil && heap'[k].rights == rights
    ensures nodes.Values <= heap.Keys && nodes[Kid(p, n) := k].Values <= heap'.Keys
    ensures |nodes[Kid(p, n) := k]| == |nodes| + 1
    ensures ViewOf(heap', nodes[Kid(p, n) := k]) == ViewOf(heap, nodes)[Kid(p, n) := Entry(Nil, rights)]
  {
    hide TailReady, ViewOf, Kid;
    TailFacts(heap, heap', nodes, order, p, n, k);
    ValuesWith(nodes, Kid(p, n), k);
    ViewExtends(heap, heap', nodes, Kid(p, n), k);
  }

  lemma ViewExtends(heap: Heap, heap': Heap, nodes: Nodes, q: Path, k: Ref)
    requires q !in nodes && nodes.Values <= heap.Keys <= heap'.Keys && k in heap' && nodes[q := k].Values <= heap'.Keys
    requires forall r | r in heap :: heap'[r] == heap[r].(next := heap'[r].next)
    ensures |nodes[q := k]| == |nodes| + 1
    ensures ViewOf(heap', nodes[q := k]) == ViewOf(heap, nodes)[q := Entry(heap'[k].val, heap'[k].rights)]
  {
    hide ViewOf;
    var nodes' := nodes[q := k];
    var v, v' := ViewOf(heap, nodes), ViewOf(heap', nodes');
    assert nodes'.Keys == nodes.Keys + {q};
    ViewAt(heap', nodes', q);
    forall x | x in nodes ensures v'[x] == v[x] {
      var r := nodes[x];
      ViewAt(heap, nodes, x);
      ViewAt(heap', nodes', x);
      assert r in heap && heap'[r] == heap[r].(next := heap'[r].next);
    }
  }

  lemma ViewAt(heap: Heap, nodes: Nodes, x: Path)
    requires nodes.Values <= heap.Keys && x in nodes
    ensures nodes[x] in heap && ViewOf(heap, nodes)[x] == Entry(heap[nodes[x]].val, heap[nodes[x]].rights)
  {
  }

  // ----- Dropping all children of a key

  ghost predicate StrictlyUnder(d: Path, q: Path) { Under(d, q) && q != d }

  ghost function Below(nodes: Nodes, d: Path): (tree: set<Path>)
    ensures tree <= nodes.Keys
  {
    set q <- nodes | StrictlyUnder(d, q)
  }

  ghost function ClearOrder(order: Order, d: Path): Order {
    (order - (set q <- order | StrictlyUnder(d, q)))[d := []]
  }

  // Memory after some keys below d have been freed and its child pointer has been cleared.
  ghost function ClearHeap(heap: Heap, nodes: Nodes, d: Path, gone: set<Path>): Heap
    requires d in nodes && nodes[d] in heap && gone <= nodes.Keys
  {
    (heap - RefsOf(nodes, gone))[nodes[d] := heap[nodes[d]].(children := NULL)]
  }

  lemma StrictlyUnderUp(d: Path, x: Path)
    requires x != [] && !StrictlyUnder(d, x)
    ensures !StrictlyUnder(d, Up(x)) && Up(x) != d
  {
    if Under(d, Up(x)) { assert Under(d, x) && |x| > |d|; }
  }

  lemma StrictlyUnderKid(d: Path, x: Path, n: Name)
    ensures StrictlyUnder(d, Kid(x, n)) <==> Under(d, x)
  {
    UnderKid(d, x, n);
    if d == Kid(x, n) { assert |d| == |x| + 1; }
  }

  lemma ListsClear(order: Order, d: Path)
    requires ListsChildren(order) && d in order
    ensures ListsChildren(ClearOrder(order, d))
  {
    hide Under, StrictlyUnder;
    var order' := ClearOrder(order, d);
    RootNotBelow(d);
    forall x | x in order' && x != [] ensures Up(x) in order' && Last(x) in order'[Up(x)] {
      KeptNotBelow(d, x);
      StrictlyUnderUp(d, x);
      assert Up(x) in order && Last(x) in order[Up(x)];
    }
    forall x, n | x in order' && n in order'[x] ensures Kid(x, n) in order' {
      assert x != d && x in order && n in order[x];
      assert Kid(x, n) in order;
      StrictlyUnderKid(d, x, n);
      NotUnder(d, x);
    }
    assert Distinct([]);
  }

  lemma RootNotBelow(d: Path)
    ensures !StrictlyUnder(d, []) && !StrictlyUnder(d, d)
  {
  }

  lemma KeptNotBelow(d: Path, x: Path)
    requires x == d || !StrictlyUnder(d, x)
    ensures !StrictlyUnder(d, x)
  {
  }

  lemma NotUnder(d: Path, x: Path)
    requires !StrictlyUnder(d, x) && x != d
    ensures !Under(d, x)
  {
  }

  lemma ShapeClear(nodes: Nodes, order: Order, d: Path)
    requires Shape(nodes, order) && d in nodes
    ensures Shape(nodes - Below(nodes, d), ClearOrder(order, d))
    ensures d in nodes - Below(nodes, d) && [] in nodes - Below(nodes, d)
  {
    hide GoodPath, ListsChildren, StrictlyUnder;
    ShapeFacts(nodes, order);
    ListsClear(order, d);
    RootNotBelow(d);
  }

  lemma AtClear(nodes: Nodes, order: Order, d: Path, x: Path, i: nat)
    requires Shape(nodes, order) && d in nodes && x in nodes - Below(nodes, d)
    ensures At(nodes - Below(nodes, d), ClearOrder(order, d), x, i) == if x == d then NULL else At(nodes, order, x, i)
  {
    hide GoodPath, StrictlyUnder, Under;
    ShapeClear(nodes, order, d);
    if x != d && i < |order[x]| {
      StrictlyUnderKid(d, x, order[x][i]);
      NotUnder(d, x);
    }
  }

  ghost predicate ClearReady(heap: Heap, nodes: Nodes, order: Order, d: Path, gone: set<Path>) {
    Shape(nodes, order) && Linked(heap, nodes, order) && d in nodes && nodes[d] in heap && gone <= Below(nodes, d)
  }

  lemma ClearFields(heap: Heap, nodes: Nodes, order: Order, d: Path, gone: set<Path>, x: Path)
    requires ClearReady(heap, nodes, order, d, gone) && x in nodes - Below(nodes, d)
    ensures nodes[x] in ClearHeap(heap, nodes, d, gone) && nodes[x] in heap
    ensures ClearHeap(heap, nodes, d, gone)[nodes[x]] == if x == d then heap[nodes[x]].(children := NULL) else heap[nodes[x]]
  {
    hide GoodPath, ListsChildren, StrictlyUnder;
    assert nodes[x] !in RefsOf(nodes, gone);
  }

  lemma KeyClear(heap: Heap, nodes: Nodes, order: Order, d: Path, gone: set<Path>, x: Path)
    requires ClearReady(heap, nodes, order, d, gone) && x in nodes - Below(nodes, d)
    ensures nodes[x] in ClearHeap(heap, nodes, d, gone)
    ensures KeyOk(ClearHeap(heap, nodes, d, gone), nodes - Below(nodes, d), ClearOrder(order, d), x)
  {
    hide GoodPath, Join, Labels, Shape, At, ClearOrder, ClearHeap, StrictlyUnder, Under;
    ClearFields(heap, nodes, order, d, gone, x);
    assert KeyOk(heap, nodes, order, x);
    AtClear(nodes, order, d, x, 0);
    if x != [] { StrictlyUnderUp(d, x); }
  }

  lemma NextClear(heap: Heap, nodes: Nodes, order: Order, d: Path, gone: set<Path>, x: Path, i: nat)
    requires ClearReady(heap, nodes, order, d, gone) && x in ClearOrder(order, d) && i < |ClearOrder(order, d)[x]|
    ensures NextOk(ClearHeap(heap, nodes, d, gone), nodes - Below(nodes, d), ClearOrder(order, d), x, i)
  {
    hide GoodPath, Join, Labels, At, ClearHeap, StrictlyUnder, Under;
    ShapeClear(nodes, order, d);
    var q := Kid(x, order[x][i]);
    assert NextOk(heap, nodes, order, x, i);
    StrictlyUnderKid(d, x, order[x][i]);
    NotUnder(d, x);
    ClearFields(heap, nodes, order, d, gone, q);
    AtClear(nodes, order, d, x, i + 1);
  }

  lemma LinkedClear(heap: Heap, nodes: Nodes, order: Order, d: Path, gone: set<Path>)
    requires ClearReady(heap, nodes, order, d, gone)
    ensures Linked(ClearHeap(heap, nodes, d, gone), nodes - Below(nodes, d), ClearOrder(order, d))
  {
    hide KeyOk, NextOk, ClearHeap, GoodPath, ListsChildren, StrictlyUnder;
    var heap', nodes', order' := ClearHeap(heap, nodes, d, gone), nodes - Below(nodes, d), ClearOrder(order, d);
    ShapeClear(nodes, order, d);
    forall x | x in nodes' ensures nodes'[x] in heap' && KeyOk(heap', nodes', order', x) {
      KeyClear(heap, nodes, order, d, gone, x);
    }
    forall x, i: nat | x in order' && i < |order'[x]| ensures NextOk(heap', nodes', order', x, i) {
      NextClear(heap, nodes, order, d, gone, x, i);
    }
  }

  // Dropping the children keeps the registry and removes exactly what was below the key.
  lemma ClearKeepsRegistry(heap: Heap, nextRef: Ref, root: Ref, nodes: Nodes, order: Order, d: Path, gone: set<Path>)
    requires IsRegistry(heap, nextRef, root, nodes, order) && d in nodes && nodes[d] in heap && gone <= Below(nodes, d)
    ensures
      var heap', nodes' := ClearHeap(heap, nodes, d, gone), nodes - Below(nodes, d);
      && IsRegistry(heap', nextRef, root, nodes', ClearOrder(order, d))
      && nodes.Values <= heap.Keys && nodes'.Values <= heap'.Keys && d in nodes' && nodes'[d] == nodes[d]
      && ViewOf(heap', nodes') == ViewOf(heap, nodes) - Below(nodes, d)
      && Leaked(heap', nodes') == Leaked(heap, nodes) + RefsOf(nodes, Below(nodes, d) - gone)
      && |heap'| == |heap| - |gone|
  {
    hide Shape, Linked, ClearOrder, ViewOf, ClearHeap, Below, Leaked;
    var heap', nodes' := ClearHeap(heap, nodes, d, gone), nodes - Below(nodes, d);
    RegistryFacts(heap, nextRef, root, nodes, order);
    LinkedClear(heap, nodes, order, d, gone);
    ShapeClear(nodes, order, d);
    LinkedFacts(heap', nodes', ClearOrder(order, d));
    ClearMemory(heap, nodes, d, gone);
    ClearView(heap, nodes, order, d, gone);
  }

  lemma ClearMemory(heap: Heap, nodes: Nodes, d: Path, gone: set<Path>)
    requires Injective(nodes) && nodes.Values <= heap.Keys && d in nodes && nodes[d] in heap && gone <= Below(nodes, d)
    ensures
      var heap', nodes' := ClearHeap(heap, nodes, d, gone), nodes - Below(nodes, d);
      && Leaked(heap', nodes') == Leaked(heap, nodes) + RefsOf(nodes, Below(nodes, d) - gone)
      && |heap'| == |heap| - |gone| && forall r <- heap' :: r in heap
  {
    hide Below, Injective;
    LeakedBy(heap, heap, nodes, Below(nodes, d), gone);
    assert nodes[d] !in RefsOf(nodes, gone) by { TargetNotGone(nodes, d, gone); }
    assert ClearHeap(heap, nodes, d, gone).Keys == (heap - RefsOf(nodes, gone)).Keys;
  }

  lemma TargetNotGone(nodes: Nodes, d: Path, gone: set<Path>)
    requires Injective(nodes) && d in nodes && gone <= Below(nodes, d)
    ensures nodes[d] !in RefsOf(nodes, gone)
  {
    RootNotBelow(d);
  }

  lemma ClearView(heap: Heap, nodes: Nodes, order: Order, d: Path, gone: set<Path>)
    requires ClearReady(heap, nodes, order, d, gone) && nodes.Values <= heap.Keys
    requires (nodes - Below(nodes, d)).Values <= ClearHeap(heap, nodes, d, gone).Keys
    ensures ViewOf(ClearHeap(heap, nodes, d, gone), nodes - Below(nodes, d)) == ViewOf(heap, nodes) - Below(nodes, d)
  {
    hide Shape, Linked, ViewOf, ClearHeap, Below;
    var heap', nodes' := ClearHeap(heap, nodes, d, gone), nodes - Below(nodes, d);
    assert nodes'.Keys == nodes.Keys - Below(nodes, d);
    forall x | x in nodes' ensures ViewOf(heap', nodes')[x] == ViewOf(heap, nodes)[x] {
      ViewAt(heap, nodes, x);
      ViewAt(heap', nodes', x);
      ClearFields(heap, nodes, order, d, gone, x);
    }
  }

  // ----- Freeing the children one after the other

  // What is gone after the first i children of d have been freed.
  ghost function Gone(nodes: Nodes, order: Order, d: Path, i: nat): (gone: set<Path>)
    requires d in order && i <= |order[d]|
    ensures gone <= nodes.Keys
  {
    set q <- nodes | exists j :: 0 <= j < i && q in Reached(nodes, order, Kid(d, order[d][j]))
  }

  lemma SameKid(d: Path, m: Name, n: Name, q: Path)
    requires Under(Kid(d, m), q) && Under(Kid(d, n), q)
    ensures m == n
  {
    assert Kid(d, m)[|d|] == m == q[|d|] && Kid(d, n)[|d|] == n;
  }

  lemma GoneStep(nodes: Nodes, order: Order, d: Path, i: nat)
    requires Shape(nodes, order) && d in nodes && d in order && i < |order[d]|
    ensures
      var kid := Kid(d, order[d][i]);
      && Gone(nodes, order, d, i + 1) == Gone(nodes, order, d, i) + Reached(nodes, order, kid)
      && Gone(nodes, order, d, i) !! Subtree(nodes, kid)
      && |Gone(nodes, order, d, i + 1)| == |Gone(nodes, order, d, i)| + |Reached(nodes, order, kid)|
      && RefsOf(nodes, Gone(nodes, order, d, i + 1)) == RefsOf(nodes, Gone(nodes, order, d, i)) + RefsOf(nodes, Reached(nodes, order, kid))
  {
    hide GoodPath, Under, Reached;
    var kid := Kid(d, order[d][i]);
    var tree, gone, more := Reached(nodes, order, kid), Gone(nodes, order, d, i), Gone(nodes, order, d, i + 1);
    assert Distinct(order[d]);
    forall q | q in Subtree(nodes, kid) ensures q !in gone {
      if q in gone {
        var j :| 0 <= j < i && q in Reached(nodes, order, Kid(d, order[d][j]));
        SameKid(d, order[d][j], order[d][i], q);
      }
    }
    assert more == gone + tree;
    assert gone !! tree;
  }

  // In the end everything that the frees get to is gone.
  lemma GoneEnd(nodes: Nodes, order: Order, d: Path)
    requires Shape(nodes, order) && d in nodes && d in order
    ensures Gone(nodes, order, d, 0) == {} && Gone(nodes, order, d, |order[d]|) <= Below(nodes, d)
    ensures (forall i | 0 <= i < |order[d]| :: StackSuffices(nodes, order, Kid(d, order[d][i])))
              ==> Gone(nodes, order, d, |order[d]|) == Below(nodes, d)
  {
    hide GoodPath, Under, Shape, Reached, StackSuffices;
    var gone := Gone(nodes, order, d, |order[d]|);
    forall q | q in gone ensures StrictlyUnder(d, q) {
      var j :| 0 <= j < |order[d]| && q in Reached(nodes, order, Kid(d, order[d][j]));
      KidUnder(d, order[d][j], q);
    }
    if forall i | 0 <= i < |order[d]| :: StackSuffices(nodes, order, Kid(d, order[d][i])) {
      forall q | q in Below(nodes, d) ensures q in gone {
        var j := ThroughKid(nodes, order, d, q);
        ReachedAllIff(nodes, order, Kid(d, order[d][j]));
        assert q in Subtree(nodes, Kid(d, order[d][j]));
      }
    }
  }

  // The next child's subtree can still be read after the earlier ones are gone.
  lemma GoneReadable(heap: Heap, nodes: Nodes, order: Order, d: Path, i: nat)
    requires Shape(nodes, order) && Linked(heap, nodes, order) && d in nodes && d in order && i < |order[d]|
    ensures nodes.Keys == order.Keys && Kid(d, order[d][i]) in nodes
    ensures Readable(heap - RefsOf(nodes, Gone(nodes, order, d, i)), nodes, order, Subtree(nodes, Kid(d, order[d][i])))
  {
    hide GoodPath, Under, Gone, Join, Labels, ListsChildren, Reached;
    var kid := Kid(d, order[d][i]);
    ChildListed(nodes, order, d, order[d][i]);
    GoneStep(nodes, order, d, i);
    var tree, gone := Subtree(nodes, kid), Gone(nodes, order, d, i);
    var heap' := heap - RefsOf(nodes, gone);
    forall q | q in tree ensures nodes[q] in heap' && heap'[nodes[q]] == heap[nodes[q]] && KeyOk(heap, nodes, order, q) {
      assert nodes[q] !in RefsOf(nodes, gone);
    }
    forall q, j: nat | q in tree && j < |order[q]| ensures NextOk(heap', nodes, order, q, j) {
      assert NextOk(heap, nodes, order, q, j);
      UnderKid(kid, q, order[q][j]);
      assert Kid(q, order[q][j]) in tree;
    }
  }
}
