/**
 Bind, unmount and clearing (registry/registry.c): the operations that free whole branches.

 The map is always the right one.  What the stack of a free has no place for stays allocated
 (`ClearLeaks`, `UnmountLeaks`), and an unmount with a source counts every child it removes down
 twice.
 */
module RegistryBind {
  import opened RegistryPaths
  import opened RegistryShape
  import opened RegistryEdits
  import opened RegistryMaps
  import opened RegistryTree
  import opened RegistryMount

  // ----- Clearing a key

  // Between two children of d being freed.
  ghost predicate Clearing(r: Registry, heap0: Heap, total0: nat, d: Path, i: nat)
    reads r
  {
    && IsRegistry(heap0, r.nextRef, r.root, r.nodes, r.order) && d in r.nodes && d in r.order && i <= |r.order[d]|
    && r.heap == heap0 - RefsOf(r.nodes, Gone(r.nodes, r.order, d, i))
    && r.totalKeys == Less(total0, |Gone(r.nodes, r.order, d, i)|)
  }

  lemma ClearingStart(r: Registry, d: Path)
    requires r.Tree() && d in r.nodes
    ensures d in r.order && Clearing(r, r.heap, r.totalKeys, d, 0)
  {
    hide GoodPath, ListsChildren, Reached;
    GoneEnd(r.nodes, r.order, d);
    assert r.heap == r.heap - RefsOf(r.nodes, {});
  }

  // Before the i-th child is freed: it is in memory, leads to the next one and can be read.
  lemma ClearingRound(r: Registry, heap0: Heap, total0: nat, d: Path, i: nat)
    requires Clearing(r, heap0, total0, d, i)
    ensures At(r.nodes, r.order, d, i) == NULL <==> i == |r.order[d]|
    ensures i < |r.order[d]| ==>
      var kid := Kid(d, r.order[d][i]);
      && kid in r.nodes && At(r.nodes, r.order, d, i) == r.nodes[kid] && r.nodes[kid] in r.heap
      && r.heap[r.nodes[kid]].next == At(r.nodes, r.order, d, i + 1)
      && Shape(r.nodes, r.order) && r.nodes.Keys == r.order.Keys && Readable(r.heap, r.nodes, r.order, Subtree(r.nodes, kid))
      && RefsOf(r.nodes, Gone(r.nodes, r.order, d, i + 1))
           == RefsOf(r.nodes, Gone(r.nodes, r.order, d, i)) + RefsOf(r.nodes, Reached(r.nodes, r.order, kid))
      && |Gone(r.nodes, r.order, d, i + 1)| == |Gone(r.nodes, r.order, d, i)| + |Reached(r.nodes, r.order, kid)|
  {
    hide Shape, Linked, At, Kid, Under, Gone, Reached;
    RegistryFacts(heap0, r.nextRef, r.root, r.nodes, r.order);
    ListStep(heap0, r.nodes, r.order, d, i);
    if i < |r.order[d]| {
      var kid := Kid(d, r.order[d][i]);
      GoneStep(r.nodes, r.order, d, i);
      GoneReadable(heap0, r.nodes, r.order, d, i);
      UnderSelf(kid);
      assert kid in Subtree(r.nodes, kid);
    }
  }

  lemma ClearingEnd(r: Registry, heap0: Heap, total0: nat, d: Path)
    requires d in r.order && Clearing(r, heap0, total0, d, |r.order[d]|)
    ensures
      var gone := Gone(r.nodes, r.order, d, |r.order[d]|);
      && r.nodes[d] in heap0 && r.nodes[d] in r.heap && gone <= Below(r.nodes, d)
      && r.totalKeys == Less(total0, |gone|)
      && r.heap[r.nodes[d] := r.heap[r.nodes[d]].(children := NULL)] == ClearHeap(heap0, r.nodes, d, gone)
  {
    hide Shape, Linked, Under, Gone, Below;
    RegistryFacts(heap0, r.nextRef, r.root, r.nodes, r.order);
    GoneEnd(r.nodes, r.order, d);
    TargetNotGone(r.nodes, d, Gone(r.nodes, r.order, d, |r.order[d]|));
  }

  // What clearing d leaves allocated.
  ghost function ClearLeaks(nodes: Nodes, order: Order, d: Path): set<Ref> {
    if d in nodes && d in order then RefsOf(nodes, Below(nodes, d) - Gone(nodes, order, d, |order[d]|)) else {}
  }

  // Clearing leaks nothing when every child can be freed whole.
  lemma ClearLeaksNothing(nodes: Nodes, order: Order, d: Path)
    requires Shape(nodes, order) && forall n {:trigger Kid(d, n)} :: Kid(d, n) in nodes ==> StackSuffices(nodes, order, Kid(d, n))
    ensures ClearLeaks(nodes, order, d) == {}
  {
    hide GoodPath, StackSuffices, Gone, Below;
    if d in nodes && d in order {
      forall i | 0 <= i < |order[d]| ensures StackSuffices(nodes, order, Kid(d, order[d][i])) {
        ChildListed(nodes, order, d, order[d][i]);
      }
      GoneEnd(nodes, order, d);
    }
  }

  // Every child of dst is freed and the list emptied.
  method ClearChildren(r: Registry, dst: Ref, ghost d: Path)
    requires r.Tree() && d in r.nodes && dst == r.nodes[d]
    modifies r
    ensures r.Tree() && r.nodes == old(r.nodes) - Below(old(r.nodes), d) && r.order == ClearOrder(old(r.order), d)
    ensures d in r.nodes && r.nodes[d] == old(r.nodes[d])
    ensures r.View() == old(r.View()) - Below(old(r.nodes), d)
    ensures Leaked(r.heap, r.nodes) == old(Leaked(r.heap, r.nodes)) + ClearLeaks(old(r.nodes), old(r.order), d)
    ensures old(r.Counted()) ==> r.Counted()
  {
    hide IsRegistry, Shape, At, Kid, Subtree, RefsOf, Gone, Below, ClearOrder, ClearHeap, Clearing, Readable, ViewOf, Leaked;
    RegistryFacts(r.heap, r.nextRef, r.root, r.nodes, r.order);
    FirstChild(r.heap, r.nextRef, r.root, r.nodes, r.order, d);
    ClearingStart(r, d);
    FreeChildren(r, dst, d);
    ClearingEnd(r, old(r.heap), old(r.totalKeys), d);
    EmptyList(r, dst, d, old(r.heap), Gone(r.nodes, r.order, d, |r.order[d]|));
  }

  // dst->children = NULL, when everything below it that can be freed is gone.
  method EmptyList(r: Registry, dst: Ref, ghost d: Path, ghost heap0: Heap, ghost gone: set<Path>)
    requires IsRegistry(heap0, r.nextRef, r.root, r.nodes, r.order) && d in r.nodes && dst == r.nodes[d]
    requires dst in heap0 && dst in r.heap && gone <= Below(r.nodes, d)
    requires r.heap[dst := r.heap[dst].(children := NULL)] == ClearHeap(heap0, r.nodes, d, gone) && r.nodes.Values <= heap0.Keys
    modifies r`heap, r`nodes, r`order
    ensures r.Tree() && r.nodes == old(r.nodes) - Below(old(r.nodes), d) && r.order == ClearOrder(old(r.order), d)
    ensures d in r.nodes && r.nodes[d] == old(r.nodes[d])
    ensures r.View() == ViewOf(heap0, old(r.nodes)) - Below(old(r.nodes), d)
    ensures Leaked(r.heap, r.nodes) == Leaked(heap0, old(r.nodes)) + RefsOf(old(r.nodes), Below(old(r.nodes), d) - gone)
    ensures |r.heap| == |heap0| - |gone|
  {
    hide IsRegistry, Below, ClearOrder, ClearHeap, ViewOf, Leaked, RefsOf;
    ClearKeepsRegistry(heap0, r.nextRef, r.root, r.nodes, r.order, d, gone);
    r.heap := r.heap[dst := r.heap[dst].(children := NULL)];
    r.nodes, r.order := r.nodes - Below(r.nodes, d), ClearOrder(r.order, d);
  }

  method FreeChildren(r: Registry, dst: Ref, ghost d: Path)
    requires d in r.nodes && dst == r.nodes[d] && d in r.order && Clearing(r, r.heap, r.totalKeys, d, 0)
    requires dst in r.heap && r.heap[dst].children == At(r.nodes, r.order, d, 0)
    modifies r`heap, r`totalKeys
    ensures Clearing(r, old(r.heap), old(r.totalKeys), d, |r.order[d]|)
  {
    hide IsRegistry, Shape, At, Kid, Subtree, RefsOf, Gone, Readable, Reached;
    ghost var i := 0;
    var child := r.heap[dst].children;
    ClearingRound(r, r.heap, r.totalKeys, d, 0);
    while child != NULL
      invariant Clearing(r, old(r.heap), old(r.totalKeys), d, i) && child == At(r.nodes, r.order, d, i)
      decreases |r.order[d]| - i
    {
      ClearingRound(r, old(r.heap), old(r.totalKeys), d, i);
      var next := r.heap[child].next;
      r.FreeRecursive(child, Kid(d, r.order[d][i]));
      child := next;
      i := i + 1;
    }
    ClearingRound(r, old(r.heap), old(r.totalKeys), d, i);
  }

  // ----- Bind

  // The target after it has been made, and the keys outside it.
  lemma ReadyToBind(nodes0: Nodes, nodes1: Nodes, v: View, s: Path, d: Path)
    requires IsPrefixClosed(v) && v.Keys == nodes0.Keys && nodes1.Keys == WithPath(v, d, RK_ALL).Keys
    requires Apart(s, d) && Fits(nodes0, s, d) && s in nodes0
    ensures Ready(nodes1, s, d)
    ensures s in nodes1 - Below(nodes1, d) && Fits(nodes1 - Below(nodes1, d), s, d)
    ensures Subtree(nodes1, s) == Subtree(nodes0, s)
    ensures forall n {:trigger Kid(s, n)} :: Kid(s, n) in nodes1 - Below(nodes1, d) <==> Kid(s, n) in v
    ensures d !in nodes0 ==> Below(nodes1, d) == {}
  {
    hide GoodPath, WithPath, IsPrefixClosed, Subtree;
    PathKeepsSource(nodes0, nodes1, v, s, d);
    forall q ensures q in nodes1 <==> q in nodes0 || Under(q, d) { WithPathKeys(v, d, RK_ALL, q); }
    forall n ensures Kid(s, n) in nodes1 - Below(nodes1, d) <==> Kid(s, n) in v {
      ApartKids(s, d, n);
      assert Under(Kid(s, n), d) ==> Under(s, d);
    }
    if d !in nodes0 {
      forall q | q in nodes1 ensures !StrictlyUnder(d, q) { NewHasNothing(nodes0, v, d, q); }
    }
  }

  lemma SubtreeLess(nodes: Nodes, nodes': Nodes, s: Path)
    requires nodes'.Keys <= nodes.Keys
    ensures Subtree(nodes', s) <= Subtree(nodes, s)
  {
  }

  lemma NewHasNothing(nodes0: Nodes, v: View, d: Path, q: Path)
    requires IsPrefixClosed(v) && v.Keys == nodes0.Keys && d !in nodes0 && (q in nodes0 || Under(q, d))
    ensures !StrictlyUnder(d, q)
  {
    if Under(q, d) && Under(d, q) { assert q == d; }
  }

  // The part of a replacing bind before the copying: everything below dst goes, its value and
  // rights become those of src.
  method Replace(r: Registry, src: Ref, dst: Ref, ghost s: Path, ghost d: Path)
    requires r.Tree() && d in r.nodes && dst == r.nodes[d]
    requires s in r.nodes && src == r.nodes[s] && s in r.nodes - Below(r.nodes, d)
    modifies r
    ensures r.Tree() && r.nodes == old(r.nodes) - Below(old(r.nodes), d)
    ensures s in old(r.View()) && r.View() == (old(r.View()) - Below(old(r.nodes), d))[d := old(r.View())[s]]
    ensures Leaked(r.heap, r.nodes) == old(Leaked(r.heap, r.nodes)) + ClearLeaks(old(r.nodes), old(r.order), d)
    ensures old(r.Counted()) ==> r.Counted()
  {
    hide IsRegistry, Kid, ViewOf, Below, ClearOrder, Leaked, ClearLeaks;
    RegistryFacts(r.heap, r.nextRef, r.root, r.nodes, r.order);
    ClearChildren(r, dst, d);
    RegistryFacts(r.heap, r.nextRef, r.root, r.nodes, r.order);
    ViewAt(r.heap, r.nodes, s);
    r.WriteKey(dst, r.heap[src].val, r.heap[src].rights, d);
  }

  /**
   * reg_bind.  With flag 0 the target becomes an exact copy of the source: its own value and
   * rights and everything below it.  Other flags are mounts.
   */
  method Bind(r: Registry, srcText: string, dstText: string, flag: int) returns (ok: bool)
    requires r.Tree() && r.nodes.Values <= r.heap.Keys && Mountable(r.nodes.Keys, srcText, dstText)
    modifies r
    ensures r.Tree() && r.nodes.Values <= r.heap.Keys
    ensures ok == (Present(old(r.nodes).Keys, srcText) && Target(dstText).Some?)
    ensures
      var s, d, v := Place(srcText), Place(dstText), old(r.View());
      && (!ok ==> r.View() == v)
      && (ok && flag == 0 ==> r.View() == BindView(v, s, d))
      && (ok && flag != 0 ==> r.View() == MountView(WithPath(v, d, RK_ALL), s, d, flag == 1))
    ensures Leaked(r.heap, r.nodes)
         == old(Leaked(r.heap, r.nodes)) + if ok && flag == 0 then ClearLeaks(old(r.nodes), old(r.order), Place(dstText)) else {}
    ensures old(r.Counted()) ==> r.Counted()
  {
    hide IsRegistry, Kid, ViewOf, Mounted, Bound, BindView, MountView, Fits, Subtree, Under, Below, IsPrefixClosed, WithPath, Target, Leaked, Gone, RefsOf, Mountable, Texts, CutNames, CutIsNew, Apart;
    RegistryFacts(r.heap, r.nextRef, r.root, r.nodes, r.order);
    r.ViewPrefixClosed();
    ghost var v, s, d := r.View(), Place(srcText), Place(dstText);
    if Present(r.nodes.Keys, srcText) && Target(dstText).Some? { MountableTexts(r, srcText, dstText); }
    var src := r.Lookup(srcText);
    assert old(Leaked(r.heap, r.nodes)) + {} == old(Leaked(r.heap, r.nodes));
    if src == NULL { return false; }
    if flag != 0 {
      ok := Mount(r, srcText, dstText, flag == 1);
      return;
    }
    var dst := r.Lookup(dstText);
    if dst == NULL {
      NowhereIsNew(r.nodes.Keys, dstText);
      dst := r.MkPath(dstText, RK_ALL);
    } else {
      ExistingPath(v, d, RK_ALL);
    }
    RegistryFacts(r.heap, r.nextRef, r.root, r.nodes, r.order);
    if dst == NULL { return false; }
    ReadyToBind(old(r.nodes), r.nodes, v, s, d);
    ghost var nodes1 := r.nodes;
    NewLeaksNothing(r.nodes, r.order, d);
    Replace(r, src, dst, s, d);
    RegistryFacts(r.heap, r.nextRef, r.root, r.nodes, r.order);
    SubtreeLess(nodes1, r.nodes, s);
    TextsSame(old(r.nodes), r.nodes, s, d, srcText, dstText);
    BindRest(r, srcText, dstText, v, nodes1, s, d);
    return true;
  }

  lemma NewLeaksNothing(nodes: Nodes, order: Order, d: Path)
    ensures Below(nodes, d) == {} ==> ClearLeaks(nodes, order, d) == {}
  {
    hide Gone;
  }

  // The copying part of a replacing bind.
  method BindRest(r: Registry, srcText: string, dstText: string, ghost v: View, ghost nodes1: Nodes, ghost s: Path, ghost d: Path)
    requires r.Tree() && r.nodes.Values <= r.heap.Keys && Texts(r.nodes.Keys, s, d, srcText, dstText) && Short(d)
    requires Ready(nodes1, s, d) && r.nodes == nodes1 - Below(nodes1, d) && s in r.nodes && Fits(r.nodes, s, d)
    requires IsPrefixClosed(v) && s in v && nodes1.Keys == WithPath(v, d, RK_ALL).Keys
    requires r.View() == (WithPath(v, d, RK_ALL) - Below(nodes1, d))[d := v[s]]
    requires forall n {:trigger Kid(s, n)} :: Kid(s, n) in r.nodes <==> Kid(s, n) in v
    modifies r
    ensures r.Tree() && r.Steady() && r.nodes.Values <= r.heap.Keys && r.View() == BindView(v, s, d)
  {
    hide IsRegistry, Kid, GoodPath, Join, Labels, ViewOf, Mounted, MountView, Bound, BindView, Fits, Subtree, Under, Below, IsPrefixClosed, WithPath, Kept, Cleared, Leaked, Texts, Mountable, Target, Apart;
    ghost var v2, nodes2, order2 := r.View(), r.nodes, r.order;
    FirstChild(r.heap, r.nextRef, r.root, r.nodes, r.order, s);
    assert ChildrenAre(v, s, r.order[s]);
    ClearedView(v, nodes1, v2, s, d);
    TargetStays(nodes1, d);
    ExistingPath(v2, d, RK_ALL);
    TextsLead(r.nodes.Keys, s, d, srcText, dstText);
    var _ := Mount(r, srcText, dstText, true);
    StillReady(nodes2, order2, r.nodes, r.order, s, d);
    BindIsCopy(v, v2, r.View(), s, d, r.order[s]);
    BoundIsView(v, r.View(), s, d);
  }

  lemma TargetStays(nodes: Nodes, d: Path)
    requires d in nodes
    ensures d in nodes - Below(nodes, d)
  {
    RootNotBelow(d);
  }

  // ----- Detaching and freeing one child

  // Setting next and parent of a key that is about to be freed hides nothing below it.
  lemma DetachedReadable(heap: Heap, heap': Heap, nodes: Nodes, order: Order, p: Path)
    requires Shape(nodes, order) && nodes.Keys == order.Keys && p in nodes && nodes[p] in heap
    requires Readable(heap, nodes, order, Subtree(nodes, p))
    requires heap' == heap[nodes[p] := heap[nodes[p]].(next := NULL, parent := NULL)]
    ensures Readable(heap', nodes, order, Subtree(nodes, p))
  {
    hide GoodPath;
    var tree := Subtree(nodes, p);
    forall q | q in tree ensures nodes[q] in heap' && heap'[nodes[q]].children == At(nodes, order, q, 0) {
      assert nodes[q] in heap;
    }
    forall q, i: nat | q in tree && i < |order[q]| ensures NextOk(heap', nodes, order, q, i) {
      assert NextOk(heap, nodes, order, q, i);
      assert Kid(q, order[q][i]) != p;
    }
  }

  // Keys beside p and its parent are where they were, with the same children.
  ghost predicate KeptBeside(nodes: Nodes, order: Order, nodes': Nodes, order': Order, p: Path)
    requires p != []
  {
    forall q {:trigger SameKey(nodes, order, nodes', order', q)} | !Under(p, q) && q != Up(p) :: SameKey(nodes, order, nodes', order', q)
  }

  lemma CutBeside(nodes: Nodes, order: Order, p: Path, i: nat)
    requires Removable(nodes, order, p, i) && nodes.Keys == order.Keys
    ensures
      var nodes', order' := nodes - Subtree(nodes, p), CutOrder(order, p, i);
      KeptBeside(nodes, order, nodes', order', p) && Up(p) in nodes' && nodes'[Up(p)] == nodes[Up(p)]
  {
    hide Shape;
    UpNotUnder(p);
  }

  // regkey_detach_child counts down without looking; at zero the counter wraps around.
  const SIZE_MAX: nat := 0xFFFF_FFFF_FFFF_FFFF

  function Down(total: nat): nat { if total > 0 then total - 1 else SIZE_MAX }

  // regkey_detach_child and regkey_free_recursive: the key is counted down twice.
  method Drop(r: Registry, target: Ref, ghost p: Path)
    requires r.Tree() && p in r.nodes && p != [] && target == r.nodes[p] && r.nodes.Values <= r.heap.Keys
    modifies r
    ensures r.Tree() && r.nodes == old(r.nodes) - Subtree(old(r.nodes), p) && r.nodes.Values <= r.heap.Keys
    ensures KeptBeside(old(r.nodes), old(r.order), r.nodes, r.order, p)
    ensures Up(p) in old(r.nodes) && Up(p) in r.nodes && r.nodes[Up(p)] == old(r.nodes)[Up(p)]
    ensures r.View() == old(r.View()) - Subtree(old(r.nodes), p)
    ensures
      var reached := Reached(old(r.nodes), old(r.order), p);
      && Leaked(r.heap, r.nodes) == old(Leaked(r.heap, r.nodes)) + RefsOf(old(r.nodes), Subtree(old(r.nodes), p) - reached)
      && r.totalKeys == Less(Down(old(r.totalKeys)), |reached|) && |r.heap| == |old(r.heap)| - |reached|
  {
    hide IsRegistry, Shape, Linked, At, Kid, Removable, Unlinked, ViewOf, Subtree, RefsOf, CutOrder, Readable, KeptBeside, Reached, Leaked;
    RegistryFacts(r.heap, r.nextRef, r.root, r.nodes, r.order);
    ghost var i := r.Unlink(target, p);
    UnlinkKeepsTree(old(r.heap), r.heap, r.nextRef, r.root, r.nodes, r.order, p, i);
    ghost var mid, gone := r.heap, Reached(r.nodes, r.order, p);
    UnlinkedKeys(old(r.heap), mid, r.nodes, r.order, Up(p), i);
    r.heap := r.heap[target := r.heap[target].(next := NULL, parent := NULL)];
    DetachedReadable(mid, r.heap, r.nodes, r.order, p);
    r.totalKeys := if r.totalKeys > 0 then r.totalKeys - 1 else SIZE_MAX;
    r.FreeRecursive(target, p);
    FreedWith(mid, r.nodes, r.order, p, mid[target].(next := NULL, parent := NULL));
    CutBeside(r.nodes, r.order, p, i);
    r.CutOut(old(r.heap), mid, p, i, gone);
  }

  // The key itself is always freed, so what was written to it last does not matter.
  lemma FreedWith(heap: Heap, nodes: Nodes, order: Order, p: Path, k: Key)
    requires p in nodes && nodes[p] in heap
    ensures heap[nodes[p] := k] - RefsOf(nodes, Reached(nodes, order, p)) == heap - RefsOf(nodes, Reached(nodes, order, p))
  {
    hide Rank;
    UnderSelf(p);
    assert p in Reached(nodes, order, p) && nodes[p] in RefsOf(nodes, Reached(nodes, order, p));
  }

  // The source has enough keys of its own that the counter cannot run out.
  lemma CountHolds(heap: Heap, nodes: Nodes, order: Order, s: Path, d: Path, n: Name)
    requires Shape(nodes, order) && Apart(s, d) && s in nodes && s in order && nodes.Values <= heap.Keys
    ensures |Subtree(nodes, Kid(d, n))| + |order[s]| <= |heap|
  {
    hide GoodPath, Separate;
    var tree, kids := Subtree(nodes, Kid(d, n)), Kids(s, order[s]);
    FrontSeparate(nodes, order, s, |order[s]|);
    assert order[s][..|order[s]|] == order[s];
    forall i | 0 <= i < |kids| ensures kids[i] in nodes.Keys - tree {
      ChildListed(nodes, order, s, order[s][i]);
      ApartKids(s, d, order[s][i]);
      KidOnWay(d, n, kids[i]);
    }
    SeparateFits(kids, nodes.Keys - tree);
    assert nodes.Keys == tree + (nodes.Keys - tree);
    assert |nodes.Keys - tree| == |nodes.Keys| - |tree|;
    RefsCount(nodes, nodes.Keys);
    CardinalityLe(RefsOf(nodes, nodes.Keys), heap.Keys);
  }

  // ----- Unmount

  // The children of d that have one of these names.
  ghost function Shared(nodes: Nodes, d: Path, names: seq<Name>): set<Name> {
    set n | n in names && Kid(d, n) in nodes
  }

  lemma SharedNext(nodes: Nodes, d: Path, names: seq<Name>, i: nat)
    requires i < |names| && Distinct(names)
    ensures |Shared(nodes, d, names[..i])| <= i
    ensures |Shared(nodes, d, names[..i + 1])| == |Shared(nodes, d, names[..i])| + if Kid(d, names[i]) in nodes then 1 else 0
  {
    var a, b := Shared(nodes, d, names[..i]), Shared(nodes, d, names[..i + 1]);
    assert names[..i + 1] == names[..i] + [names[i]];
    assert b == if Kid(d, names[i]) in nodes then a + {names[i]} else a;
    SharedBound(nodes, d, names[..i]);
  }

  lemma {:induction false} SharedBound(nodes: Nodes, d: Path, names: seq<Name>)
    ensures |Shared(nodes, d, names)| <= |names|
  {
    if names != [] {
      var m := |names| - 1;
      SharedBound(nodes, d, names[..m]);
      assert names == names[..m] + [names[m]];
      assert Shared(nodes, d, names) <= Shared(nodes, d, names[..m]) + {names[m]};
      CardinalityLe(Shared(nodes, d, names), Shared(nodes, d, names[..m]) + {names[m]});
    }
  }

  // Taking one more child away.
  lemma UnmountNext(v: View, v1: View, nodes: Nodes, d: Path, names: seq<Name>, n: Name)
    requires Unmounted(v, v1, d, names) && v1.Keys == nodes.Keys
    ensures Unmounted(v, v1 - Subtree(nodes, Kid(d, n)), d, names + [n])
  {
    hide Kid, Under;
    var v2 := v1 - Subtree(nodes, Kid(d, n));
    forall p ensures Find(v2, p) == UnmountAt(v, d, names + [n], p) {
      assert Find(v1, p) == UnmountAt(v, d, names, p);
      KidOnWay(d, n, p);
    }
  }

  lemma UnmountNothing(v: View, d: Path)
    ensures Unmounted(v, v, d, [])
  {
  }

  lemma NamesDistinct(nodes: Nodes, order: Order, s: Path)
    requires Shape(nodes, order) && s in order
    ensures Distinct(order[s])
  {
  }

  // The branches of d under names not yet handled are as they were.
  ghost predicate BranchesKept(nodes0: Nodes, order0: Order, nodes: Nodes, order: Order, d: Path, done: seq<Name>) {
    forall q {:trigger SameKey(nodes0, order0, nodes, order, q)} ::
      (Under(d, q) ==> q != d && Branch(d, q) !in done) ==> SameKey(nodes0, order0, nodes, order, q)
  }

  lemma BranchesAfter(n0: Nodes, o0: Order, n1: Nodes, o1: Order, n2: Nodes, o2: Order, d: Path, done: seq<Name>, n: Name)
    requires BranchesKept(n0, o0, n1, o1, d, done) && Up(Kid(d, n)) == d && KeptBeside(n1, o1, n2, o2, Kid(d, n))
    ensures BranchesKept(n0, o0, n2, o2, d, done + [n])
  {
    hide Kid, Under;
    forall q | Under(d, q) ==> q != d && Branch(d, q) !in done + [n] ensures SameKey(n0, o0, n2, o2, q) {
      KidOnWay(d, n, q);
      UnderSelf(d);
      assert SameKey(n0, o0, n1, o1, q) && SameKey(n1, o1, n2, o2, q);
    }
  }

  lemma {:induction false} SameRank(order0: Order, order1: Order, b: Path, q: Path)
    requires Under(b, q)
    requires forall x :: Under(b, x) && Under(x, q) && x != q ==> (x in order0 <==> x in order1) && (x in order0 ==> order1[x] == order0[x])
    ensures Rank(order1, q) - Rank(order1, b) == Rank(order0, q) - Rank(order0, b)
    decreases |q|
  {
    if q != b {
      var u := Up(q);
      assert Under(b, u) && Under(u, q) && u != q;
      assert forall x :: Under(x, u) ==> Under(x, q) && x != q;
      SameRank(order0, order1, b, u);
    }
  }

  // A branch that is as it was is freed as it would have been.
  lemma SameBranch(nodes0: Nodes, order0: Order, nodes1: Nodes, order1: Order, b: Path)
    requires nodes0.Keys == order0.Keys && nodes1.Keys == order1.Keys
    requires forall q {:trigger SameKey(nodes0, order0, nodes1, order1, q)} | Under(b, q) :: SameKey(nodes0, order0, nodes1, order1, q)
    ensures Subtree(nodes1, b) == Subtree(nodes0, b) && Reached(nodes1, order1, b) == Reached(nodes0, order0, b)
    ensures RefsOf(nodes1, Subtree(nodes1, b) - Reached(nodes1, order1, b)) == RefsOf(nodes0, Subtree(nodes0, b) - Reached(nodes0, order0, b))
  {
    hide Rank;
    forall q | Under(b, q)
      ensures (q in nodes0 <==> q in nodes1) && (q in nodes0 ==> nodes1[q] == nodes0[q])
      ensures Rank(order1, q) - Rank(order1, b) == Rank(order0, q) - Rank(order0, b)
    {
      assert SameKey(nodes0, order0, nodes1, order1, q);
      forall x | Under(b, x) ensures (x in order0 <==> x in order1) && (x in order0 ==> order1[x] == order0[x]) {
        assert SameKey(nodes0, order0, nodes1, order1, x);
      }
      SameRank(order0, order1, b, q);
    }
    assert Subtree(nodes1, b) == Subtree(nodes0, b);
    assert Reached(nodes1, order1, b) == Reached(nodes0, order0, b);
  }

  // The keys that unmounting the children of these names leaves allocated.
  ghost function UnmountLeaks(nodes: Nodes, order: Order, d: Path, names: seq<Name>): set<Ref> {
    if names == [] then {}
    else
      var n := |names| - 1;
      var b := Kid(d, names[n]);
      UnmountLeaks(nodes, order, d, names[..n]) + RefsOf(nodes, Subtree(nodes, b) - Reached(nodes, order, b))
  }

  lemma UnmountLeaksNext(nodes: Nodes, order: Order, d: Path, names: seq<Name>, i: nat)
    requires i < |names|
    ensures
      var b := Kid(d, names[i]);
      UnmountLeaks(nodes, order, d, names[..i + 1])
        == UnmountLeaks(nodes, order, d, names[..i]) + RefsOf(nodes, Subtree(nodes, b) - Reached(nodes, order, b))
  {
    assert names[..i + 1][..i] == names[..i];
  }

  // Unmounting leaks nothing when every child can be freed whole.
  lemma {:induction false} UnmountLeaksNothing(nodes: Nodes, order: Order, d: Path, names: seq<Name>)
    requires forall n <- names :: StackSuffices(nodes, order, Kid(d, n))
    ensures UnmountLeaks(nodes, order, d, names) == {}
  {
    hide StackSuffices, Reached, Subtree;
    if names != [] {
      var m := |names| - 1;
      UnmountLeaksNothing(nodes, order, d, names[..m]);
      ReachedAllIff(nodes, order, Kid(d, names[m]));
      assert Subtree(nodes, Kid(d, names[m])) - Reached(nodes, order, Kid(d, names[m])) == {};
    }
  }

  // Before everything: the registry an unmount starts from.
  datatype Start = Start(view: View, nodes: Nodes, order: Order, leaked: set<Ref>, counted: bool)

  ghost function StartOf(r: Registry): Start
    requires r.nodes.Values <= r.heap.Keys
    reads r
  {
    Start(r.View(), r.nodes, r.order, Leaked(r.heap, r.nodes), r.Counted())
  }

  // The rounds of reg_unmount done so far.
  ghost predicate Unmounting(r: Registry, z: Start, s: Path, d: Path, names: seq<Name>, i: nat)
    reads r
  {
    && r.Tree() && r.nodes.Values <= r.heap.Keys && i <= |names| && Apart(s, d) && s in r.nodes && d in r.nodes
    && z.nodes.Keys == z.order.Keys && BranchesKept(z.nodes, z.order, r.nodes, r.order, d, names[..i])
    && s in r.order && r.order[s] == names && Unmounted(z.view, r.View(), d, names[..i])
    && (z.counted ==> r.totalKeys == |r.heap| - |Shared(z.nodes, d, names[..i])|)
    && Leaked(r.heap, r.nodes) == z.leaked + UnmountLeaks(z.nodes, z.order, d, names[..i])
  }

  // Facts about the i-th source child before its round.
  lemma UnmountFacts(r: Registry, z: Start, s: Path, d: Path, names: seq<Name>, i: nat)
    requires Unmounting(r, z, s, d, names, i) && i < |names|
    ensures
      var n := names[i];
      && Kid(s, n) in r.nodes && r.nodes[Kid(s, n)] in r.heap && r.heap[r.nodes[Kid(s, n)]].name == n
      && Kid(d, n) != [] && Up(Kid(d, n)) == d && Distinct(names) && n !in names[..i]
      && |Shared(z.nodes, d, names[..i])| <= i && |Subtree(r.nodes, Kid(d, n))| + |names| <= |r.heap|
      && |Shared(z.nodes, d, names[..i + 1])| == |Shared(z.nodes, d, names[..i])| + (if Kid(d, n) in z.nodes then 1 else 0)
  {
    hide Shape, Linked, At, BranchesKept, Unmounted, ViewOf, Subtree, Leaked, UnmountLeaks;
    var n := names[i];
    ListStep(r.heap, r.nodes, r.order, s, i);
    CountHolds(r.heap, r.nodes, r.order, s, d, n);
    ChildListed(r.nodes, r.order, d, n);
    NamesDistinct(r.nodes, r.order, s);
    SharedNext(z.nodes, d, names, i);
  }

  // The branch of the i-th name is as it was at the start.
  lemma BranchAsAtStart(r: Registry, z: Start, s: Path, d: Path, names: seq<Name>, i: nat)
    requires Unmounting(r, z, s, d, names, i) && i < |names| && names[i] !in names[..i]
    ensures
      var b := Kid(d, names[i]);
      && (b in r.nodes <==> b in z.nodes) && Subtree(r.nodes, b) == Subtree(z.nodes, b)
      && Reached(r.nodes, r.order, b) == Reached(z.nodes, z.order, b)
      && RefsOf(r.nodes, Subtree(r.nodes, b) - Reached(r.nodes, r.order, b)) == RefsOf(z.nodes, Subtree(z.nodes, b) - Reached(z.nodes, z.order, b))
  {
    hide Kid, Under, Unmounted, ViewOf, Subtree, Reached, Leaked, UnmountLeaks, Shared;
    RegistryFacts(r.heap, r.nextRef, r.root, r.nodes, r.order);
    var b := Kid(d, names[i]);
    forall q | Under(b, q) ensures SameKey(z.nodes, z.order, r.nodes, r.order, q) {
      KidOnWay(d, names[i], q);
    }
    UnderSelf(b);
    assert SameKey(z.nodes, z.order, r.nodes, r.order, b);
    SameBranch(z.nodes, z.order, r.nodes, r.order, b);
  }

  // One round of the loop of reg_unmount.
  method UnmountRound(r: Registry, c: Ref, dst: Ref, ghost z: Start, ghost s: Path, ghost d: Path, ghost names: seq<Name>, ghost i: nat)
    requires Unmounting(r, z, s, d, names, i) && i < |names| && dst == r.nodes[d]
    requires Kid(s, names[i]) in r.nodes && c == r.nodes[Kid(s, names[i])]
    modifies r
    ensures Unmounting(r, z, s, d, names, i + 1) && r.nodes[d] == old(r.nodes)[d]
    ensures s in r.nodes && r.nodes[s] == old(r.nodes)[s] && Kid(s, names[i]) in r.nodes && r.nodes[Kid(s, names[i])] == c
  {
    hide IsRegistry, Kid, Under, BranchesKept, KeptBeside, Unmounted, ViewOf, Subtree, Shared, Reached, Leaked, UnmountLeaks, RefsOf;
    RegistryFacts(r.heap, r.nextRef, r.root, r.nodes, r.order);
    UnmountFacts(r, z, s, d, names, i);
    BranchAsAtStart(r, z, s, d, names, i);
    ghost var b := Kid(d, names[i]);
    UnmountNext(z.view, r.View(), r.nodes, d, names[..i], names[i]);
    UnmountLeaksNext(z.nodes, z.order, d, names, i);
    assert names[..i] + [names[i]] == names[..i + 1];
    var target := r.FindChild(dst, r.heap[c].name, d);
    if target != NULL {
      Drop(r, target, b);
      BranchesAfter(z.nodes, z.order, old(r.nodes), old(r.order), r.nodes, r.order, d, names[..i], names[i]);
      CardinalityLe(Reached(old(r.nodes), old(r.order), b), Subtree(old(r.nodes), b));
      SourceKept(old(r.nodes), old(r.order), r.nodes, r.order, s, d, names[i]);
    } else {
      NothingBelow(r, b);
      BranchesMore(z.nodes, z.order, r.nodes, r.order, d, names[..i], names[i]);
    }
  }

  // Taking a branch of the target away leaves the source and its children alone.
  lemma SourceKept(nodes: Nodes, order: Order, nodes': Nodes, order': Order, s: Path, d: Path, n: Name)
    requires Apart(s, d) && Kid(d, n) != [] && Up(Kid(d, n)) == d && KeptBeside(nodes, order, nodes', order', Kid(d, n))
    ensures SameKey(nodes, order, nodes', order', s) && SameKey(nodes, order, nodes', order', Kid(s, n))
  {
    ApartKids(s, d, n);
    assert !Under(Kid(d, n), s) && s != d && Kid(s, n) != d;
  }

  lemma BranchesMore(nodes0: Nodes, order0: Order, nodes: Nodes, order: Order, d: Path, done: seq<Name>, n: Name)
    requires BranchesKept(nodes0, order0, nodes, order, d, done)
    ensures BranchesKept(nodes0, order0, nodes, order, d, done + [n])
  {
    hide Under;
    forall q | Under(d, q) ==> q != d && Branch(d, q) !in done + [n] ensures SameKey(nodes0, order0, nodes, order, q) {
    }
  }

  lemma NothingBelow(r: Registry, b: Path)
    requires r.Tree() && b !in r.nodes && r.nodes.Values <= r.heap.Keys
    ensures Subtree(r.nodes, b) == {} && r.View() - Subtree(r.nodes, b) == r.View()
    ensures RefsOf(r.nodes, Subtree(r.nodes, b) - Reached(r.nodes, r.order, b)) == {}
  {
    hide GoodPath, Reached;
    forall q | q in r.nodes ensures !Under(b, q) {
      if Under(b, q) { PrefixClosed(r.nodes, r.order, b, q); }
    }
  }

  // The loop of reg_unmount over the children of the source.
  method UnmountChildren(r: Registry, src: Ref, dst: Ref, ghost s: Path, ghost d: Path)
    requires r.Tree() && Apart(s, d) && s in r.nodes && d in r.nodes && src == r.nodes[s] && dst == r.nodes[d]
    requires s in r.order && r.nodes.Values <= r.heap.Keys
    modifies r
    ensures Unmounting(r, old(StartOf(r)), s, d, old(r.order)[s], |old(r.order)[s]|)
  {
    hide Shape, Linked, At, Kid, BranchesKept, Under, Unmounted, ViewOf, Shared, Subtree, Leaked;
    RegistryFacts(r.heap, r.nextRef, r.root, r.nodes, r.order);
    ghost var z, names := StartOf(r), r.order[s];
    UnmountNothing(z.view, d);
    NothingShared(z.nodes, d);
    AllBranches(z.nodes, z.order, d);
    assert z.leaked + {} == z.leaked;
    ListStep(r.heap, r.nodes, r.order, s, 0);
    var c := r.heap[src].children;
    ghost var i := 0;
    assert names[..0] == [];
    while c != NULL
      invariant Unmounting(r, z, s, d, names, i)
      invariant r.nodes[s] == src && r.nodes[d] == dst && c == At(r.nodes, r.order, s, i)
      decreases |names| - i
    {
      ListStep(r.heap, r.nodes, r.order, s, i);
      UnmountRound(r, c, dst, z, s, d, names, i);
      ListStep(r.heap, r.nodes, r.order, s, i);
      c := r.heap[c].next;
      i := i + 1;
    }
    ListStep(r.heap, r.nodes, r.order, s, i);
  }

  lemma AllBranches(nodes: Nodes, order: Order, d: Path)
    requires nodes.Keys == order.Keys
    ensures BranchesKept(nodes, order, nodes, order, d, [])
  {
  }

  lemma NothingShared(nodes: Nodes, d: Path)
    ensures |Shared(nodes, d, [])| == 0
  {
  }

  /**
   * reg_unmount with a source.  The target loses every child that the source also has.  A right
   * count stays right exactly when there is no such child, because each is counted down twice.
   */
  method Unmount(r: Registry, srcText: string, dstText: string) returns (ok: bool)
    requires r.Tree() && r.nodes.Values <= r.heap.Keys
    requires Present(r.nodes.Keys, srcText) && Present(r.nodes.Keys, dstText) ==> Apart(Place(srcText), Place(dstText))
    modifies r
    ensures r.Tree() && r.nodes.Values <= r.heap.Keys
    ensures ok == (Present(old(r.nodes).Keys, srcText) && Present(old(r.nodes).Keys, dstText))
    ensures !ok ==> r.View() == old(r.View()) && r.Steady()
    ensures ok ==>
      var s, d := Place(srcText), Place(dstText);
      && s in old(r.order) && r.View() == UnmountView(old(r.View()), s, d)
      && Leaked(r.heap, r.nodes) == old(Leaked(r.heap, r.nodes)) + UnmountLeaks(old(r.nodes), old(r.order), d, old(r.order)[s])
      && (old(r.Counted()) ==> (r.Counted() <==> forall n :: Kid(s, n) in old(r.nodes) ==> Kid(d, n) !in old(r.nodes)))
  {
    hide IsRegistry, Kid, ViewOf, Unmounted, UnmountView, BranchesKept, UnmountLeaks, Under, Target, Leaked, Apart;
    RegistryFacts(r.heap, r.nextRef, r.root, r.nodes, r.order);
    ghost var s, d := Place(srcText), Place(dstText);
    var dst := r.Lookup(dstText);
    if dst == NULL { return false; }
    var src := r.Lookup(srcText);
    if src == NULL { return false; }
    FirstChild(r.heap, r.nextRef, r.root, r.nodes, r.order, s);
    ghost var v, names := r.View(), r.order[s];
    assert ChildrenAre(v, s, names);
    SharedNone(r.nodes, d, names);
    UnmountChildren(r, src, dst, s, d);
    assert names[..|names|] == names;
    UnmountedIsView(v, r.View(), s, d, names);
    return true;
  }

  lemma SharedNone(nodes: Nodes, d: Path, names: seq<Name>)
    ensures |Shared(nodes, d, names)| == 0 <==> forall n <- names :: Kid(d, n) !in nodes
  {
    if |Shared(nodes, d, names)| == 0 {
      forall n | n in names ensures Kid(d, n) !in nodes {
        assert Kid(d, n) in nodes ==> n in Shared(nodes, d, names);
      }
    } else {
      var n :| n in Shared(nodes, d, names);
    }
  }

  // reg_unmount without a source: everything below the target goes, and the count stays right.
  method UnmountAll(r: Registry, dstText: string) returns (ok: bool)
    requires r.Tree()
    modifies r
    ensures r.Tree() && ok == Present(old(r.nodes).Keys, dstText)
    ensures r.View() == if ok then old(r.View()) - Below(old(r.nodes), Place(dstText)) else old(r.View())
    ensures Leaked(r.heap, r.nodes)
         == old(Leaked(r.heap, r.nodes)) + if ok then ClearLeaks(old(r.nodes), old(r.order), Place(dstText)) else {}
    ensures old(r.Counted()) ==> r.Counted()
  {
    hide IsRegistry, ViewOf, Below, Target, Leaked, Gone, RefsOf;
    RegistryFacts(r.heap, r.nextRef, r.root, r.nodes, r.order);
    var dst := r.Lookup(dstText);
    assert old(Leaked(r.heap, r.nodes)) + {} == old(Leaked(r.heap, r.nodes));
    if dst == NULL { return false; }
    ClearChildren(r, dst, Place(dstText));
    return true;
  }

  // ----- Mounting and unmounting again

  /**
   * A mount on an existing target followed by the unmount of the same source restores every path
   * exactly when source and target had no child name in common.
   */
  method MountThenUnmount(r: Registry, srcText: string, dstText: string, before: bool)
    requires r.Tree() && r.nodes.Values <= r.heap.Keys && Mountable(r.nodes.Keys, srcText, dstText)
    requires Present(r.nodes.Keys, srcText) && Present(r.nodes.Keys, dstText)
    modifies r
    ensures r.Tree() && r.nodes.Values <= r.heap.Keys
    ensures r.View() == old(r.View()) <==>
      forall n :: Kid(Place(srcText), n) in old(r.nodes) ==> Kid(Place(dstText), n) !in old(r.nodes)
  {
    hide IsRegistry, Kid, ViewOf, MountView, UnmountView, Fits, IsPrefixClosed, WithPath, Under, Leaked, UnmountLeaks, Target, Mountable, Texts, Apart, CutNames, CutIsNew;
    ghost var v, s, d := r.View(), Place(srcText), Place(dstText);
    MountableTexts(r, srcText, dstText);
    r.ViewPrefixClosed();
    ExistingPath(v, d, RK_ALL);
    FirstChild(r.heap, r.nextRef, r.root, r.nodes, r.order, s);
    ghost var names := r.order[s];
    assert ChildrenAre(v, s, names);
    var _ := Mount(r, srcText, dstText, before);
    StillReady(old(r.nodes), old(r.order), r.nodes, r.order, s, d);
    var _ := Unmount(r, srcText, dstText);
    ViewsRestore(v, s, d, before, names);
  }
}
