/**
 Mount (registry/registry.c): the program walks the child lists of the source and copies key by
 key.  It is proved to leave exactly the map `MountView`.  Source and target lie apart; their texts
 may be spelled with any number of slashes.
 */
module RegistryMount {
  import opened RegistryPaths
  import opened RegistryShape
  import opened RegistryEdits
  import opened RegistryMaps
  import opened RegistryTree
  import opened Wire
  import opened Wrappers

  // ----- What stays the same outside the target

  ghost predicate SameKey(nodes: Nodes, order: Order, nodes': Nodes, order': Order, q: Path) {
    && (q in nodes <==> q in nodes')
    && (q in nodes ==> nodes'[q] == nodes[q] && q in order && q in order' && order'[q] == order[q])
  }

  // Keys outside d are where they were, with the same children.
  ghost predicate Kept(nodes: Nodes, order: Order, nodes': Nodes, order': Order, d: Path) {
    forall q {:trigger SameKey(nodes, order, nodes', order', q)} | !Under(d, q) :: SameKey(nodes, order, nodes', order', q)
  }

  lemma KeptSelf(nodes: Nodes, order: Order, d: Path)
    requires nodes.Keys == order.Keys
    ensures Kept(nodes, order, nodes, order, d)
  {
  }

  lemma KeptThen(n0: Nodes, o0: Order, n1: Nodes, o1: Order, n2: Nodes, o2: Order, d: Path, b: Path)
    requires Kept(n0, o0, n1, o1, d) && Kept(n1, o1, n2, o2, b) && Under(d, b)
    ensures Kept(n0, o0, n2, o2, d)
  {
    forall q | !Under(d, q) ensures SameKey(n0, o0, n2, o2, q) {
      assert !Under(b, q);
      assert SameKey(n0, o0, n1, o1, q) && SameKey(n1, o1, n2, o2, q);
    }
  }

  lemma KeptSubtree(nodes: Nodes, order: Order, nodes': Nodes, order': Order, s: Path, d: Path)
    requires Apart(s, d) && Kept(nodes, order, nodes', order', d)
    ensures Subtree(nodes, s) == Subtree(nodes', s)
    ensures SameKey(nodes, order, nodes', order', s)
  {
    forall q | Under(s, q) ensures SameKey(nodes, order, nodes', order', q) {
      assert q == s + q[|s|..];
      Comparable(d, s, q[|s|..]);
    }
  }

  lemma KeptAdd(nodes: Nodes, order: Order, nodes': Nodes, order': Order, d: Path, n: Name, k: Ref)
    requires nodes.Keys == order.Keys && d in nodes && nodes' == nodes[Kid(d, n) := k]
    requires order' == AddOrder(order, d, n) || order' == TailOrder(order, d, n)
    ensures Kept(nodes, order, nodes', order', d)
  {
    KidFacts(d, n);
    forall q | !Under(d, q) ensures SameKey(nodes, order, nodes', order', q) {
      UnderSelf(d);
    }
  }

  // Every copy has a path within the limits.
  ghost predicate Fits(nodes: Nodes, s: Path, d: Path) {
    forall q {:trigger Under(s, q)} | q in nodes && Under(s, q) :: GoodPath(Image(d, s, q))
  }

  lemma FitsBelow(nodes: Nodes, nodes': Nodes, s: Path, d: Path, n: Name)
    requires Fits(nodes, s, d) && Subtree(nodes, s) == Subtree(nodes', s) && Kid(s, n) in nodes
    ensures GoodPath(Kid(d, n)) && Fits(nodes', Kid(s, n), Kid(d, n))
    ensures Subtree(nodes, Kid(s, n)) == Subtree(nodes', Kid(s, n))
  {
    hide GoodPath;
    KidFacts(s, n);
    assert Image(d, s, Kid(s, n)) == Kid(d, n);
    forall q | Under(Kid(s, n), q) ensures Under(s, q) && (q in nodes <==> q in nodes') {
      KidOnWay(s, n, q);
      assert q in Subtree(nodes, s) <==> q in Subtree(nodes', s);
    }
    forall q | q in nodes' && Under(Kid(s, n), q) ensures GoodPath(Image(Kid(d, n), Kid(s, n), q)) {
      ImageKid(d, s, n, q);
    }
  }

  // What stands below s can be written behind the text.
  ghost predicate Room(keys: set<Path>, s: Path, text: string) {
    forall q {:trigger Under(s, q)} | q in keys && Under(s, q) && q != s :: |text| + |JoinSegments(q[|s|..])| < REG_PATH_MAX
  }

  // The texts lead to source and target and leave room for what is below the source.
  ghost predicate Texts(keys: set<Path>, s: Path, d: Path, srcText: string, dstText: string) {
    Target(srcText) == Some(s) && Target(dstText) == Some(d) && Room(keys, s, srcText) && Room(keys, s, dstText)
  }

  lemma TextsSame(nodes: Nodes, nodes': Nodes, s: Path, d: Path, srcText: string, dstText: string)
    requires Texts(nodes.Keys, s, d, srcText, dstText) && Subtree(nodes', s) <= Subtree(nodes, s)
    ensures Texts(nodes'.Keys, s, d, srcText, dstText)
  {
    hide JoinSegments, Target;
    forall q | q in nodes'.Keys && Under(s, q) ensures q in nodes.Keys { assert q in Subtree(nodes', s); }
  }

  // A text that leaves room below s, with the name of a child of s behind it.
  lemma RoomBelow(keys: set<Path>, s: Path, n: Name, text: string, p: Path)
    requires Room(keys, s, text) && Kid(s, n) in keys && GoodName(n) && Target(text) == Some(p)
    ensures |text + "/" + n| < REG_PATH_MAX && Target(text + "/" + n) == Some(Kid(p, n)) && Room(keys, Kid(s, n), text + "/" + n)
  {
    hide JoinSegments, Segments, GoodName;
    KidFacts(s, n);
    assert Kid(s, n)[|s|..] == [n] + [];
    JoinSegmentsCons(n, []);
    JoinSegmentsNone();
    assert GoodName(n) ==> 0 < |n| && '/' !in n by { GoodNameFacts(n); }
    SegmentsMore(text, n, 1);
    forall q | q in keys && Under(Kid(s, n), q) && q != Kid(s, n)
      ensures |text + "/" + n| + |JoinSegments(q[|Kid(s, n)|..])| < REG_PATH_MAX
    {
      KidOnWay(s, n, q);
      assert q[|s|..] == [n] + q[|Kid(s, n)|..];
      JoinSegmentsCons(n, q[|Kid(s, n)|..]);
    }
  }

  lemma GoodNameFacts(n: Name)
    requires GoodName(n)
    ensures 0 < |n| < NAME_LEN && '/' !in n
  {
  }

  // Texts that leave room give copies within the limits.
  lemma TextsFit(nodes: Nodes, order: Order, s: Path, d: Path, srcText: string, dstText: string)
    requires Shape(nodes, order) && Texts(nodes.Keys, s, d, srcText, dstText) && Short(d) && d != []
    ensures Fits(nodes, s, d) && GoodPath(d)
  {
    hide JoinSegments, ListsChildren;
    var buf := Clip(dstText);
    CutIsGood(buf, d);
    CutShort(d);
    SegmentsShort(buf, 1);
    forall q | q in nodes && Under(s, q) ensures GoodPath(Image(d, s, q)) {
      var rest := q[|s|..];
      assert Image(d, s, q) == d + rest;
      JoinAppend(d, rest);
      JoinSegmentsNone();
      if q == s { assert rest == []; assert d + rest == d; } else {
        assert GoodPath(q);
        assert forall n <- rest :: n in q;
      }
    }
  }

  lemma {:induction false} JoinAppend(p: Path, q: Path)
    ensures |JoinSegments(p + q)| == |JoinSegments(p)| + |JoinSegments(q)|
    decreases |q|
  {
    if q == [] {
      assert p + q == p;
    } else {
      var k := |q| - 1;
      JoinAppend(p, q[..k]);
      assert (p + q)[..|p + q| - 1] == p + q[..k];
    }
  }

  lemma SmallerSubtree(nodes: Nodes, s: Path, n: Name)
    requires s in nodes
    ensures |Subtree(nodes, Kid(s, n))| < |Subtree(nodes, s)|
  {
    var a, b := Subtree(nodes, Kid(s, n)), Subtree(nodes, s);
    forall q | q in a ensures q in b - {s} {
      KidOnWay(s, n, q);
    }
    UnderSelf(s);
    CardinalityLe(a, b - {s});
  }

  // ----- The program: adding one mirrored key

  // The last child of a key that has children.
  method LastChild(r: Registry, k: Ref, ghost p: Path) returns (last: Ref)
    requires r.Tree() && p in r.nodes && p in r.order && r.order[p] != [] && k == r.nodes[p]
    ensures last == At(r.nodes, r.order, p, |r.order[p]| - 1) && last in r.heap
  {
    hide Shape, Linked, At, Kid;
    ListStep(r.heap, r.nodes, r.order, p, 0);
    last := r.heap[k].children;
    ghost var i := 0;
    ListStep(r.heap, r.nodes, r.order, p, 1);
    while r.heap[last].next != NULL
      invariant i < |r.order[p]| && last == At(r.nodes, r.order, p, i) && last in r.heap
      invariant r.heap[last].next == At(r.nodes, r.order, p, i + 1)
      decreases |r.order[p]| - i
    {
      ListStep(r.heap, r.nodes, r.order, p, i + 1);
      last := r.heap[last].next;
      i := i + 1;
    }
    ListStep(r.heap, r.nodes, r.order, p, i + 1);
  }

  // regkey_add_child_tail
  method AddChildTail(r: Registry, k: Ref, seg: Name, childPath: string, rights: nat, ghost p: Path) returns (child: Ref)
    requires r.Tree() && p in r.nodes && k == r.nodes[p] && Kid(p, CutName(seg)) !in r.nodes
    requires Labels(childPath, Kid(p, CutName(seg))) && GoodPath(Kid(p, CutName(seg)))
    modifies r
    ensures r.Tree() && r.Steady() && p in old(r.order)
    ensures r.nodes == old(r.nodes)[Kid(p, CutName(seg)) := child] && r.order == TailOrder(old(r.order), p, CutName(seg))
    ensures r.View() == old(r.View())[Kid(p, CutName(seg)) := Entry(Nil, rights)]
  {
    hide IsRegistry, At, Kid, GoodPath, Join, Labels, ViewOf, Leaked, CutName;
    RegistryFacts(r.heap, r.nextRef, r.root, r.nodes, r.order);
    FirstChild(r.heap, r.nextRef, r.root, r.nodes, r.order, p);
    if r.heap[k].children == NULL {
      assert [CutName(seg)] + r.order[p] == r.order[p] + [CutName(seg)];
      child := r.AddChild(k, seg, childPath, rights, p);
    } else {
      child := AppendChild(r, k, seg, childPath, rights, p);
    }
  }

  // The part for a list that is not empty: the last key leads to the new one.
  method AppendChild(r: Registry, k: Ref, seg: Name, childPath: string, rights: nat, ghost p: Path) returns (child: Ref)
    requires r.Tree() && p in r.nodes && p in r.order && r.order[p] != [] && k == r.nodes[p]
    requires Kid(p, CutName(seg)) !in r.nodes && Labels(childPath, Kid(p, CutName(seg))) && GoodPath(Kid(p, CutName(seg)))
    modifies r
    ensures r.Tree() && r.Steady()
    ensures r.nodes == old(r.nodes)[Kid(p, CutName(seg)) := child] && r.order == TailOrder(old(r.order), p, CutName(seg))
    ensures r.View() == old(r.View())[Kid(p, CutName(seg)) := Entry(Nil, rights)]
  {
    hide IsRegistry, At, Kid, GoodPath, Join, Labels, ViewOf, TailOrder, Leaked, CutName;
    var name := CutName(seg);
    RegistryFacts(r.heap, r.nextRef, r.root, r.nodes, r.order);
    TailKeepsRegistry(r.heap, r.nextRef, r.root, r.nodes, r.order, p, name, childPath, rights);
    var last := LastChild(r, k, p);
    child := r.nextRef;
    var h := r.heap[child := Key(name, childPath, Nil, rights, k, NULL, NULL)];
    r.heap, r.nextRef, r.totalKeys := h[last := h[last].(next := child)], r.nextRef + 1, r.totalKeys + 1;
    r.nodes, r.order := r.nodes[Kid(p, name) := child], TailOrder(r.order, p, name);
  }

  // ----- The order of the children

  // A list with n in it: where it was, or else in front or behind.
  function WithChild(q: seq<Name>, n: Name, before: bool): seq<Name> {
    if n in q then q else if before then [n] + q else q + [n]
  }

  function Arranged(q: seq<Name>, names: seq<Name>, before: bool): seq<Name> {
    if names == [] then q else WithChild(Arranged(q, names[..|names| - 1], before), names[|names| - 1], before)
  }

  lemma ArrangedNone(q: seq<Name>, before: bool)
    ensures Arranged(q, [], before) == q
  {
  }

  lemma ArrangedNext(q: seq<Name>, names: seq<Name>, i: nat, before: bool)
    requires i < |names|
    ensures Arranged(q, names[..i + 1], before) == WithChild(Arranged(q, names[..i], before), names[i], before)
  {
    assert names[..i + 1][..i] == names[..i];
  }

  // Children that are all new come behind those there are, in order, or in front of them, in reverse.
  lemma {:induction false} ArrangedNew(q: seq<Name>, names: seq<Name>, before: bool)
    requires Distinct(names) && forall n <- names :: n !in q
    ensures !before ==> Arranged(q, names, before) == q + names
    ensures before ==>
      var r := Arranged(q, names, before);
      |r| == |names| + |q| && r[|names|..] == q && forall i | 0 <= i < |names| :: r[i] == names[|names| - 1 - i]
    decreases |names|
  {
    if names != [] {
      var k := |names| - 1;
      ArrangedNew(q, names[..k], before);
      assert names[k] in names;
      assert names == names[..k] + [names[k]];
    }
  }

  // A new key in front of its siblings or behind them.
  method Attach(r: Registry, dst: Ref, name: Name, newPath: string, rights: nat, before: bool, ghost d: Path) returns (mirror: Ref)
    requires r.Tree() && d in r.nodes && dst == r.nodes[d] && Kid(d, name) !in r.nodes
    requires |name| < NAME_LEN && Labels(newPath, Kid(d, name)) && GoodPath(Kid(d, name))
    modifies r
    ensures r.Tree() && r.Steady() && r.nodes == old(r.nodes)[Kid(d, name) := mirror] && d in old(r.order)
    ensures r.order == if before then AddOrder(old(r.order), d, name) else TailOrder(old(r.order), d, name)
    ensures Kept(old(r.nodes), old(r.order), r.nodes, r.order, d)
    ensures r.View() == old(r.View())[Kid(d, name) := Entry(Nil, rights)]
  {
    hide IsRegistry, Kid, GoodPath, Join, Labels, ViewOf, TailOrder, AddOrder, Kept, Leaked;
    RegistryFacts(r.heap, r.nextRef, r.root, r.nodes, r.order);
    if before {
      mirror := r.AddChild(dst, name, newPath, rights, d);
    } else {
      mirror := AddChildTail(r, dst, name, newPath, rights, d);
    }
    KeptAdd(old(r.nodes), old(r.order), r.nodes, r.order, d, name, mirror);
  }

  // A key with the same name, value and rights as another.
  method Mirror(r: Registry, dst: Ref, name: Name, newPath: string, val: Value, rights: nat, before: bool, ghost d: Path)
    returns (mirror: Ref)
    requires r.Tree() && d in r.nodes && dst == r.nodes[d] && Kid(d, name) !in r.nodes
    requires |name| < NAME_LEN && Labels(newPath, Kid(d, name)) && GoodPath(Kid(d, name))
    modifies r
    ensures r.Tree() && r.Steady() && r.nodes == old(r.nodes)[Kid(d, name) := mirror] && d in old(r.order)
    ensures r.order == if before then AddOrder(old(r.order), d, name) else TailOrder(old(r.order), d, name)
    ensures Kept(old(r.nodes), old(r.order), r.nodes, r.order, d)
    ensures r.View() == old(r.View())[Kid(d, name) := Entry(val, rights)]
  {
    hide IsRegistry, Kid, GoodPath, Join, Labels, ViewOf, Kept, Leaked;
    mirror := Attach(r, dst, name, newPath, rights, before, d);
    r.WriteKey(mirror, val, rights, Kid(d, name));
  }

  lemma FirstChild(heap: Heap, nextRef: Ref, root: Ref, nodes: Nodes, order: Order, d: Path)
    requires IsRegistry(heap, nextRef, root, nodes, order) && d in nodes
    ensures nodes[d] in heap && d in order && heap[nodes[d]].children == At(nodes, order, d, 0)
    ensures heap[nodes[d]].children == NULL <==> order[d] == []
    ensures GoodPath(d) && NULL !in heap && forall n {:trigger Kid(d, n)} :: n in order[d] <==> Kid(d, n) in nodes
  {
    hide GoodPath, At;
    ListStep(heap, nodes, order, d, 0);
    ShapeFacts(nodes, order);
    forall n ensures n in order[d] <==> Kid(d, n) in nodes { ChildListed(nodes, order, d, n); }
    assert GoodPath(d);
  }

  // ----- The program: mount

  // Source and target exist, lie apart, and the copies fit.
  ghost predicate Ready(nodes: Nodes, s: Path, d: Path) {
    s in nodes && d in nodes && Apart(s, d) && Fits(nodes, s, d)
  }

  lemma StillReady(nodes: Nodes, order: Order, nodes': Nodes, order': Order, s: Path, d: Path)
    requires Ready(nodes, s, d) && Kept(nodes, order, nodes', order', d) && d in nodes'
    ensures Ready(nodes', s, d) && nodes'[s] == nodes[s] && s in order && s in order' && order'[s] == order[s]
    ensures Subtree(nodes', s) == Subtree(nodes, s)
    ensures forall q | q in nodes && Under(s, q) :: SameKey(nodes, order, nodes', order', q)
  {
    hide GoodPath;
    KeptSubtree(nodes, order, nodes', order', s, d);
    forall q | q in nodes && Under(s, q) ensures SameKey(nodes, order, nodes', order', q) {
      assert q == s + q[|s|..];
      Comparable(d, s, q[|s|..]);
    }
    forall q | q in nodes' && Under(s, q) ensures GoodPath(Image(d, s, q)) {
      assert q in Subtree(nodes', s);
    }
  }

  // A source child and the place of its copy are again a source and a target.
  lemma ReadyBelow(nodes: Nodes, order: Order, nodes': Nodes, order': Order, s: Path, d: Path, n: Name, k: Ref)
    requires Ready(nodes, s, d) && Kept(nodes, order, nodes', order', d) && Kid(s, n) in nodes && nodes' == nodes[Kid(d, n) := k]
    ensures Ready(nodes', Kid(s, n), Kid(d, n)) && SameKey(nodes, order, nodes', order', Kid(s, n))
    ensures |Subtree(nodes', Kid(s, n))| < |Subtree(nodes, s)| && Subtree(nodes', Kid(s, n)) == Subtree(nodes, Kid(s, n))
  {
    hide Kid, GoodPath, Kept, Fits, Subtree, Under;
    KidFacts(s, n);
    StillReady(nodes, order, nodes', order', s, d);
    ApartKids(s, d, n);
    FitsBelow(nodes, nodes', s, d, n);
    SmallerSubtree(nodes, s, n);
  }

  // The text of a new key, and the texts the copy of a child goes on with.
  lemma ReadyText(nodes: Nodes, s: Path, d: Path, n: Name, srcText: string, dstText: string)
    requires Ready(nodes, s, d) && Kid(s, n) in nodes && GoodPath(Kid(s, n)) && Texts(nodes.Keys, s, d, srcText, dstText)
    ensures dstText != "/" && |n| < NAME_LEN && GoodPath(Kid(d, n)) && Labels(dstText + "/" + n, Kid(d, n))
    ensures Texts(nodes.Keys, Kid(s, n), Kid(d, n), srcText + "/" + n, dstText + "/" + n)
  {
    hide Join, Fits, Room, Segments;
    FitsBelow(nodes, nodes, s, d, n);
    assert n in Kid(s, n);
    RoomBelow(nodes.Keys, s, n, srcText, s);
    RoomBelow(nodes.Keys, s, n, dstText, d);
    GoodIsShort(Kid(d, n));
    CutShort(Kid(d, n));
    assert dstText != "/" by { SegmentsEnd("/", 1); }
  }

  // The rounds done so far: v was the map before them, `done` are the children mounted.
  ghost predicate Midway(r: Registry, v: View, s: Path, d: Path, before: bool, done: seq<Name>)
    reads r
  {
    && r.Tree() && Ready(r.nodes, s, d) && r.nodes.Values <= r.heap.Keys
    && IsPrefixClosed(v) && Mounted(v, r.View(), s, d, before, done)
  }

  // What the program reads of a key, and where it stands in the map.
  lemma KeyFacts(r: Registry, p: Path, n: Name)
    requires r.Tree() && Kid(p, n) in r.nodes
    ensures r.nodes.Values <= r.heap.Keys && r.nodes[Kid(p, n)] in r.heap && Kid(p, n) in r.order && Kid(p, n) in r.View()
    ensures
      var k := r.heap[r.nodes[Kid(p, n)]];
      k.name == n && r.View()[Kid(p, n)] == Entry(k.val, k.rights) && GoodPath(Kid(p, n))
  {
    hide GoodPath, Join, Labels, At;
    var a := Kid(p, n);
    assert KeyOk(r.heap, r.nodes, r.order, a) && GoodPath(a);
    assert Last(a) == n;
  }

  lemma InList(r: Registry, d: Path, n: Name)
    requires r.Tree() && d in r.nodes
    ensures d in r.order && (n in r.order[d] <==> Kid(d, n) in r.nodes)
  {
    hide GoodPath;
    ChildListed(r.nodes, r.order, d, n);
  }

  // One round of the loop in reg_mount, for the source child called n.
  method MountChild(r: Registry, c: Ref, dst: Ref, srcText: string, dstText: string, before: bool,
                    ghost s: Path, ghost d: Path, ghost n: Name, ghost v: View, ghost done: seq<Name>)
    requires Midway(r, v, s, d, before, done) && Texts(r.nodes.Keys, s, d, srcText, dstText) && dst == r.nodes[d]
    requires Kid(s, n) in r.nodes && c == r.nodes[Kid(s, n)] && n !in done
    requires Kid(s, n) in r.order && ChildrenAre(v, Kid(s, n), r.order[Kid(s, n)])
    modifies r
    ensures Midway(r, v, s, d, before, done + [n]) && r.Steady() && r.nodes[d] == old(r.nodes[d])
    ensures Kept(old(r.nodes), old(r.order), r.nodes, r.order, d)
    ensures d in old(r.order) && d in r.order && r.order[d] == WithChild(old(r.order)[d], n, before)
    decreases |Subtree(r.nodes, s)|, 1
  {
    hide IsRegistry, Kid, GoodPath, Join, Labels, ViewOf, Kept, Mounted, Fits, Subtree, IsPrefixClosed, ChildrenAre, Under, Leaked, Texts;
    ghost var b, v1 := Kid(d, n), r.View();
    KeyFacts(r, s, n);
    RegistryFacts(r.heap, r.nextRef, r.root, r.nodes, r.order);
    var name, val, rights := r.heap[c].name, r.heap[c].val, r.heap[c].rights;
    InList(r, d, n);
    var existing := r.FindChild(dst, name, d);
    if existing != NULL {
      MountExisting(v, v1, s, d, before, done, n);
      KeptSelf(r.nodes, r.order, d);
      if before {
        r.WriteKey(existing, val, rights, b);
        RegistryFacts(r.heap, r.nextRef, r.root, r.nodes, r.order);
      }
    } else {
      ReadyText(r.nodes, s, d, n, srcText, dstText);
      var newPath := if dstText == "/" then "/" + name else dstText + "/" + name;
      CopyChild(r, c, dst, name, val, rights, srcText + "/" + name, newPath, before, s, d, n);
      MountFresh(v, v1, r.View(), s, d, before, done, n, old(r.order)[Kid(s, n)]);
      StillReady(old(r.nodes), old(r.order), r.nodes, r.order, s, d);
    }
  }

  // A child the target does not have: mirrored, and its own children mounted on the mirror.
  method CopyChild(r: Registry, c: Ref, dst: Ref, name: Name, val: Value, rights: nat, childSrc: string, newPath: string, before: bool,
                   ghost s: Path, ghost d: Path, ghost n: Name)
    requires r.Tree() && Ready(r.nodes, s, d) && dst == r.nodes[d] && Kid(s, n) in r.nodes && c == r.nodes[Kid(s, n)]
    requires name == n && Kid(d, n) !in r.nodes && GoodPath(Kid(d, n)) && Labels(newPath, Kid(d, n)) && |n| < NAME_LEN
    requires Texts(r.nodes.Keys, Kid(s, n), Kid(d, n), childSrc, newPath)
    requires Kid(s, n) in r.order && r.nodes.Values <= r.heap.Keys
    modifies r
    ensures r.Tree() && r.Steady() && r.nodes.Values <= r.heap.Keys && d in r.nodes && r.nodes[d] == old(r.nodes[d])
    ensures Kept(old(r.nodes), old(r.order), r.nodes, r.order, d)
    ensures Mounted(old(r.View())[Kid(d, n) := Entry(val, rights)], r.View(), Kid(s, n), Kid(d, n), before, old(r.order)[Kid(s, n)])
    ensures d in old(r.order) && d in r.order && r.order[d] == if before then [n] + old(r.order)[d] else old(r.order)[d] + [n]
    decreases |Subtree(r.nodes, s)|, 0
  {
    hide IsRegistry, Kid, GoodPath, Join, Labels, ViewOf, Kept, Mounted, Fits, Subtree, Under, Leaked, Texts;
    ghost var a, b := Kid(s, n), Kid(d, n);
    KidFacts(d, n);
    var mirror := Mirror(r, dst, name, newPath, val, rights, before, d);
    ghost var nodes1, order1 := r.nodes, r.order;
    RegistryFacts(r.heap, r.nextRef, r.root, r.nodes, r.order);
    ReadyBelow(old(r.nodes), old(r.order), nodes1, order1, s, d, n, mirror);
    TextsSame(old(r.nodes), nodes1, a, b, childSrc, newPath);
    MountBelow(r, c, childSrc, newPath, before, a, b);
    KeptThen(old(r.nodes), old(r.order), nodes1, order1, r.nodes, r.order, d, b);
    ParentKept(nodes1, order1, r.nodes, r.order, d, n);
    NewFirstOrLast(old(r.order), d, n);
  }

  lemma NewFirstOrLast(order: Order, d: Path, n: Name)
    requires d in order
    ensures d in AddOrder(order, d, n) && AddOrder(order, d, n)[d] == [n] + order[d]
    ensures d in TailOrder(order, d, n) && TailOrder(order, d, n)[d] == order[d] + [n]
  {
    assert Kid(d, n) != d;
  }

  lemma ParentKept(nodes: Nodes, order: Order, nodes': Nodes, order': Order, d: Path, n: Name)
    requires Kept(nodes, order, nodes', order', Kid(d, n))
    ensures SameKey(nodes, order, nodes', order', d)
  {
    assert !Under(Kid(d, n), d);
  }

  // The recursive call of reg_mount, made only when there is something below.
  method MountBelow(r: Registry, c: Ref, srcText: string, dstText: string, before: bool, ghost s: Path, ghost d: Path)
    requires r.Tree() && Ready(r.nodes, s, d) && c == r.nodes[s] && Texts(r.nodes.Keys, s, d, srcText, dstText)
    requires r.nodes.Values <= r.heap.Keys && s in r.order
    modifies r
    ensures r.Tree() && r.Steady() && r.nodes.Values <= r.heap.Keys && Kept(old(r.nodes), old(r.order), r.nodes, r.order, d)
    ensures Mounted(old(r.View()), r.View(), s, d, before, old(r.order)[s])
    decreases |Subtree(r.nodes, s)|, 4
  {
    hide IsRegistry, Kid, GoodPath, Join, Labels, ViewOf, Kept, Mounted, Fits, Subtree, Under, WithPath, Leaked, Texts;
    RegistryFacts(r.heap, r.nextRef, r.root, r.nodes, r.order);
    FirstChild(r.heap, r.nextRef, r.root, r.nodes, r.order, s);
    FirstChild(r.heap, r.nextRef, r.root, r.nodes, r.order, d);
    if r.heap[c].children != NULL {
      ExistingPath(r.View(), d, RK_ALL);
      TextsLead(r.nodes.Keys, s, d, srcText, dstText);
      FoundShort(r, d);
      var _ := Mount(r, srcText, dstText, before);
      StillReady(old(r.nodes), old(r.order), r.nodes, r.order, s, d);
    } else {
      MountNothing(r.View(), s, d, before);
      KeptSelf(r.nodes, r.order, d);
    }
  }

  // The loop of reg_mount.
  method MountChildren(r: Registry, src: Ref, dst: Ref, srcText: string, dstText: string, before: bool, ghost s: Path, ghost d: Path)
    requires r.Tree() && Ready(r.nodes, s, d) && src == r.nodes[s] && dst == r.nodes[d]
    requires Texts(r.nodes.Keys, s, d, srcText, dstText)
    requires r.nodes.Values <= r.heap.Keys
    modifies r
    ensures r.Tree() && r.Steady() && r.nodes.Values <= r.heap.Keys && s in r.order && d in r.nodes
    ensures Mounted(old(r.View()), r.View(), s, d, before, r.order[s]) && ChildrenAre(old(r.View()), s, r.order[s])
    ensures Kept(old(r.nodes), old(r.order), r.nodes, r.order, d) && r.order[s] == old(r.order)[s]
    ensures d in old(r.order) && d in r.order && r.order[d] == Arranged(old(r.order)[d], r.order[s], before)
    decreases |Subtree(r.nodes, s)|, 2
  {
    hide Shape, Linked, At, Kid, GoodPath, Join, Labels, ViewOf, Kept, Mounted, Fits, Subtree, Under, IsPrefixClosed, ChildrenAre, Leaked, Texts, Arranged, WithChild, Distinct, Apart;
    ghost var v, nodes0, order0 := r.View(), r.nodes, r.order;
    r.ViewPrefixClosed();
    RegistryFacts(r.heap, r.nextRef, r.root, r.nodes, r.order);
    ListStep(r.heap, r.nodes, r.order, s, 0);
    KeptSelf(r.nodes, r.order, d);
    MountNothing(v, s, d, before);
    ghost var names := r.order[s];
    SourceLists(r.nodes, r.order, v, s);
    var c := r.heap[src].children;
    ghost var i := 0;
    assert names[..0] == [] && Arranged(order0[d], [], before) == order0[d] by { ArrangedNone(order0[d], before); }
    while c != NULL
      invariant i <= |names| && r.Steady() && Midway(r, v, s, d, before, names[..i]) && Kept(nodes0, order0, r.nodes, r.order, d)
      invariant s in r.order && r.order[s] == names && r.nodes[s] == src && r.nodes[d] == dst
      invariant c == At(r.nodes, r.order, s, i) && Subtree(r.nodes, s) == Subtree(nodes0, s)
      invariant d in r.order && r.order[d] == Arranged(order0[d], names[..i], before)
      decreases |names| - i
    {
      ListStep(r.heap, r.nodes, r.order, s, i);
      SourceChild(r, nodes0, order0, v, s, d, i);
      KidFacts(s, names[i]);
      ghost var nodes1, order1 := r.nodes, r.order;
      TextsSame(nodes0, r.nodes, s, d, srcText, dstText);
      ArrangedNext(order0[d], names, i, before);
      MountChild(r, c, dst, srcText, dstText, before, s, d, names[i], v, names[..i]);
      KeptThen(nodes0, order0, nodes1, order1, r.nodes, r.order, d, d);
      StillReady(nodes1, order1, r.nodes, r.order, s, d);
      ListStep(r.heap, r.nodes, r.order, s, i);
      assert names[..i] + [names[i]] == names[..i + 1];
      c := r.heap[c].next;
      i := i + 1;
    }
    ListStep(r.heap, r.nodes, r.order, s, i);
    assert names[..i] == names;
  }

  // The children of every source key are the same in the map as in the lists.
  lemma SourceLists(nodes: Nodes, order: Order, v: View, s: Path)
    requires Shape(nodes, order) && v.Keys == nodes.Keys
    ensures forall q | q in nodes :: q in order && ChildrenAre(v, q, order[q])
  {
    hide GoodPath;
    forall q, n | q in nodes ensures q in order && (n in order[q] <==> Kid(q, n) in v) {
      ChildListed(nodes, order, q, n);
    }
  }

  // The i-th source child before its round.
  lemma SourceChild(r: Registry, nodes0: Nodes, order0: Order, v: View, s: Path, d: Path, i: nat)
    requires r.Tree() && Ready(r.nodes, s, d) && Kept(nodes0, order0, r.nodes, r.order, d)
    requires Shape(nodes0, order0) && v.Keys == nodes0.Keys
    requires s in r.order && i < |r.order[s]|
    ensures
      var n := r.order[s][i];
      && n !in r.order[s][..i] && Kid(s, n) in r.nodes && Kid(s, n) in r.order
      && ChildrenAre(v, Kid(s, n), r.order[Kid(s, n)])
  {
    hide GoodPath, Kept, ChildrenAre, Fits;
    var n := r.order[s][i];
    ChildListed(r.nodes, r.order, s, n);
    ApartKids(s, d, n);
    KeptAt(nodes0, order0, r.nodes, r.order, d, Kid(s, n));
    SourceLists(nodes0, order0, v, s);
    assert Distinct(r.order[s]);
  }

  lemma KeptAt(nodes: Nodes, order: Order, nodes': Nodes, order': Order, d: Path, q: Path)
    requires Kept(nodes, order, nodes', order', d) && !Under(d, q)
    ensures SameKey(nodes, order, nodes', order', q)
  {
  }

  // A missing target is made without touching what is below the source.
  lemma PathKeepsSource(nodes: Nodes, nodes': Nodes, v: View, s: Path, d: Path)
    requires IsPrefixClosed(v) && v.Keys == nodes.Keys && nodes'.Keys == WithPath(v, d, RK_ALL).Keys
    requires Apart(s, d) && Fits(nodes, s, d) && s in nodes
    ensures d in nodes' && Subtree(nodes', s) == Subtree(nodes, s) && Ready(nodes', s, d)
  {
    hide GoodPath, WithPath, IsPrefixClosed;
    UnderSelf(d);
    forall q ensures q in nodes' <==> q in nodes || Under(q, d) {
      WithPathKeys(v, d, RK_ALL, q);
    }
  }

  // Source and target of a call lie apart, the names of the target are short, and the copies fit.
  ghost predicate Mountable(keys: set<Path>, srcText: string, dstText: string) {
    Present(keys, srcText) && Target(dstText).Some? ==>
      var s, d := Place(srcText), Place(dstText);
      Apart(s, d) && Short(d) && Room(keys, s, srcText) && Room(keys, s, dstText)
  }

  lemma TextsLead(keys: set<Path>, s: Path, d: Path, srcText: string, dstText: string)
    requires Texts(keys, s, d, srcText, dstText)
    ensures Target(srcText) == Some(s) && Target(dstText) == Some(d) && Place(srcText) == s && Place(dstText) == d
    ensures Apart(s, d) && Short(d) ==> Mountable(keys, srcText, dstText)
  {
    hide Target;
  }

  lemma FoundShort(r: Registry, p: Path)
    requires r.Tree() && p in r.nodes
    ensures Short(p)
  {
    r.FoundIsShort(p);
  }

  // A call that gets past its checks has texts that lead to source and target.
  lemma MountableTexts(r: Registry, srcText: string, dstText: string)
    requires r.Tree() && Mountable(r.nodes.Keys, srcText, dstText) && Present(r.nodes.Keys, srcText) && Target(dstText).Some?
    ensures
      var s, d := Place(srcText), Place(dstText);
      && Texts(r.nodes.Keys, s, d, srcText, dstText) && Apart(s, d) && s in r.nodes
      && Fits(r.nodes, s, d) && Short(d) && CutNames(d) == d && CutIsNew(r.nodes.Keys, d)
  {
    hide Target, Room, Shape, Fits;
    var s, d := Place(srcText), Place(dstText);
    ShortIsNew(r.nodes.Keys, d);
    TextsFit(r.nodes, r.order, s, d, srcText, dstText);
  }

  /**
   * reg_mount.  Nothing happens when the source does not exist or a text leads nowhere; a target that
   * does not exist is made first.
   */
  method Mount(r: Registry, srcText: string, dstText: string, before: bool) returns (ok: bool)
    requires r.Tree() && r.nodes.Values <= r.heap.Keys && Mountable(r.nodes.Keys, srcText, dstText)
    modifies r
    ensures r.Tree() && r.Steady() && r.nodes.Values <= r.heap.Keys
    ensures ok == (Present(old(r.nodes).Keys, srcText) && Target(dstText).Some?)
    ensures !ok ==> r.View() == old(r.View())
    ensures ok ==>
      var s, d, v := Place(srcText), Place(dstText), WithPath(old(r.View()), Place(dstText), RK_ALL);
      && s in r.order && d in r.nodes && r.View() == MountView(v, s, d, before)
      && Mounted(v, r.View(), s, d, before, r.order[s])
    ensures ok && Place(dstText) in old(r.nodes) ==>
      var s, d := Place(srcText), Place(dstText);
      s in old(r.order) && d in old(r.order) && d in r.order && r.order[d] == Arranged(old(r.order)[d], old(r.order)[s], before)
    ensures ok && Place(dstText) in old(r.nodes) ==> Kept(old(r.nodes), old(r.order), r.nodes, r.order, Place(dstText))
    decreases |Subtree(r.nodes, Place(srcText))|, 3
  {
    hide IsRegistry, Kid, ViewOf, Kept, Mounted, MountView, ChildrenAre, Fits, Subtree, Under, IsPrefixClosed, WithPath, Target, Mountable, Texts, CutNames, CutIsNew, Apart, Leaked;
    RegistryFacts(r.heap, r.nextRef, r.root, r.nodes, r.order);
    r.ViewPrefixClosed();
    ghost var v, s, d := r.View(), Place(srcText), Place(dstText);
    KeptSelf(r.nodes, r.order, d);
    if Present(r.nodes.Keys, srcText) && Target(dstText).Some? { MountableTexts(r, srcText, dstText); }
    var src := r.Lookup(srcText);
    if src == NULL { return false; }
    var dst := r.Lookup(dstText);
    if dst == NULL {
      NowhereIsNew(r.nodes.Keys, dstText);
      dst := r.MkPath(dstText, RK_ALL);
    } else {
      ExistingPath(v, d, RK_ALL);
    }
    RegistryFacts(r.heap, r.nextRef, r.root, r.nodes, r.order);
    if dst == NULL { return false; }
    PathKeepsSource(old(r.nodes), r.nodes, v, s, d);
    TextsSame(old(r.nodes), r.nodes, s, d, srcText, dstText);
    ghost var base := r.View();
    MountChildren(r, src, dst, srcText, dstText, before, s, d);
    MountedIsView(base, r.View(), s, d, before, r.order[s]);
    return true;
  }

  lemma NowhereIsNew(keys: set<Path>, path: string)
    ensures Target(path).None? ==> CutIsNew(keys, Place(path))
  {
    hide Target;
  }
}
