/**
 The shape of the registry of registry/registry.c: a tree of keys linked by parent, first-child and
 next-sibling pointers.

 The memory that the keys live in is a map from addresses to key records.  Two more maps name
 every key by its segments (`Nodes`) and give the order of every child list (`Order`).  `Shape` is
 what holds of these two alone and `Linked` says that the pointers follow them, so that the pointer
 tree is a prefix-closed map from segment lists to values and rights (`View`).
 */
module RegistryShape {
  import opened RegistryPaths
  import opened Wire
  import opened Wrappers

  type Ref = nat
  const NULL: Ref := 0

  datatype Key = Key(name: Name, path: string, val: Value, rights: nat, parent: Ref, children: Ref, next: Ref)

  type Heap = map<Ref, Key>

  const RK_ALL := 15
  const NOT_FOUND := Err(3, [])

  // ----- The two maps

  type Nodes = map<Path, Ref>
  type Order = map<Path, seq<Name>>

  function Up(p: Path): Path
    requires p != []
  {
    p[..|p| - 1]
  }

  function Last(p: Path): Name
    requires p != []
  {
    p[|p| - 1]
  }

  function Kid(p: Path, n: Name): Path { p + [n] }

  // q is p or lies below it.
  predicate Under(p: Path, q: Path) { p <= q }

  // Every key but the root is listed once by its parent, and lists hold nothing else.
  ghost predicate ListsChildren(order: Order) {
    && [] in order
    && (forall p {:trigger Up(p)} | p in order && p != [] :: Up(p) in order && Last(p) in order[Up(p)])
    && (forall p, n {:trigger Kid(p, n)} | p in order && n in order[p] :: Kid(p, n) in order)
    && (forall p {:trigger Distinct(order[p])} | p in order :: Distinct(order[p]))
  }

  ghost predicate Distinct(names: seq<Name>) {
    forall i, j | 0 <= i < j < |names| :: names[i] != names[j]
  }

  ghost predicate Injective(nodes: Nodes) {
    forall p, q | p in nodes && q in nodes && p != q :: nodes[p] != nodes[q]
  }

  ghost predicate Shape(nodes: Nodes, order: Order) {
    && nodes.Keys == order.Keys
    && NULL !in nodes.Values && (forall p {:trigger GoodPath(p)} | p in nodes :: GoodPath(p))
    && ListsChildren(order) && Injective(nodes)
  }

  lemma ShapeFacts(nodes: Nodes, order: Order)
    requires Shape(nodes, order)
    ensures nodes.Keys == order.Keys && [] in nodes && Injective(nodes) && NULL !in nodes.Values
    ensures forall p {:trigger GoodPath(p)} | p in nodes :: GoodPath(p)
  {
  }

  lemma ChildListed(nodes: Nodes, order: Order, p: Path, n: Name)
    requires Shape(nodes, order) && p in nodes
    ensures p in order && (Kid(p, n) in nodes <==> n in order[p])
    ensures Up(Kid(p, n)) == p && Last(Kid(p, n)) == n
  {
    var q := Kid(p, n);
    assert Up(q) == p && Last(q) == n;
  }

  // The keys form a prefix-closed set.
  lemma {:induction false} PrefixClosed(nodes: Nodes, order: Order, p: Path, q: Path)
    requires Shape(nodes, order) && q in nodes && p <= q
    ensures p in nodes
    decreases |q|
  {
    if p != q {
      PrefixClosed(nodes, order, p, Up(q));
    }
  }

  // ----- The pointers

  // The i-th child of p, or NULL past the end of the list.
  ghost function At(nodes: Nodes, order: Order, p: Path, i: nat): Ref {
    if p in order && i < |order[p]| && Kid(p, order[p][i]) in nodes then nodes[Kid(p, order[p][i])] else NULL
  }

  // The pointers of the key at p, and of its i-th child.
  ghost predicate KeyOk(heap: Heap, nodes: Nodes, order: Order, p: Path)
    requires p in nodes && nodes[p] in heap
  {
    var k := heap[nodes[p]];
    && Labels(k.path, p) && k.children == At(nodes, order, p, 0)
    && if p == [] then k.parent == NULL && k.next == NULL else Up(p) in nodes && k.name == Last(p) && k.parent == nodes[Up(p)]
  }

  ghost predicate NextOk(heap: Heap, nodes: Nodes, order: Order, p: Path, i: nat)
    requires p in order && i < |order[p]|
  {
    var q := Kid(p, order[p][i]);
    q in nodes && nodes[q] in heap && heap[nodes[q]].next == At(nodes, order, p, i + 1)
  }

  ghost predicate Linked(heap: Heap, nodes: Nodes, order: Order) {
    && nodes.Values <= heap.Keys && nodes.Keys == order.Keys
    && (forall p {:trigger KeyOk(heap, nodes, order, p)} | p in nodes :: KeyOk(heap, nodes, order, p))
    && (forall p, i: nat {:trigger NextOk(heap, nodes, order, p, i)} | p in order && i < |order[p]| :: NextOk(heap, nodes, order, p, i))
  }

  // What the pointers say about the i-th child of p.
  lemma ListStep(heap: Heap, nodes: Nodes, order: Order, p: Path, i: nat)
    requires Shape(nodes, order) && Linked(heap, nodes, order) && p in nodes
    ensures p in order && nodes[p] in heap && heap[nodes[p]].children == At(nodes, order, p, 0)
    ensures At(nodes, order, p, i) == NULL <==> i >= |order[p]|
    ensures i < |order[p]| ==>
      var q := Kid(p, order[p][i]);
      && q in nodes && At(nodes, order, p, i) == nodes[q] && nodes[q] in heap
      && heap[nodes[q]].name == order[p][i] && heap[nodes[q]].parent == nodes[p]
      && heap[nodes[q]].next == At(nodes, order, p, i + 1)
  {
    hide GoodPath, Join, Labels;
    assert KeyOk(heap, nodes, order, p);
    if i < |order[p]| {
      ChildListed(nodes, order, p, order[p][i]);
      assert KeyOk(heap, nodes, order, Kid(p, order[p][i]));
      assert NextOk(heap, nodes, order, p, i);
    }
  }

  // ----- Adding a key in front of a child list

  ghost function AddOrder(order: Order, p: Path, n: Name): Order
    requires p in order
  {
    order[p := [n] + order[p]][Kid(p, n) := []]
  }

  lemma ListsAdd(order: Order, p: Path, n: Name)
    requires ListsChildren(order) && p in order && Kid(p, n) !in order
    ensures ListsChildren(AddOrder(order, p, n))
  {
    var q := Kid(p, n);
    var order' := AddOrder(order, p, n);
    assert Up(q) == p && Last(q) == n && Distinct(order[p]) && n !in order[p];
    forall x | x in order' && x != [] ensures Up(x) in order' && Last(x) in order'[Up(x)] {
      if x != q {
        assert Up(x) in order && Last(x) in order[Up(x)];
      }
    }
    forall x, m | x in order' && m in order'[x] ensures Kid(x, m) in order' {
      if x != q && !(x == p && m == n) {
        assert m in order[x];
      }
    }
    forall x | x in order' ensures Distinct(order'[x]) {
      if x == p { DistinctCons(order[p], n); } else if x != q { assert Distinct(order[x]); }
    }
  }

  lemma DistinctCons(names: seq<Name>, n: Name)
    requires Distinct(names) && n !in names
    ensures Distinct([n] + names) && Distinct(names + [n])
  {
  }

  lemma ShapeAdd(nodes: Nodes, order: Order, p: Path, n: Name, k: Ref)
    requires Shape(nodes, order) && p in nodes && Kid(p, n) !in nodes && GoodPath(Kid(p, n))
    requires k != NULL && k !in nodes.Values
    ensures Shape(nodes[Kid(p, n) := k], AddOrder(order, p, n))
  {
    hide GoodPath, ListsChildren;
    ListsAdd(order, p, n);
  }

  // The child lists after adding a key: one place further on under p, the same elsewhere.
  lemma AtAdd(nodes: Nodes, order: Order, p: Path, n: Name, k: Ref, x: Path, i: nat)
    requires Shape(nodes, order) && p in nodes && Kid(p, n) !in nodes && x in nodes
    ensures At(nodes[Kid(p, n) := k], AddOrder(order, p, n), p, 0) == k
    ensures At(nodes[Kid(p, n) := k], AddOrder(order, p, n), x, if x == p then i + 1 else i) == At(nodes, order, x, i)
    ensures At(nodes[Kid(p, n) := k], AddOrder(order, p, n), Kid(p, n), i) == NULL
  {
    hide GoodPath;
    ChildListed(nodes, order, p, n);
    assert x != p && i < |order[x]| ==> Kid(x, order[x][i]) in nodes;
    assert x == p && i < |order[p]| ==> Kid(p, order[p][i]) in nodes && Kid(p, order[p][i]) != Kid(p, n);
  }

  ghost predicate Added(heap: Heap, heap': Heap, nodes: Nodes, p: Path, n: Name, k: Ref)
    requires p in nodes && nodes[p] in heap
  {
    && k in heap' && heap'.Keys == heap.Keys + {k}
    && heap'[k].name == n && Labels(heap'[k].path, Kid(p, n)) && heap'[k].parent == nodes[p]
    && heap'[k].children == NULL && heap'[k].next == heap[nodes[p]].children
    && heap'[nodes[p]] == heap[nodes[p]].(children := k)
    && forall r | r in heap && r != nodes[p] :: heap'[r] == heap[r]
  }

  lemma KeyAdd(heap: Heap, heap': Heap, nodes: Nodes, order: Order, p: Path, n: Name, k: Ref, x: Path)
    requires Shape(nodes, order) && Linked(heap, nodes, order) && p in nodes && Kid(p, n) !in nodes
    requires k !in heap && nodes[p] in heap && Added(heap, heap', nodes, p, n, k)
    requires x in nodes || x == Kid(p, n)
    ensures nodes[Kid(p, n) := k][x] in heap'
    ensures KeyOk(heap', nodes[Kid(p, n) := k], AddOrder(order, p, n), x)
  {
    hide Shape, GoodPath, Join, Labels, At, AddOrder;
    var q := Kid(p, n);
    ShapeFacts(nodes, order);
    ChildListed(nodes, order, p, n);
    if x == q {
      AtAdd(nodes, order, p, n, k, p, 0);
    } else {
      assert KeyOk(heap, nodes, order, x);
      AtAdd(nodes, order, p, n, k, x, 0);
      assert x != [] ==> Up(x) != q;
    }
  }

  lemma NextAdd(heap: Heap, heap': Heap, nodes: Nodes, order: Order, p: Path, n: Name, k: Ref, x: Path, i: nat)
    requires Shape(nodes, order) && Linked(heap, nodes, order) && p in nodes && Kid(p, n) !in nodes
    requires k !in heap && nodes[p] in heap && Added(heap, heap', nodes, p, n, k)
    requires x in AddOrder(order, p, n) && i < |AddOrder(order, p, n)[x]|
    ensures NextOk(heap', nodes[Kid(p, n) := k], AddOrder(order, p, n), x, i)
  {
    hide GoodPath, Join, Labels, At, Shape;
    ShapeFacts(nodes, order);
    var q := Kid(p, n);
    if x == p && i == 0 {
      AtAdd(nodes, order, p, n, k, p, 0);
      assert KeyOk(heap, nodes, order, p);
    } else {
      var j := if x == p then i - 1 else i;
      assert NextOk(heap, nodes, order, x, j);
      AtAdd(nodes, order, p, n, k, x, j + 1);
    }
  }

  lemma LinkedAdd(heap: Heap, heap': Heap, nodes: Nodes, order: Order, p: Path, n: Name, k: Ref)
    requires Shape(nodes, order) && Linked(heap, nodes, order) && p in nodes && Kid(p, n) !in nodes
    requires k !in heap && nodes[p] in heap && Added(heap, heap', nodes, p, n, k)
    ensures Linked(heap', nodes[Kid(p, n) := k], AddOrder(order, p, n))
  {
    hide Shape, KeyOk, NextOk;
    ShapeFacts(nodes, order);
    var q := Kid(p, n);
    var nodes', order' := nodes[q := k], AddOrder(order, p, n);
    forall x | x in nodes' ensures nodes'[x] in heap' && KeyOk(heap', nodes', order', x) {
      KeyAdd(heap, heap', nodes, order, p, n, k, x);
    }
    forall x, i: nat | x in order' && i < |order'[x]| ensures NextOk(heap', nodes', order', x, i) {
      NextAdd(heap, heap', nodes, order, p, n, k, x, i);
    }
    ValuesWith(nodes, q, k);
  }

  // ----- The registry as a map

  datatype Entry = Entry(val: Value, rights: nat)
  type View = map<Path, Entry>

  ghost function ViewOf(heap: Heap, nodes: Nodes): (v: View)
    requires nodes.Values <= heap.Keys
    ensures v.Keys == nodes.Keys
  {
    map p <- nodes :: Entry(heap[nodes[p]].val, heap[nodes[p]].rights)
  }

  // No key has moved or gone.
  ghost predicate Grown(nodes: Nodes, nodes': Nodes) {
    forall q | q in nodes :: q in nodes' && nodes'[q] == nodes[q]
  }

  lemma GrownSelf(nodes: Nodes)
    ensures Grown(nodes, nodes)
  {
  }

  lemma GrownAdd(nodes: Nodes, q: Path, k: Ref)
    requires q !in nodes
    ensures Grown(nodes, nodes[q := k])
  {
  }

  lemma GrownThen(a: Nodes, b: Nodes, c: Nodes)
    requires Grown(a, b) && Grown(b, c)
    ensures Grown(a, c)
  {
  }

  // The segments a path text leads along, if lookup accepts it at all.
  function Target(path: string): Option<Path> {
    if path == "" || path[0] != '/' then None else Some(Segments(Clip(path), 1))
  }

  // The place a path text leads to; texts that lead nowhere are sorted out first.
  function Place(path: string): Path { if Target(path).Some? then Target(path).value else [] }

  predicate Present(keys: set<Path>, path: string) { Target(path).Some? && Place(path) in keys }

  // No key has the name that a name too long would be cut to.
  ghost predicate CutIsNew(keys: set<Path>, p: Path) {
    forall m | 0 <= m < |p| && |p[m]| >= NAME_LEN :: CutNames(p[..m + 1]) !in keys
  }

  lemma GoodIsShort(p: Path)
    requires GoodPath(p)
    ensures Short(p)
  {
  }

  // Once its cut names are there, a path with a long name is not new.
  lemma LongIsOld(v: View, p: Path)
    requires !Short(p) && CutNames(p) in v && IsPrefixClosed(v)
    ensures !CutIsNew(v.Keys, p)
  {
    var n :| n in p && |n| >= NAME_LEN;
    var m :| 0 <= m < |p| && p[m] == n;
    assert CutNames(p[..m + 1]) == CutNames(p)[..m + 1];
    assert Under(CutNames(p[..m + 1]), CutNames(p));
  }

  // One round of mkpath: the next key has a path within the limits, and a cut name is new.
  lemma MkStep(buf: string, target: Path, view: View, f: Path, seg: Name, rights: nat)
    requires buf != "" && |buf| < REG_PATH_MAX && target == Segments(buf, 1) && Kid(f, seg) <= target
    requires IsPrefixClosed(view) && CutIsNew(view.Keys, target)
    ensures CutNames(Kid(f, seg)) == Kid(CutNames(f), CutName(seg)) && forall n <- f :: 0 < |n|
    ensures GoodPath(Kid(CutNames(f), CutName(seg))) && Labels(Join(Kid(f, seg)), Kid(CutNames(f), CutName(seg)))
    ensures |seg| < NAME_LEN || Kid(CutNames(f), CutName(seg)) !in WithPath(view, CutNames(f), rights)
  {
    hide Segments, GoodPath, Labels, Join, WithPath, IsPrefixClosed, CutNames;
    CutKid(f, seg);
    CutIsGood(buf, Kid(f, seg));
    assert forall n <- f :: n in Kid(f, seg);
    if |seg| >= NAME_LEN {
      var q := CutNames(f);
      assert target[|f|] == seg && target[..|f| + 1] == Kid(f, seg);
      WithPathKeys(view, q, rights, Kid(q, CutName(seg)));
    }
  }

  lemma ShortIsNew(keys: set<Path>, p: Path)
    requires Short(p)
    ensures CutIsNew(keys, p) && CutNames(p) == p
  {
    CutShort(p);
  }

  // A map with p and every missing key above it added, as mkpath adds them.
  ghost function WithPath(view: View, p: Path, rights: nat): (v: View)
    ensures p in v || p == []
    ensures forall q | q in view :: q in v && v[q] == view[q]
  {
    if p == [] || p in view then view
    else WithPath(view, Up(p), rights)[p := Entry(Nil, rights)]
  }

  // Adding a path adds exactly the missing prefixes, each holding nil.
  lemma {:induction false} WithPathKeys(view: View, p: Path, rights: nat, q: Path)
    requires IsPrefixClosed(view)
    ensures q in WithPath(view, p, rights) <==> q in view || Under(q, p)
    ensures q !in view && Under(q, p) ==> WithPath(view, p, rights)[q] == Entry(Nil, rights)
    decreases |p|
  {
    if p != [] && p !in view {
      WithPathKeys(view, Up(p), rights, q);
      assert Under(q, p) <==> Under(q, Up(p)) || q == p;
    } else if p != [] {
      assert Under(q, p) ==> q in view;
    }
  }

  ghost predicate IsPrefixClosed(view: View) {
    [] in view && forall x, y {:trigger Under(x, y)} | y in view && Under(x, y) :: x in view
  }

  lemma ExistingPrefix(view: View, q: Path, k: Path, rights: nat)
    requires IsPrefixClosed(view) && Under(q, k)
    ensures k in view ==> WithPath(view, q, rights) == view
  {
  }

  // One step of mkpath on the map.
  lemma WithPathStep(view: View, q: Path, n: Name, rights: nat)
    requires IsPrefixClosed(view)
    ensures Kid(q, n) in WithPath(view, q, rights) <==> Kid(q, n) in view
    ensures WithPath(view, Kid(q, n), rights) ==
              if Kid(q, n) in view then WithPath(view, q, rights)
              else WithPath(view, q, rights)[Kid(q, n) := Entry(Nil, rights)]
  {
    var k := Kid(q, n);
    WithPathKeys(view, q, rights, k);
    assert Up(k) == q && Under(q, k) && !Under(k, q);
    ExistingPrefix(view, q, k, rights);
  }

  lemma RootOnly(k: Ref, key: Key)
    requires k != NULL && key == Key("/", "/", Nil, RK_ALL, NULL, NULL, NULL)
    ensures Shape(map[[] := k], map[[] := []])
    ensures Linked(map[k := key], map[[] := k], map[[] := []])
  {
  }

  lemma LinkedFacts(heap: Heap, nodes: Nodes, order: Order)
    requires Linked(heap, nodes, order)
    ensures nodes.Values <= heap.Keys && nodes.Keys == order.Keys
  {
  }

  // The two writes of regkey_add_child, and what they leave of the map.
  lemma AddedByUpdate(heap: Heap, heap': Heap, nodes: Nodes, p: Path, n: Name, text: string, k: Ref, rights: nat)
    requires Labels(text, Kid(p, n)) && p in nodes && Kid(p, n) !in nodes && nodes.Values <= heap.Keys && k !in heap && Injective(nodes)
    requires var parent := nodes[p];
      heap' == heap[k := Key(n, text, Nil, rights, parent, NULL, heap[parent].children)]
                   [parent := heap[parent].(children := k)]
    ensures Added(heap, heap', nodes, p, n, k)
    ensures nodes[Kid(p, n) := k].Values <= heap'.Keys
    ensures ViewOf(heap', nodes[Kid(p, n) := k]) == ViewOf(heap, nodes)[Kid(p, n) := Entry(Nil, rights)]
    ensures |nodes[Kid(p, n) := k]| == |nodes| + 1
    ensures [] in nodes ==> nodes[Kid(p, n) := k][[]] == nodes[[]]
  {
    hide Join, Labels;
    var q := Kid(p, n);
    assert nodes[q := k].Keys == nodes.Keys + {q};
    forall x | x in nodes ensures ViewOf(heap', nodes[q := k])[x] == ViewOf(heap, nodes)[x] {
      assert nodes[x] in heap && nodes[x] != k;
    }
  }

  // ----- Removing a subtree

  ghost function Subtree(nodes: Nodes, p: Path): (tree: set<Path>)
    ensures tree <= nodes.Keys
  {
    set q <- nodes | Under(p, q)
  }

  ghost function RefsOf(nodes: Nodes, paths: set<Path>): set<Ref>
    requires paths <= nodes.Keys
  {
    set q <- paths :: nodes[q]
  }

  // The i-th name taken out of the list that held it, and the lists below it dropped.
  ghost function CutOrder(order: Order, p: Path, i: nat): Order
    requires p != [] && Up(p) in order && i < |order[Up(p)]|
  {
    (order - (set q <- order | Under(p, q)))[Up(p) := order[Up(p)][..i] + order[Up(p)][i + 1..]]
  }

  lemma UnderUp(p: Path, x: Path)
    requires x != [] && Under(p, Up(x))
    ensures Under(p, x)
  {
  }

  lemma UnderKid(p: Path, x: Path, n: Name)
    ensures Under(p, Kid(x, n)) <==> Under(p, x) || p == Kid(x, n)
  {
    if Under(p, Kid(x, n)) && p != Kid(x, n) {
      assert |p| <= |x| && Kid(x, n)[..|x|] == x;
    }
  }

  lemma ListsCut(order: Order, p: Path, i: nat)
    requires ListsChildren(order) && p in order && p != [] && Up(p) in order && i < |order[Up(p)]| && order[Up(p)][i] == Last(p)
    ensures ListsChildren(CutOrder(order, p, i))
  {
    hide Under;
    var up := Up(p);
    var order' := CutOrder(order, p, i);
    assert Distinct(order[up]);
    UpNotUnder(p);
    forall x | x in order' && x != [] ensures Up(x) in order' && Last(x) in order'[Up(x)] {
      assert x in order && !Under(p, x);
      if Under(p, Up(x)) { UnderUp(p, x); }
      assert Up(x) in order && Last(x) in order[Up(x)];
      if Up(x) == up && Last(x) == Last(p) { SameUpAndLast(x, p); }
    }
    forall x, n | x in order' && n in order'[x] ensures Kid(x, n) in order' {
      assert x in order && n in order[x];
      assert Kid(x, n) in order;
      UnderKid(p, x, n);
      assert Last(Kid(x, n)) == n && Up(Kid(x, n)) == x;
    }
    forall x | x in order' ensures Distinct(order'[x]) {
      if x == up { DistinctWithout(order[up], i); } else { assert Distinct(order[x]); }
    }
  }

  lemma DistinctWithout(names: seq<Name>, i: nat)
    requires i < |names| && Distinct(names)
    ensures Distinct(names[..i] + names[i + 1..])
    ensures names[i] !in names[..i] + names[i + 1..]
  {
  }

  lemma UpNotUnder(p: Path)
    requires p != []
    ensures !Under(p, Up(p)) && Under(p, p) && !Under(p, [])
  {
  }

  lemma SameUpAndLast(x: Path, p: Path)
    requires x != [] && p != [] && Up(x) == Up(p) && Last(x) == Last(p)
    ensures x == p && Under(p, x)
  {
    assert x == Up(x) + [Last(x)] && p == Up(p) + [Last(p)];
  }

  lemma ShapeCut(nodes: Nodes, order: Order, p: Path, i: nat)
    requires Shape(nodes, order) && p in nodes && p != [] && Up(p) in order && i < |order[Up(p)]| && order[Up(p)][i] == Last(p)
    ensures Shape(nodes - Subtree(nodes, p), CutOrder(order, p, i))
  {
    hide GoodPath, ListsChildren, Under;
    ListsCut(order, p, i);
    UpNotUnder(p);
  }

  // The child lists after the cut: one place shorter above p, the same elsewhere.
  lemma AtCut(nodes: Nodes, order: Order, p: Path, i: nat, x: Path, j: nat)
    requires Shape(nodes, order) && p in nodes && p != [] && Up(p) in order && i < |order[Up(p)]| && order[Up(p)][i] == Last(p)
    requires x in nodes && !Under(p, x)
    ensures At(nodes - Subtree(nodes, p), CutOrder(order, p, i), x, j)
         == At(nodes, order, x, if x == Up(p) && j >= i then j + 1 else j)
  {
    hide GoodPath, Under;
    UpNotUnder(p);
    ShapeCut(nodes, order, p, i);
    var order' := CutOrder(order, p, i);
    if j < |order'[x]| {
      var n := order'[x][j];
      assert n == order[x][if x == Up(p) && j >= i then j + 1 else j];
      assert Kid(x, n) in order';
    }
  }

  // The pointer that reg_delete rewrites: the one that led to the i-th child of Up(p).
  ghost predicate Unlinked(heap: Heap, heap': Heap, nodes: Nodes, order: Order, up: Path, i: nat)
    requires up in nodes && up in order && nodes[up] in heap && i < |order[up]|
  {
    if i == 0 then heap' == heap[nodes[up] := heap[nodes[up]].(children := At(nodes, order, up, 1))]
    else
      var prev := At(nodes, order, up, i - 1);
      prev in heap && heap' == heap[prev := heap[prev].(next := At(nodes, order, up, i + 1))]
  }

  // p can be cut out of its parent's list, where it is number i.
  ghost predicate Removable(nodes: Nodes, order: Order, p: Path, i: nat) {
    && Shape(nodes, order) && p in nodes && p != [] && Up(p) in nodes && Up(p) in order
    && i < |order[Up(p)]| && order[Up(p)][i] == Last(p)
  }

  // Memory after the pointer to p has been rewritten and some keys under p have been freed.
  ghost predicate CutFrom(heap: Heap, heap': Heap, nodes: Nodes, order: Order, p: Path, i: nat)
    requires Removable(nodes, order, p, i) && nodes.Values <= heap.Keys
  {
    exists mid, gone :: FreedUnder(mid, heap', nodes, p, gone) && Unlinked(heap, mid, nodes, order, Up(p), i)
  }

  ghost predicate FreedUnder(mid: Heap, heap': Heap, nodes: Nodes, p: Path, gone: set<Path>) {
    gone <= Subtree(nodes, p) && heap' == mid - RefsOf(nodes, gone)
  }

  // The keys outside the subtree are still there, and only one pointer of one of them has changed.
  lemma CutFields(heap: Heap, heap': Heap, nodes: Nodes, order: Order, p: Path, i: nat, x: Path)
    requires Removable(nodes, order, p, i) && Linked(heap, nodes, order) && CutFrom(heap, heap', nodes, order, p, i)
    requires x in nodes && !Under(p, x)
    ensures nodes[x] in heap' && nodes[x] in heap
    ensures var k, k' := heap[nodes[x]], heap'[nodes[x]];
      && k'.name == k.name && k'.path == k.path && k'.parent == k.parent && k'.val == k.val && k'.rights == k.rights
      && k'.children == (if x == Up(p) && i == 0 then At(nodes, order, Up(p), 1) else k.children)
      && k'.next == (if i > 0 && nodes[x] == At(nodes, order, Up(p), i - 1) then At(nodes, order, Up(p), i + 1) else k.next)
  {
    hide GoodPath, Join, Labels, Under, ListsChildren;
    var mid, gone :| FreedUnder(mid, heap', nodes, p, gone) && Unlinked(heap, mid, nodes, order, Up(p), i);
    assert nodes[x] !in RefsOf(nodes, gone);
  }

  lemma KeyCut(heap: Heap, heap': Heap, nodes: Nodes, order: Order, p: Path, i: nat, x: Path)
    requires Removable(nodes, order, p, i) && Linked(heap, nodes, order) && CutFrom(heap, heap', nodes, order, p, i)
    requires x in nodes && !Under(p, x) && nodes[x] in heap'
    ensures x in nodes - Subtree(nodes, p)
    ensures KeyOk(heap', nodes - Subtree(nodes, p), CutOrder(order, p, i), x)
  {
    hide GoodPath, Join, Labels, Under, Shape, CutFrom, At, CutOrder;
    CutFields(heap, heap', nodes, order, p, i, x);
    assert KeyOk(heap, nodes, order, x);
    AtCut(nodes, order, p, i, x, 0);
    UpNotUnder(p);
    NextChangesOnlySibling(heap, nodes, order, p, i, x);
    if x != [] && Under(p, Up(x)) { UnderUp(p, x); }
  }

  // The root is no one's sibling.
  lemma NextChangesOnlySibling(heap: Heap, nodes: Nodes, order: Order, p: Path, i: nat, x: Path)
    requires Removable(nodes, order, p, i) && Linked(heap, nodes, order) && x in nodes
    ensures x == [] && i > 0 ==> nodes[x] != At(nodes, order, Up(p), i - 1)
  {
    hide GoodPath;
    if i > 0 {
      ListStep(heap, nodes, order, Up(p), i - 1);
    }
  }

  lemma NextCut(heap: Heap, heap': Heap, nodes: Nodes, order: Order, p: Path, i: nat, x: Path, j: nat)
    requires Removable(nodes, order, p, i) && Linked(heap, nodes, order) && CutFrom(heap, heap', nodes, order, p, i)
    requires x in nodes && !Under(p, x) && x in CutOrder(order, p, i) && j < |CutOrder(order, p, i)[x]|
    ensures NextOk(heap', nodes - Subtree(nodes, p), CutOrder(order, p, i), x, j)
  {
    hide GoodPath, Under, CutFrom, Linked, Shape, At, Subtree, CutOrder, Kid;
    var old_j := if x == Up(p) && j >= i then j + 1 else j;
    var q := KidCut(nodes, order, p, i, x, j);
    CutFields(heap, heap', nodes, order, p, i, q);
    AtCut(nodes, order, p, i, x, j + 1);
    ListStep(heap, nodes, order, x, old_j);
    if i > 0 {
      AtDistinct(nodes, order, x, old_j, Up(p), i - 1);
    }
  }

  lemma KidCut(nodes: Nodes, order: Order, p: Path, i: nat, x: Path, j: nat) returns (q: Path)
    requires Removable(nodes, order, p, i)
    requires x in nodes && !Under(p, x) && x in CutOrder(order, p, i) && j < |CutOrder(order, p, i)[x]|
    ensures var old_j := if x == Up(p) && j >= i then j + 1 else j;
      && x in order && old_j < |order[x]| && CutOrder(order, p, i)[x][j] == order[x][old_j]
      && q == Kid(x, order[x][old_j]) && q in nodes && !Under(p, q) && q in nodes - Subtree(nodes, p)
  {
    hide GoodPath, Under;
    ShapeCut(nodes, order, p, i);
    UpNotUnder(p);
    q := Kid(x, CutOrder(order, p, i)[x][j]);
    assert q in CutOrder(order, p, i);
  }

  // Different places in the child lists hold different keys.
  lemma AtDistinct(nodes: Nodes, order: Order, x: Path, a: nat, y: Path, b: nat)
    requires Shape(nodes, order) && x in order && y in order && a < |order[x]| && b < |order[y]|
    ensures At(nodes, order, x, a) == At(nodes, order, y, b) ==> x == y && a == b
  {
    hide GoodPath;
    var p, q := Kid(x, order[x][a]), Kid(y, order[y][b]);
    assert p in order && q in order;
    assert Up(p) == x && Up(q) == y && Last(p) == order[x][a] && Last(q) == order[y][b];
    assert Distinct(order[x]);
  }

  lemma LinkedCut(heap: Heap, heap': Heap, nodes: Nodes, order: Order, p: Path, i: nat)
    requires Removable(nodes, order, p, i) && Linked(heap, nodes, order) && CutFrom(heap, heap', nodes, order, p, i)
    ensures Linked(heap', nodes - Subtree(nodes, p), CutOrder(order, p, i))
  {
    hide GoodPath, Under, KeyOk, NextOk, At, CutFrom, ListsChildren;
    var nodes', order' := nodes - Subtree(nodes, p), CutOrder(order, p, i);
    forall x | x in nodes' ensures nodes'[x] in heap' && KeyOk(heap', nodes', order', x) {
      CutFields(heap, heap', nodes, order, p, i, x);
      KeyCut(heap, heap', nodes, order, p, i, x);
    }
    ShapeCut(nodes, order, p, i);
    forall x, j: nat | x in order' && j < |order'[x]| ensures NextOk(heap', nodes', order', x, j) {
      assert x in nodes';
      NextCut(heap, heap', nodes, order, p, i, x, j);
    }
  }

  // ----- Freeing a subtree with an explicit stack

  const FREE_STACK_MAX := 1024

  // The paths of tree that lie under some path on the stack.
  ghost function Covered(tree: set<Path>, stack: seq<Path>): set<Path> {
    set q <- tree | exists i :: 0 <= i < |stack| && Under(stack[i], q)
  }

  // No path on the stack lies under another.
  ghost predicate Separate(stack: seq<Path>) {
    forall i, j | 0 <= i < |stack| && 0 <= j < |stack| && i != j :: !Under(stack[i], stack[j])
  }

  ghost function Kids(q: Path, names: seq<Name>): (ps: seq<Path>)
    ensures |ps| == |names| && forall i | 0 <= i < |names| :: ps[i] == Kid(q, names[i])
  {
    seq(|names|, i requires 0 <= i < |names| => Kid(q, names[i]))
  }

  // ----- How far the stack reaches

  function IndexIn(names: seq<Name>, n: Name): (i: nat)
    ensures i <= |names| && (i < |names| ==> names[i] == n)
  {
    if names == [] || names[0] == n then 0 else 1 + IndexIn(names[1..], n)
  }

  lemma {:induction false} IndexAt(names: seq<Name>, i: nat)
    requires Distinct(names) && i < |names|
    ensures IndexIn(names, names[i]) == i
  {
    if i > 0 { IndexAt(names[1..], i - 1); }
  }

  // The number of siblings in front of q and of every key above it.
  ghost function Rank(order: Order, q: Path): nat {
    if q == [] then 0 else Rank(order, Up(q)) + if Up(q) in order then IndexIn(order[Up(q)], Last(q)) else 0
  }

  lemma RankKid(nodes: Nodes, order: Order, q: Path, j: nat)
    requires Shape(nodes, order) && q in order && j < |order[q]|
    ensures Rank(order, Kid(q, order[q][j])) == Rank(order, q) + j
  {
    hide GoodPath;
    var kid := Kid(q, order[q][j]);
    assert Up(kid) == q && Last(kid) == order[q][j] && Distinct(order[q]);
    IndexAt(order[q], j);
  }

  lemma {:induction false} RankMonotone(order: Order, p: Path, q: Path)
    requires Under(p, q)
    ensures Rank(order, p) <= Rank(order, q)
    decreases |q|
  {
    if p != q {
      assert Under(p, Up(q));
      RankMonotone(order, p, Up(q));
    }
  }

  /**
   * The keys that freeing p gets to.  A key waits on the stack above the siblings in front of it
   * and in front of the keys between p and it, so its place there is the difference of the ranks;
   * a key whose place is not on the stack is dropped, and everything below it with it.
   */
  ghost function Reached(nodes: Nodes, order: Order, p: Path): (tree: set<Path>)
    ensures tree <= Subtree(nodes, p)
  {
    set q <- Subtree(nodes, p) | Rank(order, q) < Rank(order, p) + FREE_STACK_MAX
  }

  // The stack holds everything that waits: the condition under which nothing is dropped.
  ghost predicate StackSuffices(nodes: Nodes, order: Order, p: Path) {
    forall q {:trigger Rank(order, q)} | q in nodes && Under(p, q) :: Rank(order, q) < Rank(order, p) + FREE_STACK_MAX
  }

  lemma ReachedAllIff(nodes: Nodes, order: Order, p: Path)
    ensures Reached(nodes, order, p) == Subtree(nodes, p) <==> StackSuffices(nodes, order, p)
  {
    hide Rank, Under;
    if Reached(nodes, order, p) == Subtree(nodes, p) {
      forall q | q in nodes && Under(p, q) ensures Rank(order, q) < Rank(order, p) + FREE_STACK_MAX {
        assert q in Reached(nodes, order, p);
      }
    }
  }

  // The place a key has on the stack is below the size of the subtree.
  lemma {:induction false} RankBelowSize(nodes: Nodes, order: Order, p: Path, q: Path)
    requires Shape(nodes, order) && p in nodes && q in nodes && Under(p, q)
    ensures Rank(order, q) < Rank(order, p) + |Subtree(nodes, p)|
    decreases |q| - |p|
  {
    hide GoodPath, Rank;
    UnderSelf(p);
    assert p in Subtree(nodes, p);
    if p != q {
      var j := ThroughKid(nodes, order, p, q);
      var kid := Kid(p, order[p][j]);
      RankKid(nodes, order, p, j);
      assert kid in nodes;
      RankBelowSize(nodes, order, kid, q);
      EarlierSiblings(nodes, order, p, j);
    }
  }

  lemma EarlierSiblings(nodes: Nodes, order: Order, p: Path, j: nat)
    requires Shape(nodes, order) && p in nodes && p in order && j < |order[p]|
    ensures j + |Subtree(nodes, Kid(p, order[p][j]))| < |Subtree(nodes, p)|
  {
    hide GoodPath;
    var tree, kid := Subtree(nodes, p), Kid(p, order[p][j]);
    var below := Subtree(nodes, kid);
    var front := Kids(p, order[p][..j]);
    UnderSelf(p);
    FrontSeparate(nodes, order, p, j);
    assert Distinct(order[p]);
    forall q | q in below ensures q in tree - {p} { KidUnder(p, order[p][j], q); }
    forall i | 0 <= i < j ensures front[i] in tree - {p} - below {
      assert Kid(p, order[p][i]) in nodes;
      UnderParent(p, order[p][i]);
      UnderSibling(p, order[p][j], order[p][i]);
    }
    SeparateFits(front, tree - {p} - below);
    assert tree == (tree - {p} - below) + below + {p};
  }

  lemma FrontSeparate(nodes: Nodes, order: Order, p: Path, j: nat)
    requires Shape(nodes, order) && p in order && j <= |order[p]|
    ensures Separate(Kids(p, order[p][..j]))
  {
    hide GoodPath, Under;
    assert Distinct(order[p]);
    var front := Kids(p, order[p][..j]);
    forall a, b | 0 <= a < j && 0 <= b < j && a != b ensures !Under(front[a], front[b]) {
      UnderSibling(p, order[p][a], order[p][b]);
    }
  }

  // A subtree that is no larger than the stack is freed whole.
  lemma SmallSuffices(nodes: Nodes, order: Order, p: Path)
    requires Shape(nodes, order) && p in nodes && |Subtree(nodes, p)| <= FREE_STACK_MAX
    ensures StackSuffices(nodes, order, p)
  {
    hide Rank, Shape;
    forall q | q in nodes && Under(p, q) ensures Rank(order, q) < Rank(order, p) + FREE_STACK_MAX {
      RankBelowSize(nodes, order, p, q);
    }
  }

  // A key with more children than the stack holds leaves some of them allocated.
  lemma WideKeyLeaks(nodes: Nodes, order: Order, p: Path)
    requires Shape(nodes, order) && p in nodes && p in order && |order[p]| > FREE_STACK_MAX
    ensures Kid(p, order[p][FREE_STACK_MAX]) in Subtree(nodes, p) - Reached(nodes, order, p)
    ensures !StackSuffices(nodes, order, p)
  {
    hide GoodPath, Rank;
    var n := order[p][FREE_STACK_MAX];
    RankKid(nodes, order, p, FREE_STACK_MAX);
    assert Kid(p, n) in nodes;
    UnderParent(p, n);
    ReachedAllIff(nodes, order, p);
  }

  // A letter and two digits, "a00" to "k24".
  function WideName(i: nat): (n: Name)
    requires i <= FREE_STACK_MAX
    ensures GoodName(n) && |n| == 3 && WideNumber(n) == i
  {
    [('a' as int + i / 100) as char, ('0' as int + i / 10 % 10) as char, ('0' as int + i % 10) as char]
  }

  function WideNumber(n: Name): int
    requires |n| == 3
  {
    (n[0] as int - 'a' as int) * 100 + (n[1] as int - '0' as int) * 10 + (n[2] as int - '0' as int)
  }

  function WideNames(): (names: seq<Name>)
    ensures |names| == FREE_STACK_MAX + 1 && forall i | 0 <= i < |names| :: names[i] == WideName(i)
  {
    seq(FREE_STACK_MAX + 1, i requires 0 <= i <= FREE_STACK_MAX => WideName(i))
  }

  /**
   * A tree that is not freed whole: the root with one key that has 1025 children.  Deleting that
   * key leaves its last child allocated.
   */
  lemma WideTreeLeaks() returns (nodes: Nodes, order: Order)
    ensures Shape(nodes, order) && ["a"] in nodes && |Subtree(nodes, ["a"])| > FREE_STACK_MAX
    ensures !StackSuffices(nodes, order, ["a"]) && Reached(nodes, order, ["a"]) != Subtree(nodes, ["a"])
  {
    hide StackSuffices, Reached, Shape, ListsChildren, WideNames, IsWide, WideRef, Subtree;
    order := WideOrder();
    nodes := map q | q in order :: WideRef(q);
    WideLists(order);
    WideShape(nodes, order);
    var a := ["a"];
    assert a in nodes && order[a] == WideNames() by { WideHas(order); }
    WideKeyLeaks(nodes, order, a);
    ReachedAllIff(nodes, order, a);
    if |Subtree(nodes, a)| <= FREE_STACK_MAX { SmallSuffices(nodes, order, a); }
  }

  ghost function WideOrder(): (order: Order)
    ensures IsWide(order)
  {
    var kids := set q | q in Kids(["a"], WideNames());
    WideKidsApart();
    (map q | q in kids :: []) + map[[] := ["a"], ["a"] := WideNames()]
  }

  lemma WideKidsApart()
    ensures [] !in Kids(["a"], WideNames()) && ["a"] !in Kids(["a"], WideNames())
  {
    hide WideNames;
  }

  lemma WideHas(order: Order)
    requires IsWide(order)
    ensures ["a"] in order && order[["a"]] == WideNames()
  {
    hide WideNames;
  }

  // Different addresses for the keys of that tree.
  function WideRef(q: Path): Ref {
    if |q| == 2 && |q[1]| == 3 && WideNumber(q[1]) >= 0 then 3 + WideNumber(q[1]) else if q == [] then 1 else 2
  }

  ghost predicate IsWide(order: Order) {
    && order.Keys == {[], ["a"]} + (set q | q in Kids(["a"], WideNames()))
    && order[[]] == ["a"] && order[["a"]] == WideNames() && forall q | q in Kids(["a"], WideNames()) :: order[q] == []
  }

  lemma WideLists(order: Order)
    requires IsWide(order)
    ensures ListsChildren(order)
  {
    hide WideNames;
    var names, a := WideNames(), ["a"];
    forall x | x in order && x != [] ensures Up(x) in order && Last(x) in order[Up(x)] {
      WideUp(x);
    }
    forall x, n | x in order && n in order[x] ensures Kid(x, n) in order {
      WideKid(x, n, order);
    }
    forall x | x in order ensures Distinct(order[x]) {
      WideDistinct();
      assert Distinct([]) && Distinct(["a"]);
    }
  }

  lemma WideDistinct()
    ensures Distinct(WideNames())
  {
    hide WideNames;
    var names := WideNames();
    forall i, j | 0 <= i < j < |names| ensures names[i] != names[j] {
      assert WideNumber(WideName(i)) == i && WideNumber(WideName(j)) == j;
    }
  }

  lemma WideUp(x: Path)
    requires x == ["a"] || x in Kids(["a"], WideNames())
    ensures x != [] && if x == ["a"] then Up(x) == [] && Last(x) == "a" else Up(x) == ["a"] && Last(x) in WideNames()
  {
    hide WideNames;
    if x in Kids(["a"], WideNames()) {
      var i :| 0 <= i < |WideNames()| && x == Kids(["a"], WideNames())[i];
      assert Last(x) == WideNames()[i] && Up(x) == ["a"];
    }
  }

  lemma WideKid(x: Path, n: Name, order: Order)
    requires IsWide(order) && x in order && n in order[x]
    ensures Kid(x, n) in order
  {
    hide WideNames;
    var names := WideNames();
    if x == ["a"] {
      var i :| 0 <= i < |names| && names[i] == n;
      assert Kid(x, n) == Kids(x, names)[i];
    } else if x == [] {
      assert Kid(x, n) == ["a"];
    }
  }

  // A key of that tree: the root, the key with the children, or one of them.
  ghost predicate IsWideKey(p: Path) {
    p == [] || p == ["a"] || exists i: nat | i <= FREE_STACK_MAX :: p == ["a", WideName(i)]
  }

  lemma WideGood(p: Path)
    requires IsWideKey(p)
    ensures GoodPath(p) && WideRef(p) != NULL
  {
    JoinChild([], "a");
    assert [] + ["a"] == ["a"];
    if |p| == 2 {
      assert p == ["a"] + [p[1]];
      JoinChild(["a"], p[1]);
    }
  }

  lemma WideShape(nodes: Nodes, order: Order)
    requires IsWide(order) && ListsChildren(order) && nodes == map q | q in order :: WideRef(q)
    ensures Shape(nodes, order)
  {
    hide ListsChildren, GoodPath, WideNames;
    forall p | p in nodes ensures GoodPath(p) && nodes[p] != NULL {
      WideKey(p);
      WideGood(p);
    }
    forall p, q | p in nodes && q in nodes && p != q ensures nodes[p] != nodes[q] {
      WideKey(p);
      WideKey(q);
      WideApart(p, q);
    }
  }

  lemma WideApart(p: Path, q: Path)
    requires IsWideKey(p) && IsWideKey(q)
    ensures WideRef(p) == WideRef(q) ==> p == q
  {
  }

  lemma WideKey(q: Path)
    requires q in {[], ["a"]} + (set q | q in Kids(["a"], WideNames()))
    ensures IsWideKey(q)
  {
    if q != [] && q != ["a"] {
      var i :| 0 <= i < |WideNames()| && q == Kids(["a"], WideNames())[i];
      assert q == ["a", WideName(i)];
    }
  }

  // ----- The stack, round by round

  // How many of m children find a place on a stack of n keys.
  function Taken(m: nat, n: nat): (k: nat)
    requires n < FREE_STACK_MAX
    ensures k <= m && n + k <= FREE_STACK_MAX && (k < m ==> n + k == FREE_STACK_MAX)
  {
    if m <= FREE_STACK_MAX - n then m else FREE_STACK_MAX - n
  }

  // The children of q that are pushed on a stack of n keys.
  ghost function Next(order: Order, q: Path, n: nat): seq<Path>
    requires q in order && n < FREE_STACK_MAX
  {
    Kids(q, order[q][..Taken(|order[q]|, n)])
  }

  // Replacing the top of the stack by its children uncovers exactly that one path.
  lemma PopCovers(nodes: Nodes, order: Order, p: Path, stack: seq<Path>, q: Path)
    requires Shape(nodes, order) && q in Reached(nodes, order, p) && q in order && |stack| < FREE_STACK_MAX
    requires Separate(stack + [q]) && Rank(order, q) == Rank(order, p) + |stack|
    ensures
      var tree := Reached(nodes, order, p);
      && Covered(tree, stack + Next(order, q, |stack|)) == Covered(tree, stack + [q]) - {q}
      && q in Covered(tree, stack + [q])
  {
    hide Shape, Under, Reached, Rank;
    var tree, kids := Reached(nodes, order, p), Next(order, q, |stack|);
    var before, after := stack + [q], stack + kids;
    assert Under(q, q) by { UnderSelf(q); }
    assert before[|stack|] == q;
    forall r | r in tree ensures r in Covered(tree, after) <==> r in Covered(tree, before) && r != q {
      if r in Covered(tree, after) {
        var i :| 0 <= i < |after| && Under(after[i], r);
        if i < |stack| {
          assert before[i] == after[i];
          assert !Under(before[i], before[|stack|]);
        } else {
          KidUnder(q, order[q][i - |stack|], r);
          assert Under(before[|stack|], r);
        }
      }
      if r in Covered(tree, before) && r != q {
        var i :| 0 <= i < |before| && Under(before[i], r);
        if i < |stack| {
          assert after[i] == before[i];
        } else {
          var j := ThroughTaken(nodes, order, p, q, |stack|, r);
          assert Under(after[|stack| + j], r);
        }
      }
    }
  }

  // What is reached below q is reached through a child that is pushed.
  lemma ThroughTaken(nodes: Nodes, order: Order, p: Path, q: Path, n: nat, r: Path) returns (j: nat)
    requires Shape(nodes, order) && q in order && r in Reached(nodes, order, p) && Under(q, r) && r != q
    requires n < FREE_STACK_MAX && Rank(order, q) == Rank(order, p) + n
    ensures j < |Next(order, q, n)| && Under(Next(order, q, n)[j], r)
  {
    hide Shape, Rank, Under;
    j := ThroughKid(nodes, order, q, r);
    RankKid(nodes, order, q, j);
    RankMonotone(order, Kid(q, order[q][j]), r);
  }

  lemma UnderSelf(q: Path)
    ensures Under(q, q)
  {
  }

  lemma KidUnder(q: Path, n: Name, r: Path)
    requires Under(Kid(q, n), r)
    ensures Under(q, r) && r != q
  {
  }

  // A key strictly below q lies under one of the children in q's list.
  lemma ThroughKid(nodes: Nodes, order: Order, q: Path, r: Path) returns (j: nat)
    requires Shape(nodes, order) && q in order && r in nodes && Under(q, r) && r != q
    ensures j < |order[q]| && Under(Kid(q, order[q][j]), r)
  {
    hide GoodPath;
    var kid := Kid(q, r[|q|]);
    assert kid <= r;
    PrefixClosed(nodes, order, kid, r);
    ChildListed(nodes, order, q, r[|q|]);
    j :| 0 <= j < |order[q]| && order[q][j] == r[|q|];
  }

  lemma PopSeparate(nodes: Nodes, order: Order, stack: seq<Path>, q: Path)
    requires Shape(nodes, order) && q in order && Separate(stack + [q]) && |stack| < FREE_STACK_MAX
    ensures Separate(stack + Next(order, q, |stack|))
  {
    hide GoodPath, Under;
    var before, after := stack + [q], stack + Next(order, q, |stack|);
    assert Distinct(order[q]);
    forall i, j | 0 <= i < |after| && 0 <= j < |after| && i != j ensures !Under(after[i], after[j]) {
      if i < |stack| && j < |stack| {
        assert !Under(before[i], before[j]);
      } else if i < |stack| {
        assert !Under(before[i], before[|stack|]) && !Under(before[|stack|], before[i]);
        UnderKid(before[i], q, order[q][j - |stack|]);
        UnderParent(q, order[q][j - |stack|]);
      } else if j < |stack| {
        assert !Under(before[|stack|], before[j]);
        if Under(after[i], after[j]) { KidUnder(q, order[q][i - |stack|], after[j]); }
      } else {
        UnderSibling(q, order[q][i - |stack|], order[q][j - |stack|]);
      }
    }
  }

  lemma UnderParent(q: Path, n: Name)
    ensures Under(q, Kid(q, n))
  {
  }

  lemma UnderSibling(q: Path, m: Name, n: Name)
    requires m != n
    ensures !Under(Kid(q, m), Kid(q, n))
  {
    assert Kid(q, m)[|q|] == m && Kid(q, n)[|q|] == n;
  }

  lemma {:induction false} SeparateFits(stack: seq<Path>, paths: set<Path>)
    requires Separate(stack) && forall i | 0 <= i < |stack| :: stack[i] in paths
    ensures |stack| <= |paths|
    decreases |stack|
  {
    if stack != [] {
      var last := |stack| - 1;
      forall i | 0 <= i < last ensures stack[i] in paths - {stack[last]} {
        UnderSelf(stack[last]);
        assert !Under(stack[i], stack[last]);
      }
      assert Separate(stack[..last]);
      SeparateFits(stack[..last], paths - {stack[last]});
    }
  }

  // The child lists of these keys can be read from memory.
  ghost predicate Readable(heap: Heap, nodes: Nodes, order: Order, paths: set<Path>)
    requires paths <= nodes.Keys && nodes.Keys == order.Keys
  {
    && (forall q {:trigger q in paths} | q in paths :: nodes[q] in heap && heap[nodes[q]].children == At(nodes, order, q, 0))
    && (forall q, i: nat {:trigger NextOk(heap, nodes, order, q, i)} | q in paths && i < |order[q]| :: NextOk(heap, nodes, order, q, i))
  }

  // After freeing some keys of a tree, the others can still be read.
  lemma ReadAfterFree(heap: Heap, nodes: Nodes, order: Order, p: Path, gone: set<Path>, q: Path, i: nat)
    requires Shape(nodes, order) && q in Subtree(nodes, p) && q !in gone && gone <= Subtree(nodes, p)
    requires Readable(heap, nodes, order, Subtree(nodes, p))
    ensures var heap' := heap - RefsOf(nodes, gone);
      && nodes[q] in heap' && heap'[nodes[q]].children == At(nodes, order, q, 0)
      && (At(nodes, order, q, i) == NULL <==> i >= |order[q]|)
      && (i < |order[q]| ==>
            var r := Kid(q, order[q][i]);
            r in Subtree(nodes, p) && nodes[r] in heap && At(nodes, order, q, i) == nodes[r]
            && (r !in gone ==> nodes[r] in heap' && heap'[nodes[r]].next == At(nodes, order, q, i + 1)))
  {
    hide GoodPath;
    if i < |order[q]| {
      assert NextOk(heap, nodes, order, q, i);
      UnderParent(q, order[q][i]);
    }
  }

  // A key waits at the place its rank says.
  ghost predicate Placed(order: Order, p: Path, paths: seq<Path>) {
    |paths| <= FREE_STACK_MAX && forall i | 0 <= i < |paths| :: Rank(order, paths[i]) == Rank(order, p) + i
  }

  lemma PlacedNext(nodes: Nodes, order: Order, p: Path, stack: seq<Path>, q: Path)
    requires Shape(nodes, order) && q in order && |stack| < FREE_STACK_MAX && Placed(order, p, stack + [q])
    ensures Placed(order, p, stack + Next(order, q, |stack|))
  {
    hide Shape, Rank;
    var before, after := stack + [q], stack + Next(order, q, |stack|);
    assert before[|stack|] == q;
    forall i | 0 <= i < |after| ensures Rank(order, after[i]) == Rank(order, p) + i {
      if i < |stack| { assert before[i] == after[i]; } else { RankKid(nodes, order, q, i - |stack|); }
    }
  }

  // The children that are pushed are reached.
  lemma NextReached(nodes: Nodes, order: Order, p: Path, q: Path, n: nat, j: nat)
    requires Shape(nodes, order) && q in Reached(nodes, order, p) && q in order && n < FREE_STACK_MAX
    requires Rank(order, q) == Rank(order, p) + n && j < |Next(order, q, n)|
    ensures Next(order, q, n)[j] in Reached(nodes, order, p) && Next(order, q, n)[j] != q
  {
    hide GoodPath, Rank;
    var name := order[q][j];
    assert Kid(q, name) in nodes;
    UnderParent(q, name);
    RankKid(nodes, order, q, j);
    UnderKid(p, q, name);
  }

  // Facts about one round of the loop.
  lemma RoundFacts(nodes: Nodes, order: Order, p: Path, stack: seq<Path>, q: Path)
    requires Shape(nodes, order) && Separate(stack + [q]) && q in Reached(nodes, order, p) && q in order
    requires |stack| < FREE_STACK_MAX && Placed(order, p, stack + [q])
    requires forall i | 0 <= i < |stack| :: stack[i] in Reached(nodes, order, p)
    ensures var tree, next := Reached(nodes, order, p), stack + Next(order, q, |stack|);
      && Separate(next) && Placed(order, p, next)
      && (forall i | 0 <= i < |next| :: next[i] in tree)
      && Covered(tree, next) == Covered(tree, stack + [q]) - {q} && q in Covered(tree, stack + [q])
      && tree - Covered(tree, next) == (tree - Covered(tree, stack + [q])) + {q}
      && |tree - Covered(tree, next)| == |tree - Covered(tree, stack + [q])| + 1
      && RefsOf(nodes, tree - Covered(tree, next)) == RefsOf(nodes, tree - Covered(tree, stack + [q])) + {nodes[q]}
  {
    hide GoodPath, Covered, Separate, Rank, Reached, Shape;
    var tree, next := Reached(nodes, order, p), stack + Next(order, q, |stack|);
    assert (stack + [q])[|stack|] == q;
    PopSeparate(nodes, order, stack, q);
    PlacedNext(nodes, order, p, stack, q);
    PopCovers(nodes, order, p, stack, q);
    forall i | 0 <= i < |next| ensures next[i] in tree {
      if i >= |stack| { NextReached(nodes, order, p, q, |stack|, i - |stack|); }
    }
    CoveredSubset(tree, stack + [q]);
    CoveredSubset(tree, next);
  }

  // No child of a waiting key has been freed yet, whether it will be pushed or dropped.
  lemma KidsWaiting(nodes: Nodes, order: Order, p: Path, paths: seq<Path>, t: nat, j: nat)
    requires Shape(nodes, order) && t < |paths| && paths[t] in order && j < |order[paths[t]]|
    ensures
      var tree := Reached(nodes, order, p);
      Kid(paths[t], order[paths[t]][j]) !in tree - Covered(tree, paths)
  {
    UnderParent(paths[t], order[paths[t]][j]);
  }

  lemma CoveredSubset(tree: set<Path>, stack: seq<Path>)
    ensures Covered(tree, stack) <= tree
    ensures forall i | 0 <= i < |stack| && stack[i] in tree :: stack[i] in Covered(tree, stack)
  {
    forall i | 0 <= i < |stack| ensures Under(stack[i], stack[i]) { UnderSelf(stack[i]); }
  }

  // A guarded count-down: it stops at zero.
  function Less(total: nat, n: nat): nat { if n <= total then total - n else 0 }

  // The loop of the free: what is on the stack, and that everything reached and not waiting is gone.
  ghost predicate Freeing(heap0: Heap, total0: nat, heap: Heap, total: nat, nodes: Nodes, order: Order, p: Path, stack: seq<Ref>, paths: seq<Path>) {
    var tree := Reached(nodes, order, p);
    && |paths| == |stack| && Separate(paths) && Placed(order, p, paths)
    && (forall i | 0 <= i < |stack| :: paths[i] in tree && stack[i] == nodes[paths[i]])
    && Covered(tree, paths) <= tree
    && heap == heap0 - RefsOf(nodes, tree - Covered(tree, paths))
    && total == Less(total0, |tree - Covered(tree, paths)|)
  }

  lemma FreeStart(heap: Heap, total: nat, nodes: Nodes, order: Order, p: Path)
    requires p in nodes
    ensures Freeing(heap, total, heap, total, nodes, order, p, [nodes[p]], [p])
  {
    hide Rank;
    var tree := Reached(nodes, order, p);
    assert forall q | q in tree :: Under([p][0], q);
    assert Covered(tree, [p]) == tree && tree - tree == {};
    assert heap == heap - RefsOf(nodes, {});
  }

  lemma FreeEnd(heap0: Heap, total0: nat, heap: Heap, total: nat, nodes: Nodes, order: Order, p: Path, stack: seq<Ref>, paths: seq<Path>)
    requires Freeing(heap0, total0, heap, total, nodes, order, p, stack, paths) && stack == []
    ensures heap == heap0 - RefsOf(nodes, Reached(nodes, order, p)) && total == Less(total0, |Reached(nodes, order, p)|)
  {
    hide Rank, Reached;
    var tree := Reached(nodes, order, p);
    assert Covered(tree, paths) == {};
    assert tree - {} == tree;
  }

  // Before a round: the key on top is in memory, and so are its children.
  lemma FreeRound(heap0: Heap, total0: nat, heap: Heap, total: nat, nodes: Nodes, order: Order, p: Path, stack: seq<Ref>, paths: seq<Path>)
    requires Shape(nodes, order) && nodes.Keys == order.Keys && |paths| == |stack| > 0
    requires Freeing(heap0, total0, heap, total, nodes, order, p, stack, paths)
    ensures var tree, top := Reached(nodes, order, p), |stack| - 1;
      var q, gone := paths[top], tree - Covered(tree, paths);
      && q in Subtree(nodes, p) && q in order && q !in gone && gone <= Subtree(nodes, p) && top < FREE_STACK_MAX
      && stack[top] == nodes[q] && heap == heap0 - RefsOf(nodes, gone)
      && forall j | 0 <= j < |order[q]| :: Kid(q, order[q][j]) !in gone
  {
    hide Shape, Covered, Separate, RefsOf, Subtree, Under, Reached, Rank, Kid;
    var tree, top := Reached(nodes, order, p), |stack| - 1;
    CoveredSubset(tree, paths);
    forall j | 0 <= j < |order[paths[top]]| ensures Kid(paths[top], order[paths[top]][j]) !in tree - Covered(tree, paths) {
      KidsWaiting(nodes, order, p, paths, top, j);
    }
  }

  // One round frees one key, counts it down and leaves the others waiting.
  lemma FreeRoundEnd(heap0: Heap, total0: nat, heap: Heap, total: nat, nodes: Nodes, order: Order, p: Path, stack: seq<Ref>, paths: seq<Path>, stack': seq<Ref>)
    requires Shape(nodes, order) && nodes.Keys == order.Keys && |paths| == |stack| > 0
    requires Freeing(heap0, total0, heap, total, nodes, order, p, stack, paths)
    requires paths[|stack| - 1] in order && |stack| <= FREE_STACK_MAX
    requires var kids := Next(order, paths[|stack| - 1], |stack| - 1);
      |stack'| == |stack| - 1 + |kids| && stack'[..|stack| - 1] == stack[..|stack| - 1]
      && forall i | 0 <= i < |kids| :: kids[i] in nodes && stack'[|stack| - 1 + i] == nodes[kids[i]]
    ensures var next := paths[..|stack| - 1] + Next(order, paths[|stack| - 1], |stack| - 1);
      && Freeing(heap0, total0, heap - {stack[|stack| - 1]}, Less(total, 1), nodes, order, p, stack', next)
      && |Covered(Reached(nodes, order, p), next)| < |Covered(Reached(nodes, order, p), paths)|
  {
    hide Shape, Covered, Separate, Placed, RefsOf, Reached, Next, Under, Rank;
    var tree, top := Reached(nodes, order, p), |stack| - 1;
    var q, below := paths[top], paths[..top];
    assert below + [q] == paths;
    RoundFacts(nodes, order, p, below, q);
    var next := below + Next(order, q, top);
    assert Covered(tree, next) == Covered(tree, paths) - {q};
    forall i | 0 <= i < |stack'| ensures next[i] in tree && stack'[i] == nodes[next[i]] {
      if i < top { assert stack'[i] == stack'[..top][i] == stack[..top][i]; }
    }
  }

  lemma CardinalityLe<T>(a: set<T>, b: set<T>)
    requires a <= b
    ensures |a| <= |b|
  {
    assert b == a + (b - a);
  }

  ghost predicate IsRegistry(heap: Heap, nextRef: Ref, root: Ref, nodes: Nodes, order: Order) {
    && Shape(nodes, order) && Linked(heap, nodes, order)
    && [] in nodes && root == nodes[[]]
    && nextRef > 0 && forall r <- heap :: 0 < r < nextRef
  }

  lemma RegistryFacts(heap: Heap, nextRef: Ref, root: Ref, nodes: Nodes, order: Order)
    requires IsRegistry(heap, nextRef, root, nodes, order)
    ensures nodes.Values <= heap.Keys && nodes.Keys == order.Keys && Injective(nodes)
    ensures nextRef !in heap && nextRef != NULL && NULL !in heap && [] in nodes && root == nodes[[]]
  {
    hide GoodPath, ListsChildren;
  }

  // Adding a key keeps the registry and adds one entry to the map.
  lemma AddKeepsRegistry(heap: Heap, heap': Heap, nextRef: Ref, root: Ref, nodes: Nodes, order: Order,
                         p: Path, n: Name, text: string, rights: nat)
    requires IsRegistry(heap, nextRef, root, nodes, order)
    requires p in nodes && Kid(p, n) !in nodes && GoodPath(Kid(p, n)) && Labels(text, Kid(p, n)) && nodes[p] in heap
    requires var parent := nodes[p];
      heap' == heap[nextRef := Key(n, text, Nil, rights, parent, NULL, heap[parent].children)]
                   [parent := heap[parent].(children := nextRef)]
    ensures var nodes', order' := nodes[Kid(p, n) := nextRef], AddOrder(order, p, n);
      && IsRegistry(heap', nextRef + 1, root, nodes', order') && |nodes'| == |nodes| + 1
      && nodes.Values <= heap.Keys && nodes'.Values <= heap'.Keys
      && ViewOf(heap', nodes') == ViewOf(heap, nodes)[Kid(p, n) := Entry(Nil, rights)]
      && Leaked(heap', nodes') == Leaked(heap, nodes) && |heap'| == |heap| + 1
  {
    hide Shape, Linked, Added, GoodPath, Join, Labels, Kid, AddOrder, ViewOf, Leaked;
    ShapeFacts(nodes, order);
    LinkedFacts(heap, nodes, order);
    NothingLeaked(heap, heap', nodes, Kid(p, n), nextRef);
    AddedByUpdate(heap, heap', nodes, p, n, text, nextRef, rights);
    LinkedAdd(heap, heap', nodes, order, p, n, nextRef);
    ShapeAdd(nodes, order, p, n, nextRef);
  }

  // A new address for a new key leaks nothing.
  lemma NothingLeaked(heap: Heap, heap': Heap, nodes: Nodes, q: Path, k: Ref)
    requires k !in heap && q !in nodes && heap'.Keys == heap.Keys + {k} && nodes.Values <= heap.Keys
    ensures Leaked(heap', nodes[q := k]) == Leaked(heap, nodes) && |heap'| == |heap| + 1
  {
    ValuesWith(nodes, q, k);
    WithBoth(heap.Keys, nodes.Values, k);
  }

  // The place of p in its parent's list.
  lemma FindInList(heap: Heap, nextRef: Ref, root: Ref, nodes: Nodes, order: Order, p: Path) returns (i: nat)
    requires IsRegistry(heap, nextRef, root, nodes, order) && p in nodes && p != []
    ensures Shape(nodes, order) && Linked(heap, nodes, order) && Removable(nodes, order, p, i)
    ensures Up(p) in nodes && Up(p) in order && i < |order[Up(p)]| && nodes[p] in heap && nodes[Up(p)] in heap
    ensures At(nodes, order, Up(p), i) == nodes[p] && nodes[p] != NULL && heap[nodes[p]].parent == nodes[Up(p)]
    ensures heap[nodes[p]].next == At(nodes, order, Up(p), i + 1)
  {
    hide GoodPath, Join, Labels;
    assert Up(p) in nodes && Last(p) in order[Up(p)];
    i :| 0 <= i < |order[Up(p)]| && order[Up(p)][i] == Last(p);
    assert Kid(Up(p), Last(p)) == p;
    ListStep(heap, nodes, order, Up(p), i);
    assert KeyOk(heap, nodes, order, Up(p));
  }

  lemma UnlinkKeepsTree(heap: Heap, mid: Heap, nextRef: Ref, root: Ref, nodes: Nodes, order: Order, p: Path, i: nat)
    requires IsRegistry(heap, nextRef, root, nodes, order) && Removable(nodes, order, p, i)
    requires nodes[Up(p)] in heap && Unlinked(heap, mid, nodes, order, Up(p), i)
    ensures Shape(nodes, order) && nodes.Keys == order.Keys && Readable(mid, nodes, order, Subtree(nodes, p))
    ensures |Subtree(nodes, p)| <= |nodes|
  {
    hide GoodPath, Join, Labels, Under, ListsChildren;
    CardinalityLe(Subtree(nodes, p), nodes.Keys);
    forall q | q in Subtree(nodes, p)
      ensures nodes[q] in mid && nodes[q] in heap && mid[nodes[q]] == heap[nodes[q]]
    {
      UntouchedByUnlink(heap, mid, nodes, order, p, i, q);
    }
    forall q | q in Subtree(nodes, p)
      ensures nodes[q] in mid && mid[nodes[q]].children == At(nodes, order, q, 0)
    {
      assert KeyOk(heap, nodes, order, q);
    }
    forall q, j: nat | q in Subtree(nodes, p) && j < |order[q]| ensures NextOk(mid, nodes, order, q, j) {
      assert NextOk(heap, nodes, order, q, j);
      UnderKid(p, q, order[q][j]);
      assert Kid(q, order[q][j]) in Subtree(nodes, p);
    }
  }

  lemma UntouchedByUnlink(heap: Heap, mid: Heap, nodes: Nodes, order: Order, p: Path, i: nat, q: Path)
    requires Removable(nodes, order, p, i) && Linked(heap, nodes, order)
    requires nodes[Up(p)] in heap && Unlinked(heap, mid, nodes, order, Up(p), i) && q in nodes && Under(p, q)
    ensures nodes[q] in mid && nodes[q] in heap && mid[nodes[q]] == heap[nodes[q]]
  {
    hide GoodPath, Join, Labels, Linked;
    LinkedFacts(heap, nodes, order);
    assert q != Up(p);
    if i > 0 {
      ListStep(heap, nodes, order, Up(p), i - 1);
      var s := Kid(Up(p), order[Up(p)][i - 1]);
      assert Distinct(order[Up(p)]);
      assert Last(s) != Last(p) && |s| == |p| && !Under(p, s);
    }
  }

  /**
   * Cutting a subtree out and freeing any of its keys keeps the registry and removes exactly the
   * subtree from the map.  What is not freed stays allocated without belonging to the tree.
   */
  lemma CutKeepsRegistry(heap: Heap, mid: Heap, nextRef: Ref, root: Ref, nodes: Nodes, order: Order, p: Path, i: nat, gone: set<Path>)
    requires IsRegistry(heap, nextRef, root, nodes, order) && Removable(nodes, order, p, i)
    requires nodes[Up(p)] in heap && Unlinked(heap, mid, nodes, order, Up(p), i) && gone <= Subtree(nodes, p)
    ensures var heap', nodes' := mid - RefsOf(nodes, gone), nodes - Subtree(nodes, p);
      && IsRegistry(heap', nextRef, root, nodes', CutOrder(order, p, i)) && |nodes'| == |nodes| - |Subtree(nodes, p)|
      && nodes.Values <= heap.Keys && nodes'.Values <= heap'.Keys
      && ViewOf(heap', nodes') == ViewOf(heap, nodes) - Subtree(nodes, p)
      && Leaked(heap', nodes') == Leaked(heap, nodes) + RefsOf(nodes, Subtree(nodes, p) - gone)
      && |heap'| == |heap| - |gone|
  {
    hide Shape, Linked, RefsOf, Subtree, CutOrder, ViewOf, Unlinked, Under, At, Join, Labels, Leaked;
    var heap', nodes' := mid - RefsOf(nodes, gone), nodes - Subtree(nodes, p);
    RegistryFacts(heap, nextRef, root, nodes, order);
    assert FreedUnder(mid, heap', nodes, p, gone);
    assert CutFrom(heap, heap', nodes, order, p, i);
    ShapeCut(nodes, order, p, i);
    LinkedCut(heap, heap', nodes, order, p, i);
    LinkedFacts(heap', nodes', CutOrder(order, p, i));
    CutView(heap, heap', nodes, order, p, i);
    assert nodes'.Keys == nodes.Keys - Subtree(nodes, p);
    UnlinkedKeys(heap, mid, nodes, order, Up(p), i);
    LeakedBy(heap, mid, nodes, Subtree(nodes, p), gone);
  }

  // The addresses that are allocated but belong to no key of the tree.
  ghost function Leaked(heap: Heap, nodes: Nodes): set<Ref> { heap.Keys - nodes.Values }

  // Dropping some keys from the tree and freeing some of these leaks the others.
  lemma LeakedBy(heap: Heap, mid: Heap, nodes: Nodes, tree: set<Path>, gone: set<Path>)
    requires Injective(nodes) && nodes.Values <= heap.Keys && mid.Keys == heap.Keys && gone <= tree <= nodes.Keys
    ensures Leaked(mid - RefsOf(nodes, gone), nodes - tree) == Leaked(heap, nodes) + RefsOf(nodes, tree - gone)
    ensures |mid - RefsOf(nodes, gone)| == |heap| - |gone|
    ensures forall r <- mid - RefsOf(nodes, gone) :: r in heap
  {
    hide RefsOf, Injective;
    ValuesWithout(nodes, tree);
    RefsSplit(nodes, tree, gone);
    RefsCount(nodes, gone);
    WithoutBoth(heap.Keys, nodes.Values, RefsOf(nodes, tree), RefsOf(nodes, gone));
    assert (mid - RefsOf(nodes, gone)).Keys == heap.Keys - RefsOf(nodes, gone);
  }

  lemma WithoutBoth(all: set<Ref>, used: set<Ref>, tree: set<Ref>, gone: set<Ref>)
    requires gone <= tree <= used <= all
    ensures (all - gone) - (used - tree) == (all - used) + (tree - gone)
    ensures |all - gone| == |all| - |gone|
  {
    assert all == (all - gone) + gone;
  }

  lemma WithBoth(all: set<Ref>, used: set<Ref>, k: Ref)
    requires k !in all && used <= all
    ensures (all + {k}) - (used + {k}) == all - used && |all + {k}| == |all| + 1
  {
  }

  lemma ValuesWith(nodes: Nodes, q: Path, k: Ref)
    requires q !in nodes
    ensures nodes[q := k].Values == nodes.Values + {k}
  {
    var nodes' := nodes[q := k];
    assert forall x | x in nodes :: nodes'[x] == nodes[x];
    assert nodes'[q] == k;
  }

  lemma RefsSplit(nodes: Nodes, tree: set<Path>, gone: set<Path>)
    requires Injective(nodes) && gone <= tree <= nodes.Keys
    ensures RefsOf(nodes, tree) == RefsOf(nodes, tree - gone) + RefsOf(nodes, gone)
    ensures RefsOf(nodes, tree - gone) == RefsOf(nodes, tree) - RefsOf(nodes, gone) && RefsOf(nodes, tree) <= nodes.Values
  {
  }

  lemma ValuesWithout(nodes: Nodes, tree: set<Path>)
    requires Injective(nodes) && tree <= nodes.Keys
    ensures (nodes - tree).Values == nodes.Values - RefsOf(nodes, tree)
  {
    var nodes' := nodes - tree;
    forall r | r in nodes.Values && r !in RefsOf(nodes, tree) ensures r in nodes'.Values {
      var q :| q in nodes && nodes[q] == r;
      assert q in nodes' && nodes'[q] == r;
    }
    forall r | r in nodes'.Values ensures r in nodes.Values && r !in RefsOf(nodes, tree) {
      var q :| q in nodes' && nodes'[q] == r;
      assert q in nodes && nodes[q] == r;
    }
  }

  lemma {:induction false} RefsCount(nodes: Nodes, paths: set<Path>)
    requires Injective(nodes) && paths <= nodes.Keys
    ensures |RefsOf(nodes, paths)| == |paths|
    decreases paths
  {
    if paths != {} {
      var q :| q in paths;
      RefsCount(nodes, paths - {q});
      assert RefsOf(nodes, paths) == RefsOf(nodes, paths - {q}) + {nodes[q]};
    }
  }

  lemma UnlinkedKeys(heap: Heap, mid: Heap, nodes: Nodes, order: Order, up: Path, i: nat)
    requires up in nodes && up in order && nodes[up] in heap && i < |order[up]| && Unlinked(heap, mid, nodes, order, up, i)
    ensures mid.Keys == heap.Keys
  {
  }

  lemma CutView(heap: Heap, heap': Heap, nodes: Nodes, order: Order, p: Path, i: nat)
    requires Removable(nodes, order, p, i) && Linked(heap, nodes, order) && CutFrom(heap, heap', nodes, order, p, i)
    requires nodes.Values <= heap.Keys && (nodes - Subtree(nodes, p)).Values <= heap'.Keys
    ensures ViewOf(heap', nodes - Subtree(nodes, p)) == ViewOf(heap, nodes) - Subtree(nodes, p)
    ensures [] in nodes ==> [] in nodes - Subtree(nodes, p)
  {
    hide Shape, Linked, CutFrom, At, Under, Join, Labels;
    UpNotUnder(p);
    var nodes' := nodes - Subtree(nodes, p);
    forall x | x in nodes' ensures ViewOf(heap', nodes')[x] == ViewOf(heap, nodes)[x] {
      CutFields(heap, heap', nodes, order, p, i, x);
    }
  }

  lemma RootPath(view: View, rights: nat)
    ensures WithPath(view, [], rights) == view && Join([]) == "/"
  {
  }

  // The path text that mkpath composes for a child.
  lemma JoinKid(q: Path, n: Name)
    requires forall m <- q :: 0 < |m|
    ensures Join(Kid(q, n)) == if Join(q) == "/" then "/" + n else Join(q) + "/" + n
  {
    JoinChild(q, n);
    if q != [] {
      assert q[|q| - 1] in q;
      assert |Join(q)| >= 2;
    }
  }

  lemma ExistingPath(view: View, p: Path, rights: nat)
    requires p in view
    ensures WithPath(view, p, rights) == view
  {
  }

  ghost function Rewrite(heap: Heap, r: Ref, val: Value, rights: nat): Heap
    requires r in heap
  {
    heap[r := heap[r].(val := val, rights := rights)]
  }

  // Writing the value and the rights of one key changes no pointer.
  lemma WriteEntry(heap: Heap, nextRef: Ref, root: Ref, nodes: Nodes, order: Order, p: Path, val: Value, rights: nat)
    requires IsRegistry(heap, nextRef, root, nodes, order) && p in nodes && nodes[p] in heap
    ensures IsRegistry(Rewrite(heap, nodes[p], val, rights), nextRef, root, nodes, order)
    ensures nodes.Values <= heap.Keys && nodes.Values <= Rewrite(heap, nodes[p], val, rights).Keys
    ensures ViewOf(Rewrite(heap, nodes[p], val, rights), nodes) == ViewOf(heap, nodes)[p := Entry(val, rights)]
    ensures Leaked(Rewrite(heap, nodes[p], val, rights), nodes) == Leaked(heap, nodes) && |Rewrite(heap, nodes[p], val, rights)| == |heap|
  {
    hide Shape, Linked;
    ShapeFacts(nodes, order);
    LinkedFacts(heap, nodes, order);
    LinkedRewrite(heap, nodes, order, nodes[p], val, rights);
    assert Rewrite(heap, nodes[p], val, rights).Keys == heap.Keys;
  }

  lemma LinkedRewrite(heap: Heap, nodes: Nodes, order: Order, r: Ref, val: Value, rights: nat)
    requires Linked(heap, nodes, order) && r in heap
    ensures Linked(Rewrite(heap, r, val, rights), nodes, order)
  {
    hide Join, Labels, At, Kid;
    var heap' := Rewrite(heap, r, val, rights);
    forall x | x in nodes ensures KeyOk(heap', nodes, order, x) {
      assert KeyOk(heap, nodes, order, x);
    }
    forall x, i: nat | x in order && i < |order[x]| ensures NextOk(heap', nodes, order, x, i) {
      assert NextOk(heap, nodes, order, x, i);
    }
  }
}
