/**
 The operations of registry/registry.c on single paths: lookup, creation, set, get and delete.

 Class `Registry` holds the memory, in which allocation adds an address and free removes it, so
 reading through a pointer needs a proof that the key has not been freed.
 */
module RegistryTree {
  import opened RegistryPaths
  import opened RegistryShape
  import opened Wire
  import opened Wrappers

  // A path that a fresh registry accepts and does not find again: one name of 64 letters.
  lemma LongName() returns (path: string)
    ensures |path| == NAME_LEN + 1 && Target(path).Some? && !Short(Place(path)) && CutIsNew({[]}, Place(path))
  {
    var n := seq(NAME_LEN, _ => 'x');
    path := Join([n]);
    JoinCuts([n]);
    JoinChild([], n);
    assert [] + [n] == [n];
    assert n in Place(path);
  }

  class Registry {
    var heap: Heap
    var nextRef: Ref        // the next address to hand out
    var root: Ref
    var totalKeys: nat
    ghost var nodes: Nodes
    ghost var order: Order

    // The pointers are sound.
    ghost predicate Tree()
      reads this
    {
      IsRegistry(heap, nextRef, root, nodes, order)
    }

    // total_keys is the number of keys that are allocated.
    ghost predicate Counted()
      reads this
    {
      totalKeys == |heap|
    }

    // Nothing has leaked or been recovered, and a right count has stayed right.
    twostate predicate Steady()
      reads this
    {
      Leaked(heap, nodes) == Leaked(old(heap), old(nodes)) && (old(Counted()) ==> Counted())
    }

    ghost function View(): View
      requires nodes.Values <= heap.Keys
      reads this
    {
      ViewOf(heap, nodes)
    }

    // The root key of reg_init, before the standard paths are made.
    constructor ()
      ensures Tree() && Counted() && Leaked(heap, nodes) == {} && View() == map[[] := Entry(Nil, RK_ALL)]
    {
      root, totalKeys, nextRef := 1, 1, 2;
      heap := map[1 := Key("/", "/", Nil, RK_ALL, NULL, NULL, NULL)];
      nodes, order := map[[] := 1], map[[] := []];
      RootOnly(1, Key("/", "/", Nil, RK_ALL, NULL, NULL, NULL));
    }

    // regkey_find_child
    method FindChild(k: Ref, name: Name, ghost p: Path) returns (c: Ref)
      requires Tree() && p in nodes && k == nodes[p]
      ensures c == if Kid(p, name) in nodes then nodes[Kid(p, name)] else NULL
    {
      hide Shape, Linked, At, Kid;
      ChildListed(nodes, order, p, name);
      ListStep(heap, nodes, order, p, 0);
      c := heap[k].children;
      ghost var i := 0;
      while c != NULL
        invariant c == At(nodes, order, p, i) && i <= |order[p]|
        invariant forall j | 0 <= j < i :: order[p][j] != name
        decreases |order[p]| - i
      {
        ListStep(heap, nodes, order, p, i);
        if heap[c].name == name { return; }
        c := heap[c].next;
        i := i + 1;
      }
      ListStep(heap, nodes, order, p, i);
    }

    // reg_lookup
    method Lookup(path: string) returns (k: Ref)
      requires Tree()
      ensures k == if Target(path).Some? && Target(path).value in nodes then nodes[Target(path).value] else NULL
    {
      hide IsRegistry, Walking, Segments, NextSlash, Kid;
      RegistryFacts(heap, nextRef, root, nodes, order);
      WalkStart(Clip(path));
      if path == "" { return NULL; }
      if path == "/" { return root; }
      if path[0] != '/' { return NULL; }
      var buf := Clip(path);
      ghost var target, q := Segments(buf, 1), [];
      k := root;
      var i := 1;
      while i < |buf| && k != NULL
        invariant 1 <= i
        invariant k != NULL ==> Walking(buf, target, q, i) && q in nodes && k == nodes[q]
        invariant k == NULL ==> target !in nodes
        decreases |buf| - i
      {
        var j := FindSlash(buf, i);
        WalkStep(buf, target, q, i);
        if j > i {
          k := FindChild(k, buf[i..j], q);
          MissingBelow(q, buf[i..j], target);
          q := Kid(q, buf[i..j]);
        }
        i := j + 1;
      }
      if k != NULL { WalkStep(buf, target, q, i); }
    }

    lemma MissingBelow(q: Path, n: Name, target: Path)
      requires Tree() && q + [n] <= target
      ensures Kid(q, n) == q + [n]
      ensures Kid(q, n) !in nodes ==> target !in nodes
    {
      if target in nodes {
        PrefixClosed(nodes, order, Kid(q, n), target);
      }
    }

    // The path stored in a key leads to that key exactly when it holds no name that was cut; else to none.
    lemma StoredPathFinds(p: Path)
      requires Tree() && p in nodes
      ensures nodes[p] in heap
      ensures
        var t := Target(heap[nodes[p]].path);
        && t.Some? && CutNames(t.value) == p
        && (t == Some(p) <==> Short(t.value)) && (t.value in nodes <==> Short(t.value))
    {
      hide GoodPath, Segments;
      assert KeyOk(heap, nodes, order, p);
      var q := Segments(heap[nodes[p]].path, 1);
      CutShort(q);
      if q in nodes { assert GoodPath(q); GoodIsShort(q); }
    }

    // reg_get
    method Get(path: string) returns (v: Value)
      requires Tree()
      ensures v == if Target(path).Some? && Target(path).value in View() then View()[Target(path).value].val else NOT_FOUND
    {
      hide Shape, Target;
      ShapeFacts(nodes, order);
      var k := Lookup(path);
      if k == NULL { return NOT_FOUND; }
      return heap[k].val;
    }

    // regkey_alloc and regkey_add_child; the name is cut, the path fits
    method AddChild(k: Ref, seg: Name, childPath: string, rights: nat, ghost p: Path) returns (child: Ref)
      requires Tree() && p in nodes && k == nodes[p] && Kid(p, CutName(seg)) !in nodes
      requires Labels(childPath, Kid(p, CutName(seg))) && GoodPath(Kid(p, CutName(seg)))
      modifies this
      ensures Tree() && Steady() && nodes == old(nodes)[Kid(p, CutName(seg)) := child]
      ensures order == AddOrder(old(order), p, CutName(seg))
      ensures View() == old(View())[Kid(p, CutName(seg)) := Entry(Nil, rights)]
    {
      hide IsRegistry, GoodPath, Join, Labels, Kid, AddOrder, ViewOf, Leaked, CutName;
      RegistryFacts(heap, nextRef, root, nodes, order);
      child := nextRef;
      var name := CutName(seg);
      var h := heap[child := Key(name, childPath, Nil, rights, k, NULL, heap[k].children)];
      h := h[k := h[k].(children := child)];
      AddKeepsRegistry(heap, h, nextRef, root, nodes, order, p, name, childPath, rights);
      heap, nextRef, totalKeys := h, nextRef + 1, totalKeys + 1;
      nodes, order := nodes[Kid(p, name) := child], AddOrder(order, p, name);
    }

    // One round of the loop in reg_mkpath: to the child called seg, made if it is missing.  f holds the
    // names walked along so far and q the same names as keys hold them.
    method Descend(k: Ref, built: string, seg: Name, rights: nat, ghost f: Path, ghost q: Path, ghost view: View)
      returns (child: Ref, childPath: string)
      requires Tree() && q in nodes && k == nodes[q] && built == Join(f) && forall n <- f :: 0 < |n|
      requires GoodPath(Kid(q, CutName(seg))) && Labels(Join(Kid(f, seg)), Kid(q, CutName(seg)))
      requires |seg| < NAME_LEN || Kid(q, CutName(seg)) !in nodes
      requires IsPrefixClosed(view) && nodes.Values <= heap.Keys && View() == WithPath(view, q, rights)
      modifies this
      ensures Tree() && Steady() && Kid(q, CutName(seg)) in nodes && child == nodes[Kid(q, CutName(seg))]
      ensures childPath == Join(Kid(f, seg)) && Grown(old(nodes), nodes)
      ensures nodes.Values <= heap.Keys && View() == WithPath(view, Kid(q, CutName(seg)), rights)
    {
      hide IsRegistry, GoodPath, Join, Labels, Kid, ViewOf, WithPath, IsPrefixClosed, AddOrder, Grown, Leaked;
      RegistryFacts(heap, nextRef, root, nodes, order);
      JoinKid(f, seg);
      WithPathStep(view, q, CutName(seg), rights);
      childPath := if built == "/" then "/" + seg else built + "/" + seg;
      child := FindChild(k, seg, q);
      GrownSelf(nodes);
      if child == NULL {
        child := AddChild(k, seg, childPath, rights, q);
        GrownAdd(old(nodes), Kid(q, CutName(seg)), child);
        RegistryFacts(heap, nextRef, root, nodes, order);
      } else {
        KeysAreShort(q, seg);
      }
    }

    // A key has a short name.
    lemma KeysAreShort(q: Path, n: Name)
      requires Tree() && Kid(q, n) in nodes
      ensures |n| < NAME_LEN
    {
      hide ListsChildren;
      assert GoodPath(Kid(q, n)) && n in Kid(q, n);
    }

    /**
     * reg_mkpath.  A name too long is cut when its key is made.  That key must be new: lookup does
     * not find a cut name, so the code would otherwise make a second key of the same name.
     */
    method MkPath(path: string, rights: nat) returns (k: Ref)
      requires Tree() && CutIsNew(nodes.Keys, Place(path))
      modifies this
      ensures Tree() && Steady()
      ensures Target(path).None? ==> k == NULL && View() == old(View())
      ensures Target(path).Some? ==>
        var p := CutNames(Place(path));
        p in nodes && k == nodes[p] && View() == WithPath(old(View()), p, rights) && Grown(old(nodes), nodes)
    {
      hide IsRegistry, GoodPath, Join, Labels, ViewOf, WithPath, IsPrefixClosed, Walking, Segments, NextSlash, Grown, Leaked, CutName, CutNames, CutIsNew;
      RegistryFacts(heap, nextRef, root, nodes, order);
      if path == "" || path[0] != '/' { return NULL; }
      ViewPrefixClosed();
      var buf := Clip(path);
      ghost var target, view, f, q := Segments(buf, 1), View(), [], [];
      k := root;
      var built := "/";
      var i := 1;
      RootPath(view, rights);
      WalkStart(buf);
      GrownSelf(nodes);
      while i < |buf|
        invariant 1 <= i && Tree() && Steady()
        invariant Walking(buf, target, f, i) && q == CutNames(f) && q in nodes && k == nodes[q] && built == Join(f)
        invariant nodes.Values <= heap.Keys && View() == WithPath(view, q, rights) && Grown(old(nodes), nodes)
        decreases |buf| - i
      {
        var j := FindSlash(buf, i);
        WalkStep(buf, target, f, i);
        if j > i {
          MkStep(buf, target, view, f, buf[i..j], rights);
          ghost var before := nodes;
          k, built := Descend(k, built, buf[i..j], rights, f, q, view);
          GrownThen(old(nodes), before, nodes);
          f, q := Kid(f, buf[i..j]), Kid(q, CutName(buf[i..j]));
        }
        i := j + 1;
      }
      WalkStep(buf, target, f, i);
    }

    lemma ViewPrefixClosed()
      requires Tree()
      ensures nodes.Values <= heap.Keys && IsPrefixClosed(View())
    {
      forall x, y | y in nodes && Under(x, y) ensures x in nodes {
        PrefixClosed(nodes, order, x, y);
      }
    }

    // The value and the rights of one key are replaced.
    method WriteKey(k: Ref, val: Value, rights: nat, ghost p: Path)
      requires Tree() && p in nodes && k == nodes[p]
      modifies this`heap
      ensures Tree() && Steady() && View() == old(View())[p := Entry(val, rights)]
    {
      hide IsRegistry, ViewOf, Leaked;
      RegistryFacts(heap, nextRef, root, nodes, order);
      WriteEntry(heap, nextRef, root, nodes, order, p, val, rights);
      heap := heap[k := heap[k].(val := val, rights := rights)];
    }

    // reg_set
    method Set(path: string, val: Value, rights: nat) returns (ok: bool)
      requires Tree() && CutIsNew(nodes.Keys, Place(path))
      modifies this
      ensures Tree() && Steady() && ok == Target(path).Some?
      ensures !ok ==> View() == old(View())
      ensures ok ==> var p := CutNames(Place(path)); View() == WithPath(old(View()), p, rights)[p := Entry(val, rights)]
    {
      hide IsRegistry, ViewOf, WithPath, Target, Leaked, CutNames, CutIsNew;
      RegistryFacts(heap, nextRef, root, nodes, order);
      ghost var view := View();
      var k := Lookup(path);
      if k == NULL {
        k := MkPath(path, rights);
      } else {
        FoundIsShort(Place(path));
        ExistingPath(view, Place(path), rights);
      }
      RegistryFacts(heap, nextRef, root, nodes, order);
      if k == NULL { return false; }
      WriteKey(k, val, rights, CutNames(Place(path)));
      return true;
    }

    lemma FoundIsShort(p: Path)
      requires Tree() && p in nodes
      ensures Short(p) && CutNames(p) == p
    {
      hide ListsChildren, GoodPath;
      assert GoodPath(p);
      GoodIsShort(p);
      CutShort(p);
    }

    /**
     * A value that has been set is read back exactly when no name of the path is too long.  The
     * key of a cut name is there, and lookup does not find it, so that setting once more would make
     * a second one.
     */
    method SetThenGet(path: string, val: Value, rights: nat) returns (v: Value)
      requires Tree() && CutIsNew(nodes.Keys, Place(path)) && Target(path).Some?
      modifies this
      ensures Tree() && v == if Short(Place(path)) then val else NOT_FOUND
      ensures CutNames(Place(path)) in View() && View()[CutNames(Place(path))] == Entry(val, rights)
      ensures CutIsNew(nodes.Keys, Place(path)) <==> Short(Place(path))
    {
      hide IsRegistry, ViewOf, WithPath, Target, Leaked, CutNames;
      var ok := Set(path, val, rights);
      RegistryFacts(heap, nextRef, root, nodes, order);
      ghost var p := Place(path);
      if Short(p) { ShortIsNew(nodes.Keys, p); } else { ViewPrefixClosed(); LongIsOld(View(), p); }
      if p in nodes { FoundIsShort(p); }
      v := Get(path);
    }

    // The first half of reg_delete: the pointer that leads to k is made to skip it.
    method Unlink(k: Ref, ghost p: Path) returns (ghost i: nat)
      requires Tree() && p in nodes && p != [] && k == nodes[p]
      modifies this`heap
      ensures Removable(nodes, order, p, i) && Up(p) in nodes && nodes[Up(p)] in old(heap)
      ensures Up(p) in order && i < |order[Up(p)]|
      ensures Unlinked(old(heap), heap, nodes, order, Up(p), i)
    {
      hide IsRegistry, Shape, Linked, At, Kid, Removable, Join, Labels;
      i := FindInList(heap, nextRef, root, nodes, order, p);
      ghost var up := Up(p);
      var parent := heap[k].parent;
      ListStep(heap, nodes, order, up, 0);
      var prev := NULL;
      var cur := heap[parent].children;
      ghost var j := 0;
      while cur != NULL && cur != k
        invariant heap == old(heap) && j <= i && cur == At(nodes, order, up, j)
        invariant if j == 0 then prev == NULL else prev == At(nodes, order, up, j - 1) && prev != NULL && prev in heap
        decreases |order[up]| - j
      {
        ListStep(heap, nodes, order, up, j);
        prev := cur;
        cur := heap[cur].next;
        j := j + 1;
      }
      ListStep(heap, nodes, order, up, j);
      if cur != NULL {
        AtDistinct(nodes, order, up, j, up, i);
        if prev == NULL {
          heap := heap[parent := heap[parent].(children := heap[k].next)];
        } else {
          heap := heap[prev := heap[prev].(next := heap[k].next)];
        }
      }
    }

    /**
     * The rest of reg_delete, once the key is found.  The map loses exactly the subtree; the keys
     * that the stack of the free has no place for stay allocated.
     */
    method Remove(k: Ref, ghost p: Path)
      requires Tree() && p in nodes && p != [] && k == nodes[p]
      modifies this
      ensures Tree() && View() == old(View()) - Subtree(old(nodes), p)
      ensures Leaked(heap, nodes) == old(Leaked(heap, nodes)) + RefsOf(old(nodes), Subtree(old(nodes), p) - Reached(old(nodes), old(order), p))
      ensures old(Counted()) ==> Counted()
    {
      hide IsRegistry, Shape, Linked, At, Kid, Removable, Unlinked, ViewOf, Subtree, RefsOf, CutOrder, Reached, Leaked;
      RegistryFacts(heap, nextRef, root, nodes, order);
      ghost var i := Unlink(k, p);
      UnlinkKeepsTree(old(heap), heap, nextRef, root, nodes, order, p, i);
      ghost var mid, gone := heap, Reached(nodes, order, p);
      FreeRecursive(k, p);
      CutOut(old(heap), mid, p, i, gone);
    }

    // The tree without p, once its keys are out of memory as far as they can be.
    ghost method CutOut(heap0: Heap, mid: Heap, p: Path, i: nat, gone: set<Path>)
      requires IsRegistry(heap0, nextRef, root, nodes, order) && Removable(nodes, order, p, i) && nodes[Up(p)] in heap0
      requires Unlinked(heap0, mid, nodes, order, Up(p), i) && gone <= Subtree(nodes, p) && heap == mid - RefsOf(nodes, gone)
      modifies this`nodes, this`order
      ensures Tree() && nodes == old(nodes) - Subtree(old(nodes), p) && order == CutOrder(old(order), p, i)
      ensures nodes.Values <= heap.Keys && old(nodes).Values <= heap0.Keys
      ensures View() == ViewOf(heap0, old(nodes)) - Subtree(old(nodes), p)
      ensures Leaked(heap, nodes) == Leaked(heap0, old(nodes)) + RefsOf(old(nodes), Subtree(old(nodes), p) - gone)
      ensures |heap| == |heap0| - |gone|
    {
      hide IsRegistry, Shape, Linked, Unlinked, ViewOf, Subtree, RefsOf, CutOrder, Leaked, Under, At;
      CutKeepsRegistry(heap0, mid, nextRef, root, nodes, order, p, i, gone);
      nodes, order := nodes - Subtree(nodes, p), CutOrder(order, p, i);
    }

    // What is left allocated of the subtree at the path.
    ghost function DeleteLeaks(path: string): set<Ref>
      reads this
    {
      if Target(path).Some? && Target(path).value in nodes
      then RefsOf(nodes, Subtree(nodes, Target(path).value) - Reached(nodes, order, Target(path).value))
      else {}
    }

    // reg_delete.  The root is never deleted.
    method Delete(path: string) returns (ok: bool)
      requires Tree() && Target(path) != Some([])
      modifies this
      ensures Tree() && ok == (Target(path).Some? && Target(path).value in old(nodes))
      ensures View() == if ok then old(View()) - Subtree(old(nodes), Target(path).value) else old(View())
      ensures Leaked(heap, nodes) == old(Leaked(heap, nodes)) + old(DeleteLeaks(path))
      ensures old(Counted()) ==> Counted()
    {
      hide IsRegistry, ViewOf, Subtree, Target, Reached, RefsOf, Leaked;
      RegistryFacts(heap, nextRef, root, nodes, order);
      var k := Lookup(path);
      if k == NULL {
        assert Leaked(heap, nodes) + {} == Leaked(heap, nodes);
        return false;
      }
      Remove(k, Target(path).value);
      return true;
    }

    /**
     * Deleting leaks nothing exactly when the stack of the free has a place for every key of the
     * subtree, as it has whenever the subtree is no larger than the stack.
     */
    lemma DeleteLeaksNothingIff(path: string)
      requires Tree() && Target(path).Some? && Target(path).value in nodes
      ensures DeleteLeaks(path) == {} <==> StackSuffices(nodes, order, Target(path).value)
      ensures |Subtree(nodes, Target(path).value)| <= FREE_STACK_MAX ==> DeleteLeaks(path) == {}
    {
      hide StackSuffices, Target, Reached;
      var p := Target(path).value;
      ReachedAllIff(nodes, order, p);
      var dropped := Subtree(nodes, p) - Reached(nodes, order, p);
      if dropped == {} {
        assert Subtree(nodes, p) == Reached(nodes, order, p) + dropped;
      } else {
        var q :| q in dropped;
        assert nodes[q] in DeleteLeaks(path);
      }
      if |Subtree(nodes, p)| <= FREE_STACK_MAX { SmallSuffices(nodes, order, p); }
    }

    // regkey_free_recursive.  The stack holds 1024 keys; a child that does not fit is dropped.
    method FreeRecursive(k: Ref, ghost p: Path)
      requires Shape(nodes, order) && p in nodes && k == nodes[p]
      requires nodes.Keys == order.Keys && Readable(heap, nodes, order, Subtree(nodes, p))
      modifies this`heap, this`totalKeys
      ensures heap == old(heap) - RefsOf(nodes, Reached(nodes, order, p))
      ensures totalKeys == Less(old(totalKeys), |Reached(nodes, order, p)|)
    {
      hide *;
      var stack := [k];
      ghost var paths := [p];
      FreeStart(heap, totalKeys, nodes, order, p);
      while |stack| > 0
        invariant |paths| == |stack| && Freeing(old(heap), old(totalKeys), heap, totalKeys, nodes, order, p, stack, paths)
        decreases |Covered(Reached(nodes, order, p), paths)|
      {
        var top := |stack| - 1;
        ghost var q, gone := paths[top], Reached(nodes, order, p) - Covered(Reached(nodes, order, p), paths);
        FreeRound(old(heap), old(totalKeys), heap, totalKeys, nodes, order, p, stack, paths);
        var key := stack[top];
        var stack' := PushChildren(stack[..top], key, old(heap), p, q, gone);
        FreeRoundEnd(old(heap), old(totalKeys), heap, totalKeys, nodes, order, p, stack, paths, stack');
        stack := stack';
        heap := heap - {key};
        CountDown();
        paths := paths[..top] + Next(order, q, top);
      }
      FreeEnd(old(heap), old(totalKeys), heap, totalKeys, nodes, order, p, stack, paths);
    }

    method CountDown()
      modifies this`totalKeys
      ensures totalKeys == Less(old(totalKeys), 1)
    {
      if totalKeys > 0 { totalKeys := totalKeys - 1; }
    }

    // The inner loop of regkey_free_recursive: as many children as the stack has room for.
    method PushChildren(stack: seq<Ref>, key: Ref, ghost heap0: Heap, ghost p: Path, ghost q: Path, ghost gone: set<Path>)
      returns (stack': seq<Ref>)
      requires Shape(nodes, order) && nodes.Keys == order.Keys && Readable(heap0, nodes, order, Subtree(nodes, p))
      requires q in Subtree(nodes, p) && q in order && key == nodes[q] && gone <= Subtree(nodes, p) && q !in gone
      requires heap == heap0 - RefsOf(nodes, gone) && |stack| < FREE_STACK_MAX
      requires forall j | 0 <= j < |order[q]| :: Kid(q, order[q][j]) !in gone
      ensures var kids := Next(order, q, |stack|);
        && |stack'| == |stack| + |kids| && stack'[..|stack|] == stack
        && forall i | 0 <= i < |kids| :: kids[i] in nodes && stack'[|stack| + i] == nodes[kids[i]]
    {
      hide Shape, Readable, At, RefsOf, Subtree, Under, Kid;
      ghost var kids := Next(order, q, |stack|);
      stack' := stack;
      ghost var i := 0;
      ReadAfterFree(heap0, nodes, order, p, gone, q, 0);
      var c := heap[key].children;
      while c != NULL
        invariant i <= |order[q]| && c == At(nodes, order, q, i)
        invariant |stack'| == |stack| + (if i < |kids| then i else |kids|) && stack'[..|stack|] == stack
        invariant forall j | 0 <= j < |stack'| - |stack| :: kids[j] in nodes && stack'[|stack| + j] == nodes[kids[j]]
        decreases |order[q]| - i
      {
        ReadAfterFree(heap0, nodes, order, p, gone, q, i);
        var nx := heap[c].next;
        if |stack'| < FREE_STACK_MAX { stack' := stack' + [c]; }
        c := nx;
        i := i + 1;
      }
      ReadAfterFree(heap0, nodes, order, p, gone, q, i);
    }
  }
}
