/**
 The buddy allocator of core/buddy.c.

 Three layers.  The heap-indexed node array that the program updates in place
 represents a binary tree (`Represents`); the tree is the canonical picture
 (`Canonical`) of a set of live blocks (`Live`); and the set of live blocks is
 what callers see.  `SpecStep` describes allocation and release on that set
 alone, without any tree, and class `Buddy` is proved to refine it over every run.

 The block size at the leaves and the number of levels are parameters, because
 every build configuration has a pool of minBlock * 2^levels bytes.
 */
module BuddyAllocator {
  import opened Arithmetic
  import opened Wrappers

  datatype NodeState = Free | Split | Used

  // A subtree of the node array: nothing allocated, allocated as one block, or split in two.
  datatype Tree = Empty | Whole | Halves(lo: Tree, hi: Tree)

  datatype Block = Block(offset: nat, size: nat)

  // The number of bytes under a node `level` levels above the leaves.
  function Size(min: nat, level: nat): (s: nat)
    ensures min >= 1 ==> s >= 1
    ensures s >= min
  {
    if level == 0 then min else 2 * Size(min, level - 1)
  }

  lemma {:induction false} SizeMonotone(min: nat, a: nat, b: nat)
    requires min >= 1 && a < b
    ensures 2 * Size(min, a) <= Size(min, b)
    decreases b
  {
    if a < b - 1 {
      SizeMonotone(min, a, b - 1);
    }
  }

  // ----- Live blocks of a tree

  ghost predicate Canonical(t: Tree, level: nat) {
    match t
    case Empty => true
    case Whole => true
    case Halves(lo, hi) =>
      level > 0 && !(lo.Empty? && hi.Empty?) && Canonical(lo, level - 1) && Canonical(hi, level - 1)
  }

  ghost function Live(t: Tree, min: nat, level: nat, offset: nat): set<Block>
    requires Canonical(t, level)
  {
    match t
    case Empty => {}
    case Whole => {Block(offset, Size(min, level))}
    case Halves(lo, hi) =>
      Live(lo, min, level - 1, offset) + Live(hi, min, level - 1, offset + Size(min, level - 1))
  }

  ghost predicate Overlap(a: Block, b: Block) {
    a.offset < b.offset + b.size && b.offset < a.offset + a.size
  }

  ghost predicate Within(b: Block, offset: nat, size: nat) {
    offset <= b.offset && b.offset + b.size <= offset + size
  }

  lemma {:induction false} LiveWithin(t: Tree, min: nat, level: nat, offset: nat)
    requires Canonical(t, level) && min >= 1
    ensures forall b <- Live(t, min, level, offset) :: Within(b, offset, Size(min, level)) && b.size >= 1
    ensures !t.Empty? ==> Live(t, min, level, offset) != {}
    ensures t.Halves? ==> forall b <- Live(t, min, level, offset) :: b.size < Size(min, level)
  {
    match t
    case Empty =>
    case Whole =>
      assert Block(offset, Size(min, level)) in Live(t, min, level, offset);
    case Halves(lo, hi) =>
      LiveWithin(lo, min, level - 1, offset);
      LiveWithin(hi, min, level - 1, offset + Size(min, level - 1));
  }

  lemma {:induction false} LiveDisjoint(t: Tree, min: nat, level: nat, offset: nat, a: Block, b: Block)
    requires Canonical(t, level) && min >= 1
    requires a in Live(t, min, level, offset) && b in Live(t, min, level, offset) && a != b
    ensures !Overlap(a, b)
  {
    match t
    case Halves(lo, hi) =>
      var mid := offset + Size(min, level - 1);
      LiveWithin(lo, min, level - 1, offset);
      LiveWithin(hi, min, level - 1, mid);
      if a in Live(lo, min, level - 1, offset) && b in Live(lo, min, level - 1, offset) {
        LiveDisjoint(lo, min, level - 1, offset, a, b);
      } else if a in Live(hi, min, level - 1, mid) && b in Live(hi, min, level - 1, mid) {
        LiveDisjoint(hi, min, level - 1, mid, a, b);
      }
    case _ =>
  }

  // The live blocks determine the tree: there is one canonical picture of each set of blocks.
  lemma {:induction false} LiveDeterminesTree(s: Tree, t: Tree, min: nat, level: nat, offset: nat)
    requires Canonical(s, level) && Canonical(t, level) && min >= 1
    requires Live(s, min, level, offset) == Live(t, min, level, offset)
    ensures s == t
    decreases level
  {
    hide Size;
    LiveWithin(s, min, level, offset);
    LiveWithin(t, min, level, offset);
    var whole := Block(offset, Size(min, level));
    assert s.Whole? ==> whole in Live(s, min, level, offset);
    assert t.Whole? ==> whole in Live(t, min, level, offset);
    if s.Halves? && t.Halves? {
      var mid := offset + Size(min, level - 1);
      LiveSplit(s, min, level, offset);
      LiveSplit(t, min, level, offset);
      LiveDeterminesTree(s.lo, t.lo, min, level - 1, offset);
      LiveDeterminesTree(s.hi, t.hi, min, level - 1, mid);
    }
  }

  // The two halves of a split node are told apart by the offsets of their blocks.
  lemma LiveSplit(t: Tree, min: nat, level: nat, offset: nat)
    requires Canonical(t, level) && min >= 1 && t.Halves?
    ensures Live(t.lo, min, level - 1, offset)
         == set b <- Live(t, min, level, offset) | b.offset < offset + Size(min, level - 1)
    ensures Live(t.hi, min, level - 1, offset + Size(min, level - 1))
         == set b <- Live(t, min, level, offset) | b.offset >= offset + Size(min, level - 1)
  {
    LiveWithin(t.lo, min, level - 1, offset);
    LiveWithin(t.hi, min, level - 1, offset + Size(min, level - 1));
  }

  // ----- Positions at which a block of a given level may start

  ghost predicate Slot(min: nat, level: nat, offset: nat, k: nat, o: nat) {
    if level <= k then level == k && o == offset
    else Slot(min, level - 1, offset, k, o) || Slot(min, level - 1, offset + Size(min, level - 1), k, o)
  }

  lemma {:induction false} SizeMultiple(min: nat, k: nat, level: nat) returns (q: nat)
    requires min >= 1 && k <= level
    ensures q >= 1 && Size(min, level) == q * Size(min, k)
    decreases level
  {
    if k == level {
      q := 1;
    } else {
      var p := SizeMultiple(min, k, level - 1);
      q := 2 * p;
      assert 2 * (p * Size(min, k)) == (2 * p) * Size(min, k);
    }
  }

  // Slots are exactly the aligned positions inside the region.
  lemma {:induction false} SlotIffAligned(min: nat, level: nat, offset: nat, k: nat, o: nat)
    requires min >= 1 && k <= level
    ensures Slot(min, level, offset, k, o)
       <==> offset <= o && o + Size(min, k) <= offset + Size(min, level) && (o - offset) % Size(min, k) == 0
    decreases level
  {
    var s := Size(min, k);
    if k < level {
      var half := Size(min, level - 1);
      SlotIffAligned(min, level - 1, offset, k, o);
      SlotIffAligned(min, level - 1, offset + half, k, o);
      var q := SizeMultiple(min, k, level - 1);
      if offset + half <= o {
        AddMultiple(o - (offset + half), q, s);
        assert o - (offset + half) + q * s == o - offset;
      } else if offset <= o {
        AddMultiple(o - offset, q, s);
      }
    } else if offset <= o && o + s <= offset + s {
      assert o == offset;
    }
  }

  // ----- Allocation and release on trees

  function AllocTree(t: Tree, min: nat, level: nat, offset: nat, k: nat): (r: (Option<nat>, Tree))
  {
    if t.Whole? || level < k then (None, t)
    else if level == k && t.Empty? then (Some(offset), Whole)
    else if level == 0 then (None, t)
    else
      var (lo, hi) := if t.Empty? then (Empty, Empty) else (t.lo, t.hi);
      var (o, lo') := AllocTree(lo, min, level - 1, offset, k);
      if o.Some? then (o, Halves(lo', hi))
      else
        var (o2, hi') := AllocTree(hi, min, level - 1, offset + Size(min, level - 1), k);
        if o2.Some? then (o2, Halves(lo, hi')) else (None, t)
  }

  function FreeTree(t: Tree, min: nat, level: nat, offset: nat, target: nat): Tree {
    match t
    case Empty => Empty
    case Whole => if offset == target then Empty else Whole
    case Halves(lo, hi) =>
      if level == 0 then t
      else
        var mid := offset + Size(min, level - 1);
        var (lo', hi') :=
          if target < mid then (FreeTree(lo, min, level - 1, offset, target), hi)
          else (lo, FreeTree(hi, min, level - 1, mid, target));
        if lo'.Empty? && hi'.Empty? then Empty else Halves(lo', hi')
  }

  lemma {:induction false} AllocTreeEmpty(min: nat, level: nat, offset: nat, k: nat)
    requires k <= level
    ensures AllocTree(Empty, min, level, offset, k).0 == Some(offset)
    decreases level
  {
    if k < level {
      AllocTreeEmpty(min, level - 1, offset, k);
    }
  }

  // A position is available when a block there would meet no live block.
  ghost predicate Available(live: set<Block>, o: nat, size: nat) {
    forall b <- live :: !Overlap(b, Block(o, size))
  }

  // What a successful allocation at level k does to a region: the lowest available slot is taken.
  ghost predicate Allocated(t: Tree, t': Tree, min: nat, level: nat, offset: nat, k: nat, o: nat)
    requires Canonical(t, level)
  {
    && Canonical(t', level)
    && Slot(min, level, offset, k, o)
    && Available(Live(t, min, level, offset), o, Size(min, k))
    && (forall p: nat | Slot(min, level, offset, k, p) && p < o :: !Available(Live(t, min, level, offset), p, Size(min, k)))
    && Live(t', min, level, offset) == Live(t, min, level, offset) + {Block(o, Size(min, k))}
  }

  ghost predicate Exhausted(t: Tree, min: nat, level: nat, offset: nat, k: nat)
    requires Canonical(t, level)
  {
    forall p: nat | Slot(min, level, offset, k, p) :: !Available(Live(t, min, level, offset), p, Size(min, k))
  }

  lemma {:induction false} AllocTreeTakesLowest(t: Tree, min: nat, level: nat, offset: nat, k: nat)
    requires Canonical(t, level) && min >= 1
    ensures var (o, t') := AllocTree(t, min, level, offset, k);
            if o.Some? then !t'.Empty? && Allocated(t, t', min, level, offset, k, o.value)
            else t' == t && Exhausted(t, min, level, offset, k)
    decreases level
  {
    var s := Size(min, k);
    if level < k {
    } else if t.Whole? {
      forall p | Slot(min, level, offset, k, p)
        ensures !Available(Live(t, min, level, offset), p, s)
      {
        SlotIffAligned(min, level, offset, k, p);
        assert Overlap(Block(offset, Size(min, level)), Block(p, s));
      }
    } else if level == k {
      LiveWithin(t, min, level, offset);
      if t.Halves? {
        var b :| b in Live(t, min, level, offset);
        assert Overlap(b, Block(offset, s));
      }
    } else {
      AllocTreeHalves(t, min, level, offset, k);
    }
  }

  // A slot in one half (of level h) meets no live block of the other half.
  lemma HalfSlots(lo: Tree, hi: Tree, min: nat, h: nat, offset: nat, mid: nat, k: nat, s: nat)
    requires min >= 1 && k <= h && Canonical(lo, h) && Canonical(hi, h)
    requires s == Size(min, k) && mid == offset + Size(min, h)
    ensures var live := Live(lo, min, h, offset) + Live(hi, min, h, mid);
      && (forall p: nat | Slot(min, h, offset, k, p) ::
            p + s <= mid && Available(Live(lo, min, h, offset), p, s) == Available(live, p, s))
      && (forall p: nat | Slot(min, h, mid, k, p) ::
            p >= mid && Available(Live(hi, min, h, mid), p, s) == Available(live, p, s))
  {
    hide Canonical, Live;
    LiveWithin(lo, min, h, offset);
    LiveWithin(hi, min, h, mid);
    forall p: nat | Slot(min, h, offset, k, p) ensures p + s <= mid {
      SlotIffAligned(min, h, offset, k, p);
    }
    forall p: nat | Slot(min, h, mid, k, p) ensures p >= mid {
      SlotIffAligned(min, h, mid, k, p);
    }
  }

  lemma {:induction false} AllocTreeHalves(t: Tree, min: nat, level: nat, offset: nat, k: nat)
    requires Canonical(t, level) && min >= 1 && k < level && !t.Whole?
    ensures var (o, t') := AllocTree(t, min, level, offset, k);
            if o.Some? then !t'.Empty? && Allocated(t, t', min, level, offset, k, o.value)
            else t' == t && Exhausted(t, min, level, offset, k)
    decreases level, 0
  {
    var h := level - 1;
    var s, mid := Size(min, k), offset + Size(min, h);
    var (lo, hi) := if t.Empty? then (Empty, Empty) else (t.lo, t.hi);
    HalfSlots(lo, hi, min, h, offset, mid, k, s);
    AllocTreeTakesLowest(lo, min, h, offset, k);
    AllocTreeTakesLowest(hi, min, h, mid, k);
    if t.Empty? {
      AllocTreeEmpty(min, h, offset, k);
    }
    var (o, t') := AllocTree(t, min, level, offset, k);
    assert Canonical(t', level);
    var live := Live(lo, min, h, offset) + Live(hi, min, h, mid);
    assert Live(t, min, level, offset) == live;
    if o.Some? {
      assert Live(t', min, level, offset) == live + {Block(o.value, s)};
    }
    hide Canonical, Live, Available, Size;
    assert forall p: nat :: Slot(min, level, offset, k, p) <==> Slot(min, h, offset, k, p) || Slot(min, h, mid, k, p);
  }

  // Release removes the block that starts at the target, merges, and touches nothing else.
  lemma {:induction false} FreeTreeRemoves(t: Tree, min: nat, level: nat, offset: nat, target: nat)
    requires Canonical(t, level) && min >= 1
    ensures var t' := FreeTree(t, min, level, offset, target);
            && Canonical(t', level)
            && Live(t', min, level, offset) == set b <- Live(t, min, level, offset) | b.offset != target
    decreases level
  {
    match t
    case Empty =>
    case Whole =>
    case Halves(lo, hi) =>
      var mid := offset + Size(min, level - 1);
      LiveWithin(lo, min, level - 1, offset);
      LiveWithin(hi, min, level - 1, mid);
      if target < mid {
        FreeTreeRemoves(lo, min, level - 1, offset, target);
      } else {
        FreeTreeRemoves(hi, min, level - 1, mid, target);
      }
      var t' := FreeTree(t, min, level, offset, target);
      forall b
        ensures b in Live(t', min, level, offset) <==> b in Live(t, min, level, offset) && b.offset != target
      {
      }
  }

  // ----- The node array

  // Node i lies in the subtree of node n.
  ghost predicate Below(n: nat, i: nat) {
    i == n || (i > n && Below(n, (i - 1) / 2))
  }

  lemma {:induction false} BelowChildren(n: nat, i: nat)
    ensures Below(n, i) <==> i == n || Below(2 * n + 1, i) || Below(2 * n + 2, i)
    ensures !(Below(2 * n + 1, i) && Below(2 * n + 2, i))
    ensures Below(2 * n + 1, i) || Below(2 * n + 2, i) ==> i > n
    decreases i
  {
    if i > 2 * n + 2 {
      BelowChildren(n, (i - 1) / 2);
    } else if i == 2 * n + 1 || i == 2 * n + 2 {
      assert (i - 1) / 2 == n;
    } else if i > n {
      assert !Below(n, (i - 1) / 2);
    }
  }

  lemma {:induction false} BelowRoot(i: nat)
    ensures Below(0, i)
    decreases i
  {
    if i > 0 {
      BelowRoot((i - 1) / 2);
    }
  }

  // The array is long enough for the `level` levels below node n.
  ghost predicate Fits(n: nat, level: nat, length: nat)
    decreases level
  {
    n < length && (level > 0 ==> Fits(2 * n + 1, level - 1, length) && Fits(2 * n + 2, level - 1, length))
  }

  lemma {:induction false} FitsIfLongEnough(n: nat, level: nat, length: nat)
    requires (n + 2) * Size(1, level) <= length + 1
    ensures Fits(n, level, length)
    decreases level
  {
    if level > 0 {
      var half := Size(1, level - 1);
      assert (n + 2) * (2 * half) == (2 * n + 4) * half;
      assert (2 * n + 3) * half == (2 * n + 4) * half - half;
      FitsIfLongEnough(2 * n + 1, level - 1, length);
      FitsIfLongEnough(2 * n + 2, level - 1, length);
      assert (n + 2) * (2 * half) >= (n + 2) * 1;
    } else {
      assert (n + 2) * 1 == n + 2;
    }
  }

  ghost predicate AllFreeBelow(a: seq<NodeState>, n: nat) {
    forall i: nat | i < |a| && Below(n, i) :: a[i] == Free
  }

  // The part of the array below node n is the picture of tree t.
  ghost predicate Represents(a: seq<NodeState>, n: nat, level: nat, t: Tree)
    requires Fits(n, level, |a|)
    decreases level
  {
    match t
    case Empty => AllFreeBelow(a, n)
    case Whole => a[n] == Used && AllFreeBelow(a, 2 * n + 1) && AllFreeBelow(a, 2 * n + 2)
    case Halves(lo, hi) =>
      && level > 0 && a[n] == Split
      && Represents(a, 2 * n + 1, level - 1, lo)
      && Represents(a, 2 * n + 2, level - 1, hi)
  }

  ghost predicate SameBelow(a: seq<NodeState>, b: seq<NodeState>, n: nat) {
    |a| == |b| && forall i: nat | i < |a| && Below(n, i) :: a[i] == b[i]
  }

  ghost predicate SameElsewhere(a: seq<NodeState>, b: seq<NodeState>, n: nat) {
    |a| == |b| && forall i: nat | i < |a| && !Below(n, i) :: a[i] == b[i]
  }

  lemma {:induction false} RepresentsFrame(a: seq<NodeState>, b: seq<NodeState>, n: nat, level: nat, t: Tree)
    requires Fits(n, level, |a|) && Represents(a, n, level, t) && SameBelow(a, b, n)
    ensures Represents(b, n, level, t)
    decreases level
  {
    forall i: nat { BelowChildren(n, i); }
    if t.Halves? {
      RepresentsFrame(a, b, 2 * n + 1, level - 1, t.lo);
      RepresentsFrame(a, b, 2 * n + 2, level - 1, t.hi);
    }
  }

  // An array is determined by the tree it represents.
  lemma {:induction false} RepresentsUnique(a: seq<NodeState>, b: seq<NodeState>, n: nat, level: nat, t: Tree)
    requires |a| == |b| && Fits(n, level, |a|) && Represents(a, n, level, t) && Represents(b, n, level, t)
    ensures SameBelow(a, b, n)
    decreases level
  {
    forall i: nat { BelowChildren(n, i); }
    if t.Halves? {
      RepresentsUnique(a, b, 2 * n + 1, level - 1, t.lo);
      RepresentsUnique(a, b, 2 * n + 2, level - 1, t.hi);
    }
  }

  // Replacing one half of a split node.
  lemma ReplaceHalf(a: seq<NodeState>, b: seq<NodeState>, n: nat, level: nat, lo: Tree, hi: Tree, left: bool)
    requires level > 0 && Fits(n, level, |a|) && a[n] == Split
    requires SameElsewhere(a, b, if left then 2 * n + 1 else 2 * n + 2)
    requires if left then Represents(b, 2 * n + 1, level - 1, lo) && Represents(a, 2 * n + 2, level - 1, hi)
             else Represents(a, 2 * n + 1, level - 1, lo) && Represents(b, 2 * n + 2, level - 1, hi)
    ensures SameElsewhere(a, b, n)
    ensures b[n] == Split && Represents(b, n, level, Halves(lo, hi))
  {
    var l, r := 2 * n + 1, 2 * n + 2;
    forall i: nat
      ensures Below(l, i) ==> Below(n, i) && i > n && !Below(r, i)
      ensures Below(r, i) ==> Below(n, i) && i > n && !Below(l, i)
    {
      BelowChildren(n, i);
    }
    assert n < |a| && !Below(l, n) && !Below(r, n);
    if left {
      assert SameBelow(a, b, r);
      RepresentsFrame(a, b, r, level - 1, hi);
    } else {
      assert SameBelow(a, b, l);
      RepresentsFrame(a, b, l, level - 1, lo);
    }
  }

  // In a represented tree a node is Split exactly when some node below it is Used, and everything
  // strictly below a Free or a Used node is Free.
  lemma {:induction false} SplitIffUsedBelow(a: seq<NodeState>, n: nat, level: nat, t: Tree, i: nat)
    requires Fits(n, level, |a|) && Canonical(t, level) && Represents(a, n, level, t)
    requires i < |a| && Below(n, i)
    ensures a[i] == Split <==> exists j: nat :: j < |a| && j != i && Below(i, j) && a[j] == Used
    ensures a[i] != Split ==> forall j: nat | j < |a| && j != i && Below(i, j) :: a[j] == Free
    decreases level
  {
    BelowChildren(n, i);
    match t
    case Empty =>
      forall j: nat | Below(i, j) ensures Below(n, j) { BelowTrans(n, i, j); }
    case Whole =>
      forall j: nat | j != i && Below(i, j) ensures j != n && Below(n, j) { BelowTrans(n, i, j); BelowOrder(n, i); BelowOrder(i, j); }
      forall j: nat { BelowChildren(n, j); }
    case Halves(lo, hi) =>
      if i != n {
        if Below(2 * n + 1, i) {
          SplitIffUsedBelow(a, 2 * n + 1, level - 1, lo, i);
        } else {
          SplitIffUsedBelow(a, 2 * n + 2, level - 1, hi, i);
        }
      } else {
        var j := UsedBelow(a, n, level, t);
      }
  }

  lemma {:induction false} BelowOrder(n: nat, i: nat)
    requires Below(n, i)
    ensures n <= i
  {
  }

  lemma {:induction false} BelowTrans(n: nat, i: nat, j: nat)
    requires Below(n, i) && Below(i, j)
    ensures Below(n, j)
    decreases j
  {
    if j != i {
      BelowTrans(n, i, (j - 1) / 2);
      BelowOrder(n, i);
      BelowOrder(i, j);
    }
  }

  lemma {:induction false} UsedBelow(a: seq<NodeState>, n: nat, level: nat, t: Tree) returns (j: nat)
    requires Fits(n, level, |a|) && Canonical(t, level) && Represents(a, n, level, t) && !t.Empty?
    ensures j < |a| && Below(n, j) && a[j] == Used
    ensures t.Halves? ==> j != n
    decreases level
  {
    j := n;
    if t.Halves? {
      if t.lo.Empty? {
        j := UsedBelow(a, 2 * n + 2, level - 1, t.hi);
      } else {
        j := UsedBelow(a, 2 * n + 1, level - 1, t.lo);
      }
      BelowChildren(n, j);
    }
  }

  // ----- The allocator seen from outside: a set of live blocks

  datatype Op = Alloc(size: nat) | Release(ptr: Option<int>)

  // The request rounded up as buddy_next_pow2 does.
  ghost predicate Rounded(min: nat, size: nat, k: nat) {
    size <= Size(min, k) && (k > 0 ==> Size(min, k - 1) < size)
  }

  // o is the lowest offset, aligned to the block size, where a block of level k meets no live block.
  ghost predicate LowestFit(live: set<Block>, pool: nat, size: nat, o: nat)
    requires size >= 1
  {
    && o % size == 0 && o + size <= pool && Available(live, o, size)
    && forall p: nat | p < o && p % size == 0 && p + size <= pool :: !Available(live, p, size)
  }

  ghost predicate SpecAlloc(pool: nat, live: set<Block>, size: nat, result: Option<nat>, live': set<Block>)
    requires size >= 1
  {
    match result
    case Some(o) => LowestFit(live, pool, size, o) && live' == live + {Block(o, size)}
    case None => live' == live && forall o: nat | o % size == 0 && o + size <= pool :: !Available(live, o, size)
  }

  // One call, described without the tree: the result and the live blocks afterwards.
  ghost predicate SpecStep(min: nat, levels: nat, live: set<Block>, op: Op, result: Option<nat>, live': set<Block>)
    requires min >= 1
  {
    var pool := Size(min, levels);
    match op
    case Alloc(size) =>
      if size == 0 || size > pool then result == None && live' == live
      else
        exists k: nat :: Rounded(min, size, k) && SpecAlloc(pool, live, Size(min, k), result, live')
    case Release(ptr) =>
      && result == None
      && live' == set b <- live | !(ptr.Some? && b.offset == ptr.value)
  }

  // A whole run: one live set before each call and one at the end.
  ghost predicate SpecRun(min: nat, levels: nat, lives: seq<set<Block>>, ops: seq<Op>, results: seq<Option<nat>>)
    requires min >= 1
  {
    && |lives| == |ops| + 1 && |results| == |ops|
    && forall i | 0 <= i < |ops| :: SpecStep(min, levels, lives[i], ops[i], results[i], lives[i + 1])
  }

  method NextPow2(min: nat, x: nat) returns (p: nat, ghost k: nat)
    requires min >= 1
    ensures p == Size(min, k) && Rounded(min, x, k)
    ensures p < 2 * x || p == min
  {
    p, k := min, 0;
    while p < x
      invariant p == Size(min, k)
      invariant k > 0 ==> Size(min, k - 1) < x
      decreases x - p
    {
      p, k := 2 * p, k + 1;
    }
  }

  class Buddy {
    const min: nat
    const levels: nat
    const tree: array<NodeState>
    ghost var shape: Tree

    ghost predicate Valid()
      reads this, tree
    {
      && min >= 1
      && tree.Length == 2 * Size(1, levels) - 1
      && Fits(0, levels, tree.Length)
      && Canonical(shape, levels)
      && Represents(tree[..], 0, levels, shape)
    }

    ghost function Blocks(): set<Block>
      requires Valid()
      reads this, tree
    {
      Live(shape, min, levels, 0)
    }

    constructor (min: nat, levels: nat)
      requires min >= 1
      ensures Valid() && fresh(tree)
      ensures this.min == min && this.levels == levels && Blocks() == {}
    {
      this.min, this.levels := min, levels;
      tree := new NodeState[2 * Size(1, levels) - 1](_ => Free);
      shape := Empty;
      FitsIfLongEnough(0, levels, 2 * Size(1, levels) - 1);
    }

    method AllocNode(node: nat, nodeSize: nat, nodeOffset: nat, reqSize: nat, ghost level: nat, ghost k: nat, ghost t: Tree)
      returns (ok: bool, offset: nat, ghost t': Tree)
      requires min >= 1 && nodeSize == Size(min, level) && reqSize == Size(min, k)
      requires Fits(node, level, tree.Length) && Canonical(t, level) && Represents(tree[..], node, level, t)
      modifies tree
      ensures AllocTree(t, min, level, nodeOffset, k) == (if ok then Some(offset) else None, t')
      ensures Represents(tree[..], node, level, t')
      ensures SameElsewhere(old(tree[..]), tree[..], node)
      decreases level
    {
      ok, offset, t' := false, 0, t;
      if node >= tree.Length { return; }
      if tree[node] == Used { return; }
      SizeOrder(min, level, k);
      if nodeSize < reqSize { return; }
      if nodeSize == reqSize && tree[node] == Free {
        tree[node] := Used;
        TakeWhole(old(tree[..]), tree[..], node, level, t);
        return true, nodeOffset, Whole;
      }
      ghost var lo, hi := Empty, Empty;
      if tree[node] == Free {
        SizeOrder(min, level, 0);
        if nodeSize <= min { return; }
        tree[node] := Split;
        SplitEmpty(old(tree[..]), tree[..], node, level, t);
        AllocTreeEmpty(min, level - 1, nodeOffset, k);
      } else {
        lo, hi := t.lo, t.hi;
      }
      label splitDone:
      ok, offset, t' := AllocInHalves(node, nodeSize / 2, nodeOffset, reqSize, level, k, lo, hi);
      SameElsewhereTrans(old(tree[..]), old@splitDone(tree[..]), tree[..], node);
    }

    // The two recursive calls of AllocNode: the low half first, then the high half.
    method AllocInHalves(node: nat, cs: nat, nodeOffset: nat, reqSize: nat, ghost level: nat, ghost k: nat, ghost lo: Tree, ghost hi: Tree)
      returns (ok: bool, offset: nat, ghost t': Tree)
      requires min >= 1 && level > 0 && cs == Size(min, level - 1) && reqSize == Size(min, k)
      requires Fits(node, level, tree.Length) && Canonical(lo, level - 1) && Canonical(hi, level - 1)
      requires Represents(tree[..], node, level, Halves(lo, hi))
      modifies tree
      ensures var inLo := AllocTree(lo, min, level - 1, nodeOffset, k);
              var inHi := AllocTree(hi, min, level - 1, nodeOffset + cs, k);
              (if ok then Some(offset) else None, t') ==
              if inLo.0.Some? then (inLo.0, Halves(inLo.1, hi)) else (inHi.0, Halves(lo, inHi.1))
      ensures !ok ==> t' == Halves(lo, hi)
      ensures Represents(tree[..], node, level, t')
      ensures SameElsewhere(old(tree[..]), tree[..], node)
      decreases level, 0
    {
      ghost var lo', hi';
      AllocTreeTakesLowest(lo, min, level - 1, nodeOffset, k);
      AllocTreeTakesLowest(hi, min, level - 1, nodeOffset + cs, k);
      ok, offset, lo' := AllocNode(2 * node + 1, cs, nodeOffset, reqSize, level - 1, k, lo);
      ReplaceHalf(old(tree[..]), tree[..], node, level, lo', hi, true);
      if ok { return ok, offset, Halves(lo', hi); }
      label loDone:
      ok, offset, hi' := AllocNode(2 * node + 2, cs, nodeOffset + cs, reqSize, level - 1, k, hi);
      ReplaceHalf(old@loDone(tree[..]), tree[..], node, level, lo', hi', false);
      SameElsewhereTrans(old(tree[..]), old@loDone(tree[..]), tree[..], node);
      t' := Halves(lo', hi');
    }

    method FreeNode(node: nat, nodeSize: nat, nodeOffset: nat, target: nat, ghost level: nat, ghost t: Tree)
      returns (ghost t': Tree)
      requires min >= 1 && nodeSize == Size(min, level)
      requires Fits(node, level, tree.Length) && Canonical(t, level) && Represents(tree[..], node, level, t)
      modifies tree
      ensures t' == FreeTree(t, min, level, nodeOffset, target)
      ensures Represents(tree[..], node, level, t')
      ensures SameElsewhere(old(tree[..]), tree[..], node)
      decreases level
    {
      t' := t;
      if node >= tree.Length { return; }
      if tree[node] == Free { EmptyMeansFree(tree[..], node, level, t); return; }
      if tree[node] == Used {
        if nodeOffset == target {
          tree[node] := Free;
          FreeWhole(old(tree[..]), tree[..], node, level, t);
          t' := Empty;
        }
        return;
      }
      var cs := nodeSize / 2;
      ghost var lo', hi' := t.lo, t.hi;
      if target < nodeOffset + cs {
        lo' := FreeNode(2 * node + 1, cs, nodeOffset, target, level - 1, t.lo);
        ReplaceHalf(old(tree[..]), tree[..], node, level, lo', hi', true);
      } else {
        hi' := FreeNode(2 * node + 2, cs, nodeOffset + cs, target, level - 1, t.hi);
        ReplaceHalf(old(tree[..]), tree[..], node, level, lo', hi', false);
      }
      t' := Halves(lo', hi');
      label halvesDone:
      if tree[node] == Split {
        EmptyMeansFree(tree[..], 2 * node + 1, level - 1, lo');
        EmptyMeansFree(tree[..], 2 * node + 2, level - 1, hi');
        if 2 * node + 2 < tree.Length && tree[2 * node + 1] == Free && tree[2 * node + 2] == Free {
          tree[node] := Free;
          MergeHalves(old@halvesDone(tree[..]), tree[..], node, level);
          SameElsewhereTrans(old(tree[..]), old@halvesDone(tree[..]), tree[..], node);
          t' := Empty;
        }
      }
    }

    // buddy_alloc; the result is an offset into the pool.
    method Alloc(size: nat) returns (result: Option<nat>)
      requires Valid()
      modifies this, tree
      ensures Valid()
      ensures SpecStep(min, levels, old(Blocks()), Op.Alloc(size), result, Blocks())
      ensures result == None ==> tree[..] == old(tree[..])
    {
      var pool := Size(min, levels);
      if size == 0 || size > pool { return None; }
      ghost var k, t';
      var req, ok, offset;
      req, k := NextPow2(min, size);
      SizeOrder(min, levels, k);
      if k > 0 { SizeOrder(min, levels, k - 1); }
      ok, offset, t' := AllocNode(0, pool, 0, req, levels, k, shape);
      AllocTreeTakesLowest(shape, min, levels, 0, k);
      forall o: nat { SlotIffAligned(min, levels, 0, k, o); }
      if !ok {
        ArrayDeterminedByBlocks(old(tree[..]), tree[..], shape, shape, min, levels);
      }
      shape := t';
      result := if ok then Some(offset) else None;
      assert SpecAlloc(pool, old(Blocks()), Size(min, k), result, Blocks());
    }

    // buddy_free; the pointer is given relative to the start of the pool.
    method Release(ptr: Option<int>)
      requires Valid()
      modifies this, tree
      ensures Valid()
      ensures SpecStep(min, levels, old(Blocks()), Op.Release(ptr), None, Blocks())
      ensures (forall b <- old(Blocks()) :: ptr != Some(b.offset)) ==> tree[..] == old(tree[..])
    {
      LiveWithin(shape, min, levels, 0);
      if ptr.None? { return; }
      var p := ptr.value;
      if p < 0 || p >= Size(min, levels) { return; }
      ghost var t' := FreeNode(0, Size(min, levels), 0, p, levels, shape);
      FreeTreeRemoves(shape, min, levels, 0, p);
      if forall b <- old(Blocks()) :: ptr != Some(b.offset) {
        ArrayDeterminedByBlocks(old(tree[..]), tree[..], shape, t', min, levels);
      }
      shape := t';
    }

    // Every run of calls behaves as the same run on sets of live blocks.
    method Run(ops: seq<Op>) returns (results: seq<Option<nat>>, ghost lives: seq<set<Block>>)
      requires Valid()
      modifies this, tree
      ensures Valid()
      ensures SpecRun(min, levels, lives, ops, results)
      ensures lives[0] == old(Blocks()) && lives[|ops|] == Blocks()
    {
      hide SpecStep, Represents, Canonical, Fits, Size;
      results, lives := [], [Blocks()];
      for i := 0 to |ops|
        invariant Valid()
        invariant SpecRun(min, levels, lives, ops[..i], results)
        invariant lives[0] == old(Blocks()) && lives[i] == Blocks()
      {
        var r := None;
        match ops[i] {
          case Alloc(size) => r := Alloc(size);
          case Release(ptr) => Release(ptr);
        }
        assert SpecStep(min, levels, lives[i], ops[i], r, Blocks());
        results, lives := results + [r], lives + [Blocks()];
      }
      assert ops[..|ops|] == ops;
    }

    // The live blocks are aligned to their size, inside the pool, and pairwise disjoint.
    lemma LiveBlocksWellPlaced()
      requires Valid()
      ensures forall b <- Blocks() :: b.size >= min && b.offset + b.size <= Size(min, levels) && b.offset % b.size == 0
      ensures forall a, b | a in Blocks() && b in Blocks() && a != b :: !Overlap(a, b)
    {
      LiveWithin(shape, min, levels, 0);
      forall a, b | a in Blocks() && b in Blocks() && a != b ensures !Overlap(a, b) {
        LiveDisjoint(shape, min, levels, 0, a, b);
      }
      forall b | b in Blocks() ensures b.size >= min && b.offset % b.size == 0 {
        var k := LiveIsSlot(shape, min, levels, 0, b);
        SlotIffAligned(min, levels, 0, k, b.offset);
      }
    }

    // Releasing a block just allocated restores the node array, node for node.
    method AllocThenRelease(size: nat)
      requires Valid()
      modifies this, tree
      ensures Valid() && tree[..] == old(tree[..]) && Blocks() == old(Blocks())
    {
      ghost var before := shape;
      var result := Alloc(size);
      if result.Some? {
        LiveWithin(before, min, levels, 0);
        Release(result);
        ArrayDeterminedByBlocks(old(tree[..]), tree[..], before, shape, min, levels);
      }
    }
  }

  // Any two valid arrays with the same live blocks are equal.
  lemma ArrayDeterminedByBlocks(a: seq<NodeState>, b: seq<NodeState>, s: Tree, t: Tree, min: nat, levels: nat)
    requires min >= 1 && |a| == |b| && Fits(0, levels, |a|) && Canonical(s, levels) && Canonical(t, levels)
    requires Represents(a, 0, levels, s) && Represents(b, 0, levels, t)
    requires Live(s, min, levels, 0) == Live(t, min, levels, 0)
    ensures a == b
  {
    LiveDeterminesTree(s, t, min, levels, 0);
    RepresentsUnique(a, b, 0, levels, s);
    forall i: nat { BelowRoot(i); }
  }

  lemma {:induction false} LiveIsSlot(t: Tree, min: nat, level: nat, offset: nat, b: Block) returns (k: nat)
    requires Canonical(t, level) && b in Live(t, min, level, offset)
    ensures k <= level && b.size == Size(min, k) && Slot(min, level, offset, k, b.offset)
    decreases level
  {
    if t.Whole? {
      k := level;
    } else if b in Live(t.lo, min, level - 1, offset) {
      k := LiveIsSlot(t.lo, min, level - 1, offset, b);
    } else {
      k := LiveIsSlot(t.hi, min, level - 1, offset + Size(min, level - 1), b);
    }
  }

  lemma EmptyMeansFree(a: seq<NodeState>, n: nat, level: nat, t: Tree)
    requires Fits(n, level, |a|) && Represents(a, n, level, t)
    ensures t == Empty <==> a[n] == Free
  {
    assert Below(n, n);
  }

  lemma FreeWhole(a: seq<NodeState>, b: seq<NodeState>, n: nat, level: nat, t: Tree)
    requires Fits(n, level, |a|) && Represents(a, n, level, t) && a[n] == Used
    requires b == a[n := Free]
    ensures t == Whole && Represents(b, n, level, Empty) && SameElsewhere(a, b, n)
  {
    forall i: nat { BelowChildren(n, i); }
  }

  lemma MergeHalves(a: seq<NodeState>, b: seq<NodeState>, n: nat, level: nat)
    requires level > 0 && Fits(n, level, |a|) && Represents(a, n, level, Halves(Empty, Empty))
    requires b == a[n := Free]
    ensures Represents(b, n, level, Empty) && SameElsewhere(a, b, n)
  {
    forall i: nat { BelowChildren(n, i); }
  }

  lemma SizeOrder(min: nat, a: nat, b: nat)
    requires min >= 1
    ensures Size(min, a) < Size(min, b) <==> a < b
    ensures Size(min, a) == Size(min, b) <==> a == b
  {
    if a < b {
      SizeMonotone(min, a, b);
    } else if b < a {
      SizeMonotone(min, b, a);
    }
  }

  lemma TakeWhole(a: seq<NodeState>, b: seq<NodeState>, n: nat, level: nat, t: Tree)
    requires Fits(n, level, |a|) && Represents(a, n, level, t) && a[n] == Free
    requires b == a[n := Used]
    ensures t == Empty && Represents(b, n, level, Whole) && SameElsewhere(a, b, n)
  {
    forall i: nat { BelowChildren(n, i); }
  }

  lemma SplitEmpty(a: seq<NodeState>, b: seq<NodeState>, n: nat, level: nat, t: Tree)
    requires level > 0 && Fits(n, level, |a|) && Represents(a, n, level, t) && a[n] == Free
    requires b == a[n := Split]
    ensures t == Empty && Represents(b, n, level, Halves(Empty, Empty)) && SameElsewhere(a, b, n)
  {
    forall i: nat { BelowChildren(n, i); }
  }

  lemma SameElsewhereTrans(a: seq<NodeState>, b: seq<NodeState>, c: seq<NodeState>, n: nat)
    requires SameElsewhere(a, b, n) && SameElsewhere(b, c, n)
    ensures SameElsewhere(a, c, n)
  {
  }
}
