/**
 The block cache of kernel/blk.c: 256 slots, written back when evicted or synced.

 `Logical` is the block a reader of the cache sees.  Devices are plain stores; a block never
 written holds zeros.  Class `BlkCache` is proved to behave as an uncached disk over every run.
 */
module BlockCache {
  import opened Bytes
  import opened Wrappers

  const BLK_SIZE := 4096
  const BLK_CACHE := 256
  const MAX_DEVS := 8

  type Block = b: seq<Byte> | |b| == BLK_SIZE witness ZeroBlock()

  function ZeroBlock(): seq<Byte> { seq(BLK_SIZE, _ => 0) }

  datatype Addr = Addr(dev: nat, lba: nat)

  datatype Slot = Slot(at: Addr, data: Block, dirty: bool, valid: bool, lastAccess: nat)

  type Store = map<Addr, Block>

  // A plain disk: it holds some block at every address.
  type Disk = d: imap<Addr, Block> | forall a :: a in d ghost witness (imap a: Addr :: ZeroBlock())

  function StoreAt(store: Store, a: Addr): Block { if a in store then store[a] else ZeroBlock() }

  // ----- Slots

  predicate Holds(s: Slot, a: Addr) { s.valid && s.at == a }

  // The first slot holding a, or the number of slots.
  function IndexOf(slots: seq<Slot>, a: Addr): (i: nat)
    ensures i <= |slots| && (i < |slots| ==> Holds(slots[i], a))
    ensures forall j | 0 <= j < i :: !Holds(slots[j], a)
  {
    if slots == [] then 0
    else
      var i := IndexOf(slots[..|slots| - 1], a);
      if i < |slots| - 1 then i
      else if Holds(slots[|slots| - 1], a) then |slots| - 1 else |slots|
  }

  function Logical(slots: seq<Slot>, store: Store, a: Addr): Block {
    var i := IndexOf(slots, a);
    if i < |slots| then slots[i].data else StoreAt(store, a)
  }

  ghost predicate NoDuplicates(slots: seq<Slot>) {
    forall i, j | 0 <= i < j < |slots| && slots[i].valid && slots[j].valid :: slots[i].at != slots[j].at
  }

  // The stamp of a cached block is the number of its last access: everything later is another block.
  ghost predicate AccessOrder(slots: seq<Slot>, history: seq<Addr>) {
    forall i | 0 <= i < |slots| && slots[i].valid :: Stamped(slots[i], history)
  }

  ghost predicate Stamped(s: Slot, history: seq<Addr>) {
    0 < s.lastAccess <= |history| && history[s.lastAccess - 1] == s.at && s.at !in history[s.lastAccess..]
  }

  // When a was last accessed, counted from 1; 0 for never.
  function LastUse(history: seq<Addr>, a: Addr): (k: nat)
    ensures k <= |history|
  {
    if history == [] then 0
    else if history[|history| - 1] == a then |history|
    else LastUse(history[..|history| - 1], a)
  }

  lemma {:induction false} StampIsLastUse(s: Slot, history: seq<Addr>)
    requires Stamped(s, history)
    ensures s.lastAccess == LastUse(history, s.at)
  {
    var n := |history| - 1;
    if s.lastAccess <= n {
      assert history[n] in history[s.lastAccess..];
      assert history[..n][s.lastAccess..] == history[s.lastAccess..][..n - s.lastAccess];
      StampIsLastUse(s, history[..n]);
    }
  }

  lemma StampsDistinct(slots: seq<Slot>, history: seq<Addr>, i: nat, j: nat)
    requires NoDuplicates(slots) && AccessOrder(slots, history)
    requires i < |slots| && j < |slots| && i != j && slots[i].valid && slots[j].valid
    ensures slots[i].lastAccess != slots[j].lastAccess
  {
  }

  // One more access, to the block of slot v.
  lemma AccessNext(slots: seq<Slot>, history: seq<Addr>, v: nat, slot: Slot)
    requires AccessOrder(slots, history) && v < |slots| && NoDuplicates(slots[v := slot])
    requires slot.valid && slot.lastAccess == |history| + 1
    ensures AccessOrder(slots[v := slot], history + [slot.at])
  {
    var slots', history' := slots[v := slot], history + [slot.at];
    forall i | 0 <= i < |slots'| && slots'[i].valid ensures Stamped(slots'[i], history') {
      if i != v {
        assert slots'[i] == slots[i] && Stamped(slots[i], history) && slots'[v] == slot;
        if i < v { assert slots'[i].at != slots'[v].at; } else { assert slots'[v].at != slots'[i].at; }
        assert history'[slots[i].lastAccess..] == history[slots[i].lastAccess..] + [slot.at];
      }
    }
  }

  // Clean slots agree with the device, and every cached block has a device to go to.
  ghost predicate BackedBy(slots: seq<Slot>, store: Store, devs: seq<nat>) {
    forall i | 0 <= i < |slots| && slots[i].valid ::
      slots[i].at.dev in devs && (!slots[i].dirty ==> slots[i].data == StoreAt(store, slots[i].at))
  }

  // The slot to reuse: a free one, or else the clean one with the lowest stamp, or else the one with the
  // lowest stamp.
  ghost predicate IsVictim(slots: seq<Slot>, v: int) {
    && 0 <= v < |slots|
    && (slots[v].valid ==>
          && (forall j | 0 <= j < |slots| :: slots[j].valid)
          && (forall j | 0 <= j < |slots| && j != v && slots[j].dirty == slots[v].dirty ::
                slots[v].lastAccess < slots[j].lastAccess)
          && (slots[v].dirty ==> forall j | 0 <= j < |slots| :: slots[j].dirty))
  }

  /**
   * The victim is least recently used: if no slot is free, every other block as clean or dirty as
   * the victim's has been accessed since, and a dirty block goes only when no block is clean.
   */
  lemma VictimLeastRecentlyUsed(slots: seq<Slot>, history: seq<Addr>, v: nat, j: nat)
    requires AccessOrder(slots, history) && v < |slots| && IsVictim(slots, v) && slots[v].valid && j < |slots| && j != v
    ensures slots[j].valid && (slots[v].dirty ==> slots[j].dirty)
    ensures slots[j].dirty == slots[v].dirty ==> LastUse(history, slots[v].at) < LastUse(history, slots[j].at)
  {
    StampIsLastUse(slots[v], history);
    StampIsLastUse(slots[j], history);
  }

  lemma IndexUnique(slots: seq<Slot>, a: Addr, i: nat)
    requires NoDuplicates(slots) && i < |slots| && Holds(slots[i], a)
    ensures IndexOf(slots, a) == i
  {
  }

  // Replacing a slot that is free or clean by one holding `a` changes nothing but a.
  lemma ReplaceLogical(slots: seq<Slot>, store: Store, devs: seq<nat>, v: nat, slot: Slot, b: Addr)
    requires NoDuplicates(slots) && BackedBy(slots, store, devs) && v < |slots| && slot.valid
    requires slots[v].valid ==> !slots[v].dirty || slots[v].at == slot.at
    requires (slots[v].valid && slots[v].at == slot.at) || IndexOf(slots, slot.at) == |slots|
    ensures NoDuplicates(slots[v := slot])
    ensures Logical(slots[v := slot], store, b) == if b == slot.at then slot.data else Logical(slots, store, b)
  {
    var slots' := slots[v := slot];
    forall i, j | 0 <= i < j < |slots'| && slots'[i].valid && slots'[j].valid
      ensures slots'[i].at != slots'[j].at
    {
      assert i != v ==> !Holds(slots[i], slot.at) || slots[v].valid;
      assert j != v ==> !Holds(slots[j], slot.at) || slots[v].valid;
    }
    assert NoDuplicates(slots');
    if b == slot.at {
      IndexUnique(slots', b, v);
    } else {
      var i := IndexOf(slots, b);
      if i < |slots| && i != v {
        IndexUnique(slots', b, i);
      } else {
        assert forall j | 0 <= j < |slots'| :: !Holds(slots'[j], b);
      }
    }
  }

  // Writing a dirty slot back changes nothing a reader sees.
  lemma FlushLogical(slots: seq<Slot>, store: Store, devs: seq<nat>, i: nat, b: Addr)
    requires NoDuplicates(slots) && BackedBy(slots, store, devs) && i < |slots| && slots[i].valid
    ensures var slots', store' := slots[i := slots[i].(dirty := false)], store[slots[i].at := slots[i].data];
      && NoDuplicates(slots') && BackedBy(slots', store', devs)
      && Logical(slots', store', b) == Logical(slots, store, b)
  {
    var slots', store' := slots[i := slots[i].(dirty := false)], store[slots[i].at := slots[i].data];
    assert NoDuplicates(slots');
    var k := IndexOf(slots, b);
    if k < |slots| {
      IndexUnique(slots', b, k);
    } else {
      assert forall j | 0 <= j < |slots'| :: !Holds(slots'[j], b);
    }
  }

  lemma MissingBlock(slots: seq<Slot>, store: Store, a: Addr)
    requires IndexOf(slots, a) == |slots|
    ensures Logical(slots, store, a) == StoreAt(store, a)
  {
  }

  lemma StillMissing(slots: seq<Slot>, slots': seq<Slot>, a: Addr, v: nat)
    requires v < |slots| == |slots'| && IndexOf(slots, a) == |slots|
    requires slots' == slots[v := slots[v].(dirty := slots'[v].dirty)]
    ensures IndexOf(slots', a) == |slots'|
  {
    assert !Holds(slots[v], a);
  }

  class BlkCache {
    const slots: array<Slot>
    var clock: nat
    var devs: seq<nat>      // the registered devices
    var store: Store        // what the devices hold
    ghost var history: seq<Addr>    // the blocks read and written so far, in order

    ghost predicate Valid()
      reads this, slots
    {
      && slots.Length == BLK_CACHE
      && NoDuplicates(slots[..]) && AccessOrder(slots[..], history) && BackedBy(slots[..], store, devs)
      && clock == |history|
    }

    ghost function View(): Disk
      reads this, slots
    {
      imap a: Addr :: Logical(slots[..], store, a)
    }

    // blk_init, over devices with these contents
    constructor (contents: Store)
      ensures Valid() && fresh(slots) && devs == [] && store == contents && history == []
      ensures forall a :: View()[a] == StoreAt(contents, a)
    {
      slots := new Slot[BLK_CACHE](_ => Slot(Addr(0, 0), ZeroBlock(), false, false, 0));
      clock, devs, store, history := 0, [], contents, [];
    }

    // cache_find
    method CacheFind(a: Addr) returns (i: nat)
      ensures i == IndexOf(slots[..], a)
    {
      i := 0;
      while i < slots.Length
        invariant i <= slots.Length
        invariant forall j | 0 <= j < i :: !Holds(slots[j], a)
      {
        if slots[i].valid && slots[i].at == a { return; }
        i := i + 1;
      }
    }

    // cache_evict
    method CacheEvict() returns (v: nat)
      requires Valid()
      ensures IsVictim(slots[..], v)
      ensures slots[v].valid || forall j | 0 <= j < v :: slots[j].valid
    {
      var best := -1;
      for i := 0 to slots.Length
        invariant -1 <= best < i && (best == -1 <==> i == 0)
        invariant forall j | 0 <= j < i :: slots[j].valid
        invariant best >= 0 ==> forall j | 0 <= j < i && j != best && slots[j].dirty == slots[best].dirty ::
                    slots[best].lastAccess < slots[j].lastAccess
        invariant best >= 0 && slots[best].dirty ==> forall j | 0 <= j < i :: slots[j].dirty
      {
        if !slots[i].valid { return i; }
        if best >= 0 { StampsDistinct(slots[..], history, best, i); }
        if best == -1 || (!slots[i].dirty && slots[best].dirty) ||
           (slots[i].dirty == slots[best].dirty && slots[i].lastAccess < slots[best].lastAccess) {
          best := i;
        }
      }
      return best;
    }

    // blk_find_dev: whether a device with this number is registered
    method FindDev(dev: nat) returns (found: bool)
      ensures found == (dev in devs)
    {
      for i := 0 to |devs|
        invariant dev !in devs[..i]
      {
        if devs[i] == dev { return true; }
      }
      return false;
    }

    // blk_register_dev; a device that does not fit in the table is ignored
    method RegisterDev(dev: nat)
      requires Valid()
      modifies this`devs
      ensures Valid() && View() == old(View())
      ensures devs == if |old(devs)| < MAX_DEVS then old(devs) + [dev] else old(devs)
    {
      if |devs| >= MAX_DEVS { return; }
      devs := devs + [dev];
    }

    // flush_buf
    method FlushBuf(i: nat)
      requires Valid() && i < slots.Length
      modifies this`store, slots
      ensures Valid() && View() == old(View())
      ensures slots[..] == old(slots[..])[i := old(slots[i]).(dirty := if slots[i].valid then false else old(slots[i].dirty))]
    {
      hide Logical, StoreAt;
      if !slots[i].valid || !slots[i].dirty { return; }
      var found := FindDev(slots[i].at.dev);
      if found {
        ghost var flushed := slots[..][i := slots[i].(dirty := false)];
        FlushLogical(slots[..], store, devs, i, slots[i].at);
        forall b {
          FlushLogical(slots[..], store, devs, i, b);
        }
        store := store[slots[i].at := slots[i].data];
        slots[i] := slots[i].(dirty := false);
        assert slots[..] == flushed;
      }
    }

    // The victim, written back if need be, and then filled with a block.
    method Insert(a: Addr, data: Block, dirty: bool) returns (ghost v: nat)
      requires Valid() && IndexOf(slots[..], a) == BLK_CACHE && a.dev in devs
      requires dirty || data == StoreAt(store, a)
      modifies this`store, this`clock, this`history, slots
      ensures Valid() && View() == old(View())[a := data] && history == old(history) + [a]
      ensures v < slots.Length && IsVictim(old(slots[..]), v)
      ensures slots[..] == old(slots[..])[v := Slot(a, data, dirty, true, clock)]
    {
      hide Logical, StoreAt, IndexOf, AccessOrder;
      var victim := CacheEvict();
      v := victim;
      MissingBlock(slots[..], store, a);
      FlushBuf(victim);
      StillMissing(old(slots[..]), slots[..], a, victim);
      MissingBlock(slots[..], store, a);
      clock := clock + 1;
      FillSlot(victim, Slot(a, data, dirty, true, clock));
    }

    // Overwriting slot v, which holds the same block or nothing that would be lost: the next access.
    method FillSlot(v: nat, slot: Slot)
      requires slots.Length == BLK_CACHE && v < slots.Length && slot.valid && slot.at.dev in devs && slot.lastAccess == clock
      requires NoDuplicates(slots[..]) && BackedBy(slots[..], store, devs)
      requires clock == |history| + 1 && AccessOrder(slots[..], history)
      requires slots[v].valid ==> !slots[v].dirty || slots[v].at == slot.at
      requires (slots[v].valid && slots[v].at == slot.at) || IndexOf(slots[..], slot.at) == BLK_CACHE
      requires slot.dirty || slot.data == StoreAt(store, slot.at)
      modifies slots, this`history
      ensures Valid() && View() == old(View())[slot.at := slot.data]
      ensures slots[..] == old(slots[..])[v := slot] && history == old(history) + [slot.at]
    {
      hide Logical, StoreAt, AccessOrder;
      ReplaceLogical(slots[..], store, devs, v, slot, slot.at);
      forall b {
        ReplaceLogical(slots[..], store, devs, v, slot, b);
      }
      AccessNext(slots[..], history, v, slot);
      slots[v] := slot;
      assert slots[..] == old(slots[..])[v := slot];
      history := history + [slot.at];
    }

    // blk_read; None stands for -1.  A missed block takes the place of the victim.
    method Read(a: Addr) returns (r: Option<Block>)
      requires Valid()
      modifies this`store, this`clock, this`history, slots
      ensures Valid() && View() == old(View()) && devs == old(devs)
      ensures r == if a.dev in devs then Some(View()[a]) else None
      ensures history == old(history) + if a.dev in devs then [a] else []
      ensures a.dev in devs ==> Displaces(old(slots[..]), slots[..], a)
    {
      hide AccessOrder, Displaces, NoDuplicates, BackedBy;
      var i := CacheFind(a);
      if i < slots.Length {
        r := Some(slots[i].data);
        clock := clock + 1;
        DisplacedBy(slots[..], slots[i].(lastAccess := clock), a, i);
        SlotFacts(slots[..], store, devs, i);
        FillSlot(i, slots[i].(lastAccess := clock));
        return;
      }
      var found := FindDev(a.dev);
      assert history + [] == history;
      if !found { return None; }
      var data := StoreAt(store, a);
      ghost var v := Insert(a, data, false);
      DisplacedBy(old(slots[..]), slots[v], a, v);
      return Some(data);
    }

    // blk_write, to a registered device
    method Write(a: Addr, data: Block)
      requires Valid() && a.dev in devs
      modifies this`store, this`clock, this`history, slots
      ensures Valid() && devs == old(devs) && View() == old(View())[a := data]
      ensures history == old(history) + [a] && Displaces(old(slots[..]), slots[..], a)
    {
      hide AccessOrder, Displaces, NoDuplicates, BackedBy, Logical;
      var i := CacheFind(a);
      if i == slots.Length {
        ghost var v := Insert(a, data, true);
        DisplacedBy(old(slots[..]), slots[v], a, v);
      } else {
        clock := clock + 1;
        DisplacedBy(slots[..], Slot(a, data, true, true, clock), a, i);
        FillSlot(i, Slot(a, data, true, true, clock));
      }
    }

    // blk_sync
    method Sync()
      requires Valid()
      modifies this`store, slots
      ensures Valid() && devs == old(devs) && View() == old(View())
      ensures forall i | 0 <= i < slots.Length :: !(slots[i].valid && slots[i].dirty)
      ensures forall a :: View()[a] == StoreAt(store, a)
    {
      hide AccessOrder;
      for i := 0 to slots.Length
        invariant Valid() && View() == old(View())
        invariant forall j | 0 <= j < i :: !(slots[j].valid && slots[j].dirty)
      {
        FlushBuf(i);
      }
    }

    // Every run returns what the same run on an uncached disk returns.
    method Run(ops: seq<Op>) returns (results: seq<Option<Block>>)
      requires Valid() && forall op <- ops :: op.Put? ==> op.at.dev in devs
      modifies this`store, this`clock, this`history, slots
      ensures Valid() && devs == old(devs)
      ensures results == PlainResults(old(View()), devs, ops)
      ensures View() == PlainDisk(old(View()), ops) && history == old(history) + Accesses(devs, ops)
    {
      hide BlkCache.View, BlkCache.Valid, PlainDisk, PlainResults, Displaces, Accesses;
      results := [];
      assert ops[0..] == ops;
      for i := 0 to |ops|
        invariant Valid() && devs == old(devs)
        invariant results + PlainResults(View(), devs, ops[i..]) == PlainResults(old(View()), devs, ops)
        invariant PlainDisk(View(), ops[i..]) == PlainDisk(old(View()), ops)
        invariant history + Accesses(devs, ops[i..]) == old(history) + Accesses(devs, ops)
      {
        assert ops[i..][1..] == ops[i + 1..] && ops[i] in ops;
        PlainStep(View(), devs, ops[i..]);
        match ops[i] {
          case Get(a) =>
            var r := Read(a);
            results := results + [r];
          case Put(a, data) => Write(a, data);
          case Flush => Sync();
        }
      }
      PlainStep(View(), devs, []);
    }
  }

  // The cache after an access to a: the slot that held it, or else the victim, now holds it, and every
  // other slot is as it was.
  ghost predicate Displaces(slots: seq<Slot>, slots': seq<Slot>, a: Addr) {
    exists v :: 0 <= v < |slots| && DisplacesAt(slots, slots', a, v)
  }

  ghost predicate DisplacesAt(slots: seq<Slot>, slots': seq<Slot>, a: Addr, v: nat)
    requires v < |slots|
  {
    && |slots'| == |slots| && Holds(slots'[v], a) && slots' == slots[v := slots'[v]]
    && (if IndexOf(slots, a) < |slots| then v == IndexOf(slots, a) else IsVictim(slots, v))
  }

  lemma DisplacedBy(slots: seq<Slot>, slot: Slot, a: Addr, v: nat)
    requires v < |slots| && Holds(slot, a)
    requires if IndexOf(slots, a) < |slots| then v == IndexOf(slots, a) else IsVictim(slots, v)
    ensures Displaces(slots, slots[v := slot], a)
  {
    assert DisplacesAt(slots, slots[v := slot], a, v);
  }

  lemma SlotFacts(slots: seq<Slot>, store: Store, devs: seq<nat>, i: nat)
    requires BackedBy(slots, store, devs) && i < |slots| && slots[i].valid
    ensures slots[i].at.dev in devs && (!slots[i].dirty ==> slots[i].data == StoreAt(store, slots[i].at))
  {
  }

  // The blocks a run accesses: reads of unregistered devices fail and leave no trace.
  function Accesses(devs: seq<nat>, ops: seq<Op>): seq<Addr> {
    if ops == [] then [] else Touched(devs, ops[0]) + Accesses(devs, ops[1..])
  }

  function Touched(devs: seq<nat>, op: Op): seq<Addr> {
    match op
    case Get(a) => if a.dev in devs then [a] else []
    case Put(a, _) => [a]
    case Flush => []
  }

  datatype Op = Get(at: Addr) | Put(at: Addr, data: Block) | Flush

  // The uncached disk: what it holds after a run, and what its reads return.
  ghost function PlainDisk(disk: Disk, ops: seq<Op>): Disk {
    if ops == [] then disk
    else PlainDisk(if ops[0].Put? then disk[ops[0].at := ops[0].data] else disk, ops[1..])
  }

  ghost function PlainResults(disk: Disk, devs: seq<nat>, ops: seq<Op>): seq<Option<Block>> {
    if ops == [] then []
    else if ops[0].Get? then
      [if ops[0].at.dev in devs then Some(disk[ops[0].at]) else None] + PlainResults(disk, devs, ops[1..])
    else PlainResults(if ops[0].Put? then disk[ops[0].at := ops[0].data] else disk, devs, ops[1..])
  }

  // One operation of a run on the uncached disk.
  lemma PlainStep(disk: Disk, devs: seq<nat>, ops: seq<Op>)
    ensures ops == [] ==> PlainDisk(disk, ops) == disk && PlainResults(disk, devs, ops) == []
    ensures ops != [] ==>
      var next := if ops[0].Put? then disk[ops[0].at := ops[0].data] else disk;
      && PlainDisk(disk, ops) == PlainDisk(next, ops[1..])
      && PlainResults(disk, devs, ops) ==
           (if ops[0].Get? then [if ops[0].at.dev in devs then Some(disk[ops[0].at]) else None] else [])
           + PlainResults(next, devs, ops[1..])
    ensures ops == [] ==> Accesses(devs, ops) == []
    ensures ops != [] ==> Accesses(devs, ops) == Touched(devs, ops[0]) + Accesses(devs, ops[1..])
  {
  }
}
