/**
 The undo journal of kernel/journal.c, on top of the block cache.

 A record is two blocks: a header naming a block and a copy of what that block held when it was
 logged.  A commit is a header with its flag set.  Records are written round and round in an area of
 n places; replay walks the places from the first on and puts the copies back.

 Class `UndoLog` is proved to act on a plain state (`Plain`): the blocks outside the area, the n
 cells, and the position.  What replay restores is then proved of every run on plain states.
 */
module Journal {
  import opened Arithmetic
  import opened BlockCache
  import opened Bytes
  import opened Wrappers

  const JOURNAL_MAGIC: nat := 0x4E584A4C
  const HDR_META := 25

  // ----- Header blocks: magic(4) seq(8) dev(4) lba(8) commit(1), padded with zeros

  function HeaderBlock(seqNo: nat, a: Addr, commit: Byte): Block {
    LeBytes(JOURNAL_MAGIC, 4) + LeBytes(seqNo, 8) + LeBytes(a.dev, 4) + LeBytes(a.lba, 8) + [commit]
    + seq(BLK_SIZE - HDR_META, _ => 0)
  }

  function MagicOf(b: Block): nat { LeValue(b[..4]) }
  function TxnOf(b: Block): nat { LeValue(b[4..12]) }
  function AddrOf(b: Block): Addr { Addr(LeValue(b[12..16]), LeValue(b[16..24])) }
  function CommitOf(b: Block): Byte { b[24] }

  // The transaction number has 64 bits.
  function Txn(seqNo: nat): nat { seqNo % 0x1_0000_0000_0000_0000 }

  // Addresses as the record stores them: a 32-bit device number and a 64-bit block number.
  predicate Storable(a: Addr) { a.dev < 0x1_0000_0000 && a.lba < 0x1_0000_0000_0000_0000 }

  lemma HeaderFields(seqNo: nat, a: Addr, commit: Byte)
    requires Storable(a)
    ensures var b := HeaderBlock(seqNo, a, commit);
      MagicOf(b) == 0x4E584A4C && TxnOf(b) == Txn(seqNo) && AddrOf(b) == a && CommitOf(b) == commit
  {
    hide LeBytes, LeValue, Pow256;
    HeaderSlices(LeBytes(JOURNAL_MAGIC, 4), LeBytes(seqNo, 8), LeBytes(a.dev, 4), LeBytes(a.lba, 8), commit);
    Widths();
    LeRoundTrip(JOURNAL_MAGIC, 4);
    LeRoundTrip(seqNo, 8);
    LeRoundTrip(a.dev, 4);
    LeRoundTrip(a.lba, 8);
  }

  lemma HeaderSlices(m: seq<Byte>, s: seq<Byte>, d: seq<Byte>, l: seq<Byte>, c: Byte)
    requires |m| == 4 && |s| == 8 && |d| == 4 && |l| == 8
    ensures var b := m + s + d + l + [c] + seq(BLK_SIZE - HDR_META, _ => 0);
      b[..4] == m && b[4..12] == s && b[12..16] == d && b[16..24] == l && b[24] == c
  {
  }

  // ----- Undo records

  datatype Record = Record(at: Addr, data: Block)

  // Putting the copies back, first record first.
  ghost function Restore(disk: Disk, records: seq<Record>): Disk {
    if records == [] then disk
    else Restore(disk[records[0].at := records[0].data], records[1..])
  }

  // An unlogged block keeps its content.
  lemma {:induction false} RestoreKeeps(disk: Disk, records: seq<Record>, a: Addr)
    requires forall r <- records :: r.at != a
    ensures Restore(disk, records)[a] == disk[a]
    decreases |records|
  {
    if records != [] {
      RestoreKeeps(disk[records[0].at := records[0].data], records[1..], a);
    }
  }

  // A logged block ends up with the copy in its last record.
  lemma {:induction false} RestoreLast(disk: Disk, records: seq<Record>, i: nat)
    requires i < |records| && forall j | i < j < |records| :: records[j].at != records[i].at
    ensures Restore(disk, records)[records[i].at] == records[i].data
    decreases |records|
  {
    var disk', rest := disk[records[0].at := records[0].data], records[1..];
    if i > 0 {
      RestoreLast(disk', rest, i - 1);
    } else {
      RestoreKeeps(disk', rest, records[0].at);
    }
  }

  // Restoring does nothing exactly when every block holds what its last record says.
  lemma RestoreNothingIff(disk: Disk, records: seq<Record>)
    ensures Restore(disk, records) == disk <==>
      forall i | 0 <= i < |records| && IsLast(records, i) :: disk[records[i].at] == records[i].data
  {
    hide Restore;
    forall i | 0 <= i < |records| && IsLast(records, i) ensures Restore(disk, records)[records[i].at] == records[i].data {
      RestoreLast(disk, records, i);
    }
    if forall i | 0 <= i < |records| && IsLast(records, i) :: disk[records[i].at] == records[i].data {
      forall a ensures Restore(disk, records)[a] == disk[a] {
        if exists r <- records :: r.at == a {
          var i := LastFor(records, a);
        } else {
          RestoreKeeps(disk, records, a);
        }
      }
    }
  }

  ghost predicate IsLast(records: seq<Record>, i: nat)
    requires i < |records|
  {
    forall j | i < j < |records| :: records[j].at != records[i].at
  }

  lemma {:induction false} LastFor(records: seq<Record>, a: Addr) returns (i: nat)
    requires exists r <- records :: r.at == a
    ensures i < |records| && records[i].at == a && IsLast(records, i)
  {
    var k := |records| - 1;
    if records[k].at == a { i := k; } else { i := LastFor(records[..k], a); }
  }

  // A restore that was cut short after k records can be started over.
  lemma RestoreAgain(disk: Disk, records: seq<Record>, k: nat)
    requires k <= |records|
    ensures Restore(Restore(disk, records[..k]), records) == Restore(disk, records)
  {
    hide Restore;
    var disk' := Restore(disk, records[..k]);
    forall a ensures Restore(disk', records)[a] == Restore(disk, records)[a] {
      if exists r <- records :: r.at == a {
        var i := LastFor(records, a);
        RestoreLast(disk, records, i);
        RestoreLast(disk', records, i);
      } else {
        RestoreKeeps(disk, records, a);
        RestoreKeeps(disk', records, a);
        RestoreKeeps(disk, records[..k], a);
      }
    }
  }

  lemma {:induction false} RestoreAppend(disk: Disk, records: seq<Record>, r: Record)
    ensures Restore(disk, records + [r]) == Restore(disk, records)[r.at := r.data]
    decreases |records|
  {
    if records == [] {
      assert records + [r] == [r];
      assert Restore(disk[r.at := r.data], []) == disk[r.at := r.data];
    } else {
      assert (records + [r])[1..] == records[1..] + [r];
      RestoreAppend(disk[records[0].at := records[0].data], records[1..], r);
    }
  }

  // ----- The journal area

  // journal_lba_hdr and journal_lba_data; s_n_blocks * 2 is 32-bit arithmetic.
  function HdrLba(base: nat, n: nat, pos: nat): nat
    requires 0 < n < 0x8000_0000
  {
    base + (pos * 2) % (n * 2 % 0x1_0000_0000)
  }

  function DataLba(base: nat, n: nat, pos: nat): nat
    requires 0 < n < 0x8000_0000
  {
    base + (pos * 2 + 1) % (n * 2 % 0x1_0000_0000)
  }

  // Position pos lies at place pos % n of the area.
  lemma LbaWraps(base: nat, n: nat, pos: nat)
    requires 0 < n < 0x8000_0000
    ensures HdrLba(base, n, pos) == base + 2 * (pos % n) && DataLba(base, n, pos) == base + 2 * (pos % n) + 1
  {
    var q, i := pos / n, pos % n;
    assert pos * 2 == q * (n * 2) + 2 * i by { assert q * (n * 2) == 2 * (n * q); }
    DivModUnique(pos * 2, n * 2, q, 2 * i);
    DivModUnique(pos * 2 + 1, n * 2, q, 2 * i + 1);
  }

  predicate InArea(dev: nat, base: nat, n: nat, a: Addr) { a.dev == dev && base <= a.lba < base + 2 * n }

  // What replay takes a place of the area for.
  datatype Cell = Blank | Undo(record: Record, txn: nat) | Mark(txn: nat)

  ghost function CellAt(disk: Disk, dev: nat, base: nat, i: nat): Cell {
    var hdr := disk[Addr(dev, base + 2 * i)];
    if MagicOf(hdr) != JOURNAL_MAGIC then Blank
    else if CommitOf(hdr) != 0 then Mark(TxnOf(hdr))
    else Undo(Record(AddrOf(hdr), disk[Addr(dev, base + 2 * i + 1)]), TxnOf(hdr))
  }

  ghost function Area(disk: Disk, dev: nat, base: nat, n: nat): (area: seq<Cell>)
    ensures |area| == n && forall i | 0 <= i < n :: area[i] == CellAt(disk, dev, base, i)
  {
    seq(n, i requires 0 <= i < n => CellAt(disk, dev, base, i))
  }

  // The blocks outside the area.
  ghost function Blocks(disk: Disk, dev: nat, base: nat, n: nat): (blocks: Disk)
    ensures forall a :: blocks[a] == if InArea(dev, base, n, a) then ZeroBlock() else disk[a]
  {
    imap a: Addr :: if InArea(dev, base, n, a) then ZeroBlock() else disk[a]
  }

  // A write outside the area changes no cell.
  lemma WriteOutside(disk: Disk, dev: nat, base: nat, n: nat, a: Addr, data: Block)
    requires !InArea(dev, base, n, a)
    ensures Area(disk[a := data], dev, base, n) == Area(disk, dev, base, n)
    ensures Blocks(disk[a := data], dev, base, n) == Blocks(disk, dev, base, n)[a := data]
  {
    hide MagicOf, AddrOf, CommitOf, ZeroBlock;
    forall i | 0 <= i < n ensures CellAt(disk[a := data], dev, base, i) == CellAt(disk, dev, base, i) {
      assert InArea(dev, base, n, Addr(dev, base + 2 * i)) && InArea(dev, base, n, Addr(dev, base + 2 * i + 1));
    }
  }

  // The disk after the writes of write_record at place i.
  ghost function WithRecord(disk: Disk, dev: nat, base: nat, i: nat, a: Addr, data: Option<Block>, seqNo: nat, commit: Byte): Disk {
    var hdr := disk[Addr(dev, base + 2 * i) := HeaderBlock(seqNo, a, commit)];
    if data.Some? then hdr[Addr(dev, base + 2 * i + 1) := data.value] else hdr
  }

  // The writes of write_record change the one cell.  A commit writes no data block.
  lemma WriteCell(disk: Disk, dev: nat, base: nat, n: nat, i: nat, a: Addr, data: Option<Block>, seqNo: nat, commit: Byte)
    requires i < n && Storable(a) && (commit == 0 ==> data.Some?)
    ensures
      var disk' := WithRecord(disk, dev, base, i, a, data, seqNo, commit);
      && Area(disk', dev, base, n) == Area(disk, dev, base, n)[i := if commit == 0 then Undo(Record(a, data.value), Txn(seqNo)) else Mark(Txn(seqNo))]
      && Blocks(disk', dev, base, n) == Blocks(disk, dev, base, n)
  {
    hide MagicOf, AddrOf, CommitOf, HeaderBlock, Storable, ZeroBlock;
    HeaderFields(seqNo, a, commit);
  }

  // The records replay comes across: up to the first blank cell, marks skipped.
  function Records(area: seq<Cell>): seq<Record> {
    if area == [] || area[0].Blank? then []
    else (if area[0].Undo? then [area[0].record] else []) + Records(area[1..])
  }

  lemma {:induction false} RecordsSplit(area: seq<Cell>, k: nat)
    requires k <= |area| && forall i | 0 <= i < k :: !area[i].Blank?
    ensures Records(area) == Records(area[..k]) + Records(area[k..])
    decreases k
  {
    if k == 0 {
      assert area[0..] == area;
    } else {
      RecordsSplit(area[1..], k - 1);
      assert area[..k][1..] == area[1..][..k - 1] && area[1..][k - 1..] == area[k..];
    }
  }

  // One round of replay.
  lemma RecordsNext(area: seq<Cell>, k: nat)
    requires k <= |area| && forall i | 0 <= i < k :: !area[i].Blank?
    ensures k == |area| || area[k].Blank? ==> Records(area) == Records(area[..k])
    ensures k < |area| && !area[k].Blank? ==>
      Records(area[..k + 1]) == Records(area[..k]) + if area[k].Undo? then [area[k].record] else []
  {
    RecordsSplit(area, k);
    if k < |area| && !area[k].Blank? {
      RecordsSplit(area[..k + 1], k);
      assert area[..k + 1][..k] == area[..k] && area[..k + 1][k..] == [area[k]];
    }
  }

  lemma ReplayNext(blocks: Disk, area: seq<Cell>, k: nat)
    requires k < |area| && !area[k].Blank? && forall i | 0 <= i < k :: !area[i].Blank?
    ensures
      var done := Restore(blocks, Records(area[..k]));
      Restore(blocks, Records(area[..k + 1])) == if area[k].Undo? then done[area[k].record.at := area[k].record.data] else done
  {
    hide Restore, Records;
    RecordsNext(area, k);
    if area[k].Undo? {
      RestoreAppend(blocks, Records(area[..k]), area[k].record);
    } else {
      assert Records(area[..k]) + [] == Records(area[..k]);
    }
  }

  // ----- The journal on plain states

  const CHECKPOINT_EVERY := 64

  datatype Plain = Plain(blocks: Disk, area: seq<Cell>, pos: nat, inTxn: bool, commits: nat, seqNo: nat)

  datatype Call = Begin | Log(at: Addr) | Change(at: Addr, data: Block) | Commit | Checkpoint | Replay

  ghost function WithCell(st: Plain, c: Cell): Plain {
    if st.area == [] then st else st.(area := st.area[st.pos % |st.area| := c], pos := st.pos + 1)
  }

  // One call, and whether it succeeds.
  ghost function JournalStep(st: Plain, op: Call): (Plain, bool) {
    match op
    case Begin => if st.inTxn then (st, false) else (st.(inTxn := true, seqNo := st.seqNo + 1), true)
    case Log(a) =>
      if !st.inTxn || st.area == [] then (st, false) else (WithCell(st, Undo(Record(a, st.blocks[a]), Txn(st.seqNo))), true)
    case Change(a, data) => (st.(blocks := st.blocks[a := data]), true)
    case Commit =>
      if !st.inTxn then (st, false)
      else
        var st' := WithCell(st, Mark(Txn(st.seqNo))).(inTxn := false, commits := st.commits + 1);
        (if st'.commits % 64 == 0 then st'.(pos := 0, commits := 0) else st', true)
    case Checkpoint => (st.(pos := 0, commits := 0), true)
    case Replay => (st.(blocks := Restore(st.blocks, Records(st.area))), true)
  }

  ghost function After(st: Plain, ops: seq<Call>): (st': Plain)
    ensures |st'.area| == |st.area|
  {
    if ops == [] then st else JournalStep(After(st, ops[..|ops| - 1]), ops[|ops| - 1]).0
  }

  lemma AfterStep(st: Plain, ops: seq<Call>, op: Call)
    ensures After(st, ops + [op]) == JournalStep(After(st, ops), op).0
  {
    assert (ops + [op])[..|ops|] == ops;
  }

  ghost function Results(st: Plain, ops: seq<Call>): seq<bool> {
    if ops == [] then [] else Results(st, ops[..|ops| - 1]) + [JournalStep(After(st, ops[..|ops| - 1]), ops[|ops| - 1]).1]
  }

  lemma RunNext(st: Plain, ops: seq<Call>, k: nat)
    requires k < |ops|
    ensures
      var (st', ok) := JournalStep(After(st, ops[..k]), ops[k]);
      After(st, ops[..k + 1]) == st' && Results(st, ops[..k + 1]) == Results(st, ops[..k]) + [ok]
  {
    assert ops[..k + 1][..k] == ops[..k];
  }

  // What a commit leaves: a mark in the next cell, and after 64 of them the first place again.
  ghost predicate Committed(a: Plain, b: Plain, ok: bool) {
    && ok == a.inTxn && !b.inTxn && b.blocks == a.blocks && b.seqNo == a.seqNo
    && (ok && a.area != [] ==> b.area == a.area[a.pos % |a.area| := Mark(a.seqNo % 0x1_0000_0000_0000_0000)])
    && (ok && a.area != [] && a.commits < 63 ==> b.pos == a.pos + 1 && b.commits == a.commits + 1)
    && (ok && a.commits == 63 ==> b.pos == 0 && b.commits == 0)
  }

  lemma CommitFacts(a: Plain)
    ensures Committed(a, JournalStep(a, Call.Commit).0, JournalStep(a, Call.Commit).1)
  {
    hide Restore, Records;
  }

  // ----- The program

  class UndoLog {
    const cache: BlkCache
    var dev: nat
    var base: nat
    var n: nat
    var writePos: nat
    var seqNo: nat
    var inTxn: bool
    var commits: nat

    // Whatever the area holds, its records name blocks outside it, on registered devices.
    ghost predicate Valid()
      reads this, cache, cache.slots
      ensures Valid() ==> cache.Valid()
    {
      && cache.Valid() && dev in cache.devs && dev < 0x1_0000_0000 && n < 0x8000_0000
      && Sound(Area(cache.View(), dev, base, n), cache.devs, dev, base, n)
    }

    ghost function State(): Plain
      requires cache.Valid()
      reads this, cache, cache.slots
    {
      Plain(Blocks(cache.View(), dev, base, n), Area(cache.View(), dev, base, n), writePos, inTxn, commits, seqNo)
    }

    // A block of a registered device that the journal can name and does not itself occupy.
    ghost predicate Loggable(a: Addr)
      reads this, cache
    {
      a.dev in cache.devs && Storable(a) && !InArea(dev, base, n, a)
    }

    // Where the area lies and which devices there are.
    twostate predicate Fixed()
      reads this, cache
    {
      dev == old(dev) && base == old(base) && n == old(n) && cache.devs == old(cache.devs)
    }

    // journal_init
    constructor (cache: BlkCache, dev: nat, base: nat, n: nat)
      requires cache.Valid() && dev in cache.devs && dev < 0x1_0000_0000 && n < 0x8000_0000
      requires Sound(Area(cache.View(), dev, base, n), cache.devs, dev, base, n)
      ensures Valid() && this.cache == cache && this.dev == dev && this.base == base && this.n == n
      ensures State() == Plain(Blocks(cache.View(), dev, base, n), Area(cache.View(), dev, base, n), 0, false, 0, 0)
    {
      this.cache, this.dev, this.base, this.n := cache, dev, base, n;
      writePos, seqNo, inTxn, commits := 0, 0, false, 0;
    }

    // journal_begin
    method Begin() returns (ok: bool)
      requires Valid()
      modifies this`seqNo, this`inTxn
      ensures Valid() && Fixed() && (State(), ok) == JournalStep(old(State()), Call.Begin)
      ensures ok == !old(inTxn) && inTxn && seqNo == old(seqNo) + (if ok then 1 else 0) && State().area == old(State()).area
    {
      hide Area, Blocks, BlkCache.View, BlkCache.Valid, Restore, Records, Sound;
      if inTxn { return false; }
      seqNo := seqNo + 1;
      inTxn := true;
      return true;
    }

    // write_record: a record with its copy, or a commit without one
    method WriteRecord(pos: nat, a: Addr, data: Option<Block>, commit: Byte)
      requires Valid() && n > 0 && Storable(a)
      requires if commit == 0 then data.Some? && Loggable(a) else data.None? && a == Addr(dev, 0)
      modifies cache, cache.slots
      ensures Valid() && Fixed()
      ensures
        var c := if commit == 0 then Undo(Record(a, data.value), Txn(seqNo)) else Mark(Txn(seqNo));
        State() == old(State()).(area := old(State()).area[pos % n := c])
    {
      hide Area, Blocks, HeaderBlock, HdrLba, DataLba, BlkCache.View, BlkCache.Valid, Storable, Displaces, Sound, InArea;
      ghost var view, i := cache.View(), pos % n;
      LbaWraps(base, n, pos);
      cache.Write(Addr(dev, HdrLba(base, n, pos)), HeaderBlock(seqNo, a, commit));
      if data.Some? { cache.Write(Addr(dev, DataLba(base, n, pos)), data.value); }
      assert cache.View() == WithRecord(view, dev, base, i, a, data, seqNo, commit);
      WriteCell(view, dev, base, n, i, a, data, seqNo, commit);
      SoundWith(Area(view, dev, base, n), cache.devs, dev, base, n, i, if commit == 0 then Undo(Record(a, data.value), Txn(seqNo)) else Mark(Txn(seqNo)));
    }

    // journal_log
    method Log(a: Addr) returns (ok: bool)
      requires Valid() && Loggable(a)
      modifies this`writePos, cache, cache.slots
      ensures Valid() && Fixed() && ok == (inTxn && n > 0)
      ensures State() == if ok then WithCell(old(State()), Undo(Record(a, old(State()).blocks[a]), Txn(seqNo))) else old(State())
    {
      hide Area, Blocks, HeaderBlock, HdrLba, DataLba, BlkCache.View, BlkCache.Valid, Storable, Displaces, ZeroBlock;
      if !inTxn || n == 0 { return false; }
      var r := cache.Read(a);
      var data := if r.None? then ZeroBlock() else r.value;
      WriteRecord(writePos, a, Some(data), 0);
      writePos := writePos + 1;
      return true;
    }

    // A write by the user of the disk, to a block outside the area.
    method Change(a: Addr, data: Block)
      requires Valid() && a.dev in cache.devs && !InArea(dev, base, n, a)
      modifies cache, cache.slots
      ensures Valid() && Fixed() && State() == old(State()).(blocks := old(State()).blocks[a := data])
    {
      hide Area, Blocks, BlkCache.View, BlkCache.Valid, InArea;
      WriteOutside(cache.View(), dev, base, n, a, data);
      cache.Write(a, data);
    }

    // journal_commit; with no area the code divides by zero
    method Commit() returns (ok: bool)
      requires Valid() && (inTxn ==> n > 0)
      modifies this`writePos, this`inTxn, this`commits, cache, cache.slots
      ensures Valid() && Fixed() && (State(), ok) == JournalStep(old(State()), Call.Commit)
      ensures Committed(old(State()), State(), ok)
    {
      hide Area, Blocks, HeaderBlock, HdrLba, DataLba, BlkCache.View, BlkCache.Valid, Displaces;
      CommitFacts(State());
      hide Committed;
      if !inTxn { return false; }
      WriteRecord(writePos, Addr(dev, 0), None, 1);
      writePos := writePos + 1;
      inTxn := false;
      commits := commits + 1;
      if commits % CHECKPOINT_EVERY == 0 { Checkpoint(); }
      return true;
    }

    // journal_checkpoint
    method Checkpoint()
      requires Valid()
      modifies this`writePos, this`commits, cache, cache.slots
      ensures Valid() && Fixed() && State() == old(State()).(pos := 0, commits := 0)
    {
      hide Area, Blocks, BlkCache.View, BlkCache.Valid;
      writePos, commits := 0, 0;
      cache.Sync();
    }

    // One round of journal_replay: false at a place that holds no record.
    method ReplayPlace(pos: nat) returns (found: bool)
      requires Valid() && pos < n
      modifies cache, cache.slots
      ensures Valid() && Fixed() && found == !old(State()).area[pos].Blank?
      ensures
        var st, c := old(State()), old(State()).area[pos];
        State() == if c.Undo? then st.(blocks := st.blocks[c.record.at := c.record.data]) else st
    {
      hide Area, Blocks, MagicOf, AddrOf, CommitOf, HdrLba, DataLba, BlkCache.View, BlkCache.Valid, InArea, Displaces;
      LbaWraps(base, n, pos);
      DivModUnique(pos, n, 0, pos);
      assert Area(cache.View(), dev, base, n)[pos] == CellAt(cache.View(), dev, base, pos);
      var r := cache.Read(Addr(dev, HdrLba(base, n, pos)));
      if r.None? { return false; }
      var hdr := r.value;
      if MagicOf(hdr) != JOURNAL_MAGIC { return false; }
      if CommitOf(hdr) == 0 {
        var d := cache.Read(Addr(dev, DataLba(base, n, pos)));
        if d.Some? { Change(AddrOf(hdr), d.value); }
      }
      return true;
    }

    // journal_replay
    method Replay()
      requires Valid()
      modifies cache, cache.slots
      ensures Valid() && Fixed()
      ensures State() == old(State()).(blocks := Restore(old(State()).blocks, Records(old(State()).area)))
    {
      hide Area, Blocks, MagicOf, AddrOf, CommitOf, HdrLba, DataLba, BlkCache.View, BlkCache.Valid, Restore, Records, InArea, Sound, UndoLog.Valid;
      ghost var st := State();
      ghost var area := st.area;
      RestoreNothing(st.blocks, area);
      if n == 0 { return; }
      var pos := 0;
      while pos < n
        invariant pos <= n && Valid() && Fixed() && forall i | 0 <= i < pos :: !area[i].Blank?
        invariant State() == st.(blocks := Restore(st.blocks, Records(area[..pos])))
        decreases n - pos
      {
        RecordsNext(area, pos);
        if !area[pos].Blank? { ReplayNext(st.blocks, area, pos); }
        var found := ReplayPlace(pos);
        if !found { break; }
        pos := pos + 1;
      }
      RecordsNext(area, pos);
    }

    method Perform(op: Call) returns (ok: bool)
      requires Valid() && (op.Log? || op.Change? ==> Loggable(op.at)) && (op.Commit? ==> n > 0)
      modifies this`writePos, this`seqNo, this`inTxn, this`commits, cache, cache.slots
      ensures Valid() && Fixed() && (State(), ok) == JournalStep(old(State()), op)
    {
      hide Area, Blocks, BlkCache.View, BlkCache.Valid, Restore, Records, InArea, Storable;
      ok := true;
      match op {
        case Begin => ok := Begin();
        case Log(a) => ok := Log(a);
        case Change(a, data) => Change(a, data);
        case Commit => ok := Commit();
        case Checkpoint => Checkpoint();
        case Replay => Replay();
      }
    }

    // Every run does, call by call, what it does on plain states, wrapped around or not.
    method Run(ops: seq<Call>) returns (results: seq<bool>)
      requires Valid() && forall op <- ops :: (op.Log? || op.Change? ==> Loggable(op.at)) && (op.Commit? ==> n > 0)
      modifies this`writePos, this`seqNo, this`inTxn, this`commits, cache, cache.slots
      ensures Valid() && Fixed() && State() == After(old(State()), ops) && results == Results(old(State()), ops)
    {
      hide Area, Blocks, BlkCache.View, BlkCache.Valid, Restore, Records, InArea, Storable, JournalStep;
      results := [];
      for k := 0 to |ops|
        invariant Valid() && Fixed()
        invariant State() == After(old(State()), ops[..k]) && results == Results(old(State()), ops[..k])
      {
        assert ops[k] in ops;
        RunNext(old(State()), ops, k);
        var ok := Perform(ops[k]);
        results := results + [ok];
      }
      assert ops[..|ops|] == ops;
    }
  }

  // The records in the area name blocks outside it, on these devices.
  ghost predicate Sound(area: seq<Cell>, devs: seq<nat>, dev: nat, base: nat, n: nat) {
    forall c <- area :: c.Undo? ==> c.record.at.dev in devs && !InArea(dev, base, n, c.record.at)
  }

  lemma SoundWith(area: seq<Cell>, devs: seq<nat>, dev: nat, base: nat, n: nat, i: nat, c: Cell)
    requires Sound(area, devs, dev, base, n) && i < |area|
    requires c.Undo? ==> c.record.at.dev in devs && !InArea(dev, base, n, c.record.at)
    ensures Sound(area[i := c], devs, dev, base, n)
  {
  }

  lemma RestoreNothing(blocks: Disk, area: seq<Cell>)
    ensures Restore(blocks, Records(area[..0])) == blocks && (area == [] ==> Restore(blocks, Records(area)) == blocks)
  {
  }

  // ----- One transaction

  // Inside a transaction: blocks are logged and written.
  ghost predicate Inside(ops: seq<Call>) { forall op <- ops :: op.Log? || op.Change? }

  // What is logged, in the order of logging.
  ghost function LogOf(st: Plain, ops: seq<Call>): seq<Record> {
    if ops == [] then []
    else
      var k := |ops| - 1;
      LogOf(st, ops[..k]) + if ops[k].Log? then [Record(ops[k].at, After(st, ops[..k]).blocks[ops[k].at])] else []
  }

  // Records written one after the other from position pos on.
  ghost function Written(area: seq<Cell>, pos: nat, log: seq<Record>, txn: nat): (area': seq<Cell>)
    requires area != []
    ensures |area'| == |area|
  {
    if log == [] then area
    else
      var k := |log| - 1;
      Written(area, pos, log[..k], txn)[(pos + k) % |area| := Undo(log[k], txn)]
  }

  lemma WrittenNext(area: seq<Cell>, pos: nat, log: seq<Record>, txn: nat, r: Record)
    requires area != []
    ensures Written(area, pos, log + [r], txn) == Written(area, pos, log, txn)[(pos + |log|) % |area| := Undo(r, txn)]
  {
    assert (log + [r])[..|log|] == log;
  }

  lemma {:induction false} TransactionArea(st: Plain, ops: seq<Call>)
    requires Inside(ops) && st.inTxn && st.area != []
    ensures
      var st' := After(st, ops);
      && st'.area == Written(st.area, st.pos, LogOf(st, ops), Txn(st.seqNo)) && st'.pos == st.pos + |LogOf(st, ops)|
      && st'.inTxn && st'.commits == st.commits && st'.seqNo == st.seqNo
  {
    if ops != [] {
      var k := |ops| - 1;
      assert forall op <- ops[..k] :: op in ops;
      assert ops[k] in ops;
      TransactionArea(st, ops[..k]);
      TransactionStep(st, ops);
    }
  }

  lemma TransactionStep(st: Plain, ops: seq<Call>)
    requires ops != [] && st.area != []
    requires
      var k := |ops| - 1;
      var st1 := After(st, ops[..k]);
      && (ops[k].Log? || ops[k].Change?) && st1.inTxn && st1.commits == st.commits && st1.seqNo == st.seqNo && st1.pos == st.pos + |LogOf(st, ops[..k])|
      && st1.area == Written(st.area, st.pos, LogOf(st, ops[..k]), Txn(st.seqNo))
    ensures
      var st' := After(st, ops);
      && st'.area == Written(st.area, st.pos, LogOf(st, ops), Txn(st.seqNo)) && st'.pos == st.pos + |LogOf(st, ops)|
      && st'.inTxn && st'.commits == st.commits && st'.seqNo == st.seqNo
  {
    hide Written, Restore, Records, After, LogOf;
    var k := |ops| - 1;
    assert ops == ops[..k] + [ops[k]];
    AfterStep(st, ops[..k], ops[k]);
    LogStep(st, ops[..k], ops[k]);
    if ops[k].Log? {
      WrittenNext(st.area, st.pos, LogOf(st, ops[..k]), Txn(st.seqNo), Record(ops[k].at, After(st, ops[..k]).blocks[ops[k].at]));
    }
  }

  lemma LogStep(st: Plain, ops: seq<Call>, op: Call)
    ensures LogOf(st, ops + [op]) == if op.Log? then LogOf(st, ops) + [Record(op.at, After(st, ops).blocks[op.at])] else LogOf(st, ops)
  {
    assert (ops + [op])[..|ops|] == ops;
  }

  // ----- The ring

  // Of `count` records written round an area of n places, the last n survive.
  predicate Survives(count: nat, n: nat, j: nat) { j < count <= j + n }

  // The survivor at place i is the last record written there.
  function SurvivorAt(count: nat, n: nat, i: nat): (j: nat)
    requires i < count && i < n
    ensures Survives(count, n, j) && j % n == i
  {
    SurvivorPlace(count, n, i);
    count - 1 - (count - 1 - i) % n
  }

  lemma SurvivorPlace(count: nat, n: nat, i: nat)
    requires i < count && i < n
    ensures 0 <= count - 1 - (count - 1 - i) % n && (count - 1 - (count - 1 - i) % n) % n == i
  {
    var d := count - 1 - i;
    assert d - d % n == d / n * n;
    DivModUnique(i + d / n * n, n, d / n, i);
    assert d / n * n >= 0;
  }

  // Two survivors at the same place are the same.
  lemma SurvivorUnique(count: nat, n: nat, j: nat, k: nat)
    requires Survives(count, n, j) && Survives(count, n, k) && j % n == k % n
    ensures j == k
  {
    var d := k / n - j / n;
    assert n * (k / n) + k % n == k && n * (j / n) + j % n == j;
    assert k - j == n * d;
    MulBound(n, d);
  }

  // The survivors in the order of their places, which is the order in which replay restores them.
  ghost function Ring(log: seq<Record>, n: nat): (ring: seq<Record>)
    ensures |ring| == (if |log| < n then |log| else n)
    ensures forall i | 0 <= i < |ring| :: ring[i] == log[SurvivorAt(|log|, n, i)]
  {
    seq(if |log| < n then |log| else n, i requires 0 <= i < |log| && i < n => log[SurvivorAt(|log|, n, i)])
  }

  ghost predicate AllBlank(area: seq<Cell>) { forall c <- area :: c.Blank? }

  // After one record more, its place has a new survivor and no other place has.
  lemma SurvivorNext(k: nat, n: nat, i: nat)
    requires i < n
    ensures i == k % n ==> i <= k && SurvivorAt(k + 1, n, i) == k
    ensures i != k % n && i < k ==> SurvivorAt(k + 1, n, i) == SurvivorAt(k, n, i)
    ensures i != k % n ==> i != k
  {
    hide SurvivorAt;
    if i == k % n {
      PlaceOf(k + 1, n, k);
      SurvivorUnique(k + 1, n, SurvivorAt(k + 1, n, i), k);
    } else if i < k {
      var j := SurvivorAt(k, n, i);
      if j + n == k { AddMultiple(j, 1, n); }
      SurvivorUnique(k + 1, n, SurvivorAt(k + 1, n, i), j);
    } else {
      DivModUnique(i, n, 0, i);
    }
  }

  lemma {:induction false} RingCells(area: seq<Cell>, log: seq<Record>, txn: nat, i: nat)
    requires AllBlank(area) && i < |area|
    ensures Written(area, 0, log, txn)[i] == if i < |log| then Undo(log[SurvivorAt(|log|, |area|, i)], txn) else Blank
    decreases |log|
  {
    hide SurvivorAt;
    if log != [] {
      var k := |log| - 1;
      RingCells(area, log[..k], txn, i);
      SurvivorNext(k, |area|, i);
      assert log == log[..k] + [log[k]];
      WrittenNext(area, 0, log[..k], txn, log[k]);
    } else {
      assert area[i] in area;
    }
  }

  lemma {:induction false} RecordsOf(area: seq<Cell>, ring: seq<Record>, txn: nat)
    requires |ring| <= |area| && forall i | 0 <= i < |area| :: area[i] == if i < |ring| then Undo(ring[i], txn) else Blank
    ensures Records(area) == ring
    decreases |area|
  {
    if ring != [] {
      RecordsOf(area[1..], ring[1..], txn);
      assert ring == [ring[0]] + ring[1..];
    }
  }

  // A journal that has just been made on a blank area, with a transaction open.
  ghost predicate Opened(st: Plain) { st.inTxn && st.area != [] && st.pos == 0 && AllBlank(st.area) }

  // What a replay at the end of a transaction restores: the survivors, place by place.
  lemma RollbackIsRing(st: Plain, ops: seq<Call>)
    requires Opened(st) && Inside(ops)
    ensures Records(After(st, ops).area) == Ring(LogOf(st, ops), |st.area|)
    ensures After(st, ops + [Replay]).blocks == Restore(After(st, ops).blocks, Ring(LogOf(st, ops), |st.area|))
  {
    hide Restore, Written, Records, LogOf, AllBlank;
    var log, n := LogOf(st, ops), |st.area|;
    TransactionArea(st, ops);
    AfterStep(st, ops, Replay);
    var area := After(st, ops).area;
    forall i | 0 <= i < n ensures area[i] == if i < |Ring(log, n)| then Undo(Ring(log, n)[i], Txn(st.seqNo)) else Blank {
      RingCells(st.area, log, Txn(st.seqNo), i);
    }
    RecordsOf(area, Ring(log, n), Txn(st.seqNo));
  }

  /**
   * Replay at the end of a transaction of any length.  A block ends as the survivor that names it
   * at the highest place says; the order of logging does not matter.
   */
  lemma RollbackRestores(st: Plain, ops: seq<Call>, j: nat)
    requires Opened(st) && Inside(ops)
    requires
      var log, n := LogOf(st, ops), |st.area|;
      && Survives(|log|, n, j)
      && forall k | 0 <= k < |log| && Survives(|log|, n, k) && log[k].at == log[j].at :: k % n <= j % n
    ensures After(st, ops + [Replay]).blocks[LogOf(st, ops)[j].at] == LogOf(st, ops)[j].data
  {
    hide Restore, LogOf, Inside;
    var log, n := LogOf(st, ops), |st.area|;
    RollbackIsRing(st, ops);
    var i := j % n;
    PlaceOf(|log|, n, j);
    SurvivorUnique(|log|, n, SurvivorAt(|log|, n, i), j);
    RestoreLast(After(st, ops).blocks, Ring(log, n), i);
  }

  lemma PlaceOf(count: nat, n: nat, j: nat)
    requires n > 0 && Survives(count, n, j)
    ensures j % n < n && j % n < count
  {
    if j < n { DivModUnique(j, n, 0, j); }
  }

  // A block that no survivor names is left as it is, logged or not.
  lemma RollbackKeeps(st: Plain, ops: seq<Call>, a: Addr)
    requires Opened(st) && Inside(ops)
    requires forall k | 0 <= k < |LogOf(st, ops)| && Survives(|LogOf(st, ops)|, |st.area|, k) :: LogOf(st, ops)[k].at != a
    ensures After(st, ops + [Replay]).blocks[a] == After(st, ops).blocks[a]
  {
    hide Restore, LogOf, Inside;
    var log, n := LogOf(st, ops), |st.area|;
    RollbackIsRing(st, ops);
    RestoreKeeps(After(st, ops).blocks, Ring(log, n), a);
  }

  ghost predicate NotLogged(ops: seq<Call>, a: Addr) { forall op <- ops :: op.Log? ==> op.at != a }

  // The record of the i-th call, and that later records of the block come from later calls.
  lemma {:induction false} LogEntry(st: Plain, ops: seq<Call>, i: nat) returns (j: nat)
    requires i < |ops| && ops[i].Log? && NotLogged(ops[i + 1..], ops[i].at)
    ensures
      var log := LogOf(st, ops);
      && j < |log| && log[j] == Record(ops[i].at, After(st, ops[..i]).blocks[ops[i].at])
      && forall k | j < k < |log| :: log[k].at != ops[i].at
    decreases |ops|
  {
    hide After, LogOf;
    var k := |ops| - 1;
    assert ops == ops[..k] + [ops[k]];
    LogStep(st, ops[..k], ops[k]);
    if i == k {
      j := |LogOf(st, ops)| - 1;
    } else {
      assert ops[..k][i + 1..] <= ops[i + 1..] && ops[..k][..i] == ops[..i];
      j := LogEntry(st, ops[..k], i);
      assert ops[k] in ops[i + 1..];
    }
  }

  lemma {:induction false} NoRecord(st: Plain, ops: seq<Call>, a: Addr)
    requires NotLogged(ops, a)
    ensures forall r <- LogOf(st, ops) :: r.at != a
    decreases |ops|
  {
    if ops != [] {
      assert forall op <- ops[..|ops| - 1] :: op in ops;
      NoRecord(st, ops[..|ops| - 1], a);
    }
  }

  /**
   * As long as the area does not wrap, every logged block goes back to what it held when it was last
   * logged, whatever was written in between; a block that was not logged keeps what was last written.
   */
  lemma RollbackInFirstRound(st: Plain, ops: seq<Call>)
    requires Opened(st) && Inside(ops) && |LogOf(st, ops)| <= |st.area|
    ensures forall i | 0 <= i < |ops| && ops[i].Log? && NotLogged(ops[i + 1..], ops[i].at) ::
              After(st, ops + [Replay]).blocks[ops[i].at] == After(st, ops[..i]).blocks[ops[i].at]
    ensures forall a | NotLogged(ops, a) :: After(st, ops + [Replay]).blocks[a] == After(st, ops).blocks[a]
  {
    hide After, LogOf, NotLogged, Inside;
    var log, n := LogOf(st, ops), |st.area|;
    forall i | 0 <= i < |ops| && ops[i].Log? && NotLogged(ops[i + 1..], ops[i].at)
      ensures After(st, ops + [Replay]).blocks[ops[i].at] == After(st, ops[..i]).blocks[ops[i].at]
    {
      var j := LogEntry(st, ops, i);
      forall k | 0 <= k < |log| && Survives(|log|, n, k) && log[k].at == log[j].at ensures k % n <= j % n {
        DivModUnique(k, n, 0, k);
        DivModUnique(j, n, 0, j);
      }
      RollbackRestores(st, ops, j);
    }
    forall a | NotLogged(ops, a) ensures After(st, ops + [Replay]).blocks[a] == After(st, ops).blocks[a] {
      NoRecord(st, ops, a);
      RollbackKeeps(st, ops, a);
    }
  }

  // ----- Commit

  lemma AfterTwo(st: Plain, ops: seq<Call>, op: Call, op': Call)
    ensures After(st, ops + [op, op']) == JournalStep(JournalStep(After(st, ops), op).0, op').0
  {
    hide JournalStep;
    assert ops + [op, op'] == (ops + [op]) + [op'];
    AfterStep(st, ops, op);
    AfterStep(st, ops + [op], op');
  }

  // What the area holds once the transaction is committed.
  lemma CommittedArea(st: Plain, ops: seq<Call>)
    requires Opened(st) && Inside(ops)
    ensures
      var log, area := LogOf(st, ops), After(st, ops).area;
      && After(st, ops + [Commit, Replay]).blocks == Restore(After(st, ops).blocks, Records(area[|log| % |area| := Mark(Txn(st.seqNo))]))
      && forall i | 0 <= i < |area| :: area[i] == if i < |Ring(log, |area|)| then Undo(Ring(log, |area|)[i], Txn(st.seqNo)) else Blank
  {
    hide Restore, Written, Records, LogOf, AllBlank, After;
    TransactionArea(st, ops);
    AfterTwo(st, ops, Commit, Replay);
    forall i | 0 <= i < |st.area| ensures After(st, ops).area[i] == if i < |LogOf(st, ops)| then Undo(LogOf(st, ops)[SurvivorAt(|LogOf(st, ops)|, |st.area|, i)], Txn(st.seqNo)) else Blank {
      RingCells(st.area, LogOf(st, ops), Txn(st.seqNo), i);
    }
  }

  lemma RecordsMarked(area: seq<Cell>, ring: seq<Record>, txn: nat, p: nat, mark: nat)
    requires p <= |ring| <= |area| && p < |area|
    requires forall i | 0 <= i < |area| :: area[i] == if i < |ring| then Undo(ring[i], txn) else Blank
    ensures Records(area[p := Mark(mark)]) == ring[..p] + if p < |ring| then ring[p + 1..] else []
  {
    hide Records;
    var area' := area[p := Mark(mark)];
    RecordsSplit(area', p);
    RecordsOf(area'[..p], ring[..p], txn);
    RecordsSplit(area'[p..], 1);
    assert area'[p..][..1] == [Mark(mark)] && area'[p..][1..] == area[p + 1..];
    RecordsOf(area[p + 1..], if p < |ring| then ring[p + 1..] else [], txn);
    assert Records([Mark(mark)]) == [] by { MarkAlone(mark); }
  }

  lemma MarkAlone(mark: nat)
    ensures Records([Mark(mark)]) == []
  {
    assert [Mark(mark)][1..] == [];
  }

  /**
   * Committing takes nothing back: replay after a commit restores the same blocks as replay before
   * it, except that in a full area the mark overwrites the oldest surviving record.
   */
  lemma CommittedIsUndone(st: Plain, ops: seq<Call>)
    requires Opened(st) && Inside(ops)
    ensures
      var ring, p := Ring(LogOf(st, ops), |st.area|), |LogOf(st, ops)| % |st.area|;
      if |LogOf(st, ops)| < |st.area|
      then After(st, ops + [Commit, Replay]).blocks == After(st, ops + [Replay]).blocks
      else After(st, ops + [Commit, Replay]).blocks == Restore(After(st, ops).blocks, ring[..p] + ring[p + 1..])
           && ring[p] == LogOf(st, ops)[|LogOf(st, ops)| - |st.area|]
  {
    hide Restore, Records, LogOf, Inside, Opened, After;
    var log, n := LogOf(st, ops), |st.area|;
    assert n > 0 by { OpenedFacts(st); }
    var p := |log| % n;
    if |log| < n { DivModUnique(|log|, n, 0, |log|); }
    CommittedArea(st, ops);
    RollbackIsRing(st, ops);
    RecordsMarked(After(st, ops).area, Ring(log, n), Txn(st.seqNo), p, Txn(st.seqNo));
    if |log| < n {
      assert Ring(log, n)[..p] + [] == Ring(log, n);
    } else {
      OldestPlace(|log|, n);
    }
  }

  lemma OpenedFacts(st: Plain)
    requires Opened(st)
    ensures st.area != []
  {
  }

  // The place written next is that of the oldest survivor.
  lemma OldestPlace(count: nat, n: nat)
    requires 0 < n <= count
    ensures SurvivorAt(count, n, count % n) == count - n
  {
    hide SurvivorAt;
    AddMultiple(count - n, 1, n);
    SurvivorUnique(count, n, SurvivorAt(count, n, count % n), count - n);
  }

  // ----- Where wrapping around loses a block

  lemma InsideStep(st: Plain, ops: seq<Call>, op: Call)
    requires op.Log? || op.Change?
    ensures After(st, ops + [op]).blocks == if op.Change? then After(st, ops).blocks[op.at := op.data] else After(st, ops).blocks
    ensures LogOf(st, ops + [op]) == if op.Log? then LogOf(st, ops) + [Record(op.at, After(st, ops).blocks[op.at])] else LogOf(st, ops)
    ensures After(st, []) == st && LogOf(st, []) == []
  {
    AfterStep(st, ops, op);
    LogStep(st, ops, op);
  }

  // Two places, a block logged three times: the second copy is put back, not the last.
  lemma WrapReorders(blocks: Disk, a: Addr, x: Block, y: Block)
    ensures
      var st := Plain(blocks, [Blank, Blank], 0, true, 0, 1);
      var ops := [Log(a), Change(a, x), Log(a), Change(a, y)];
      Opened(st) && Inside(ops + [Log(a)]) && After(st, ops).blocks[a] == y && After(st, ops + [Log(a)] + [Replay]).blocks[a] == x
  {
    hide After, LogOf;
    var st := Plain(blocks, [Blank, Blank], 0, true, 0, 1);
    var one, two := [Log(a)], [Log(a), Change(a, x)];
    var three, four := two + [Log(a)], [Log(a), Change(a, x), Log(a), Change(a, y)];
    assert [] + [Log(a)] == one && one + [Change(a, x)] == two && three + [Change(a, y)] == four;
    InsideStep(st, [], Log(a));
    InsideStep(st, one, Change(a, x));
    InsideStep(st, two, Log(a));
    InsideStep(st, three, Change(a, y));
    InsideStep(st, four, Log(a));
    assert LogOf(st, four + [Log(a)]) == [Record(a, blocks[a]), Record(a, x), Record(a, y)];
    RollbackRestores(st, four + [Log(a)], 1);
  }

  // One place, two blocks logged: the first is not put back.
  lemma WrapForgets(blocks: Disk, a: Addr, b: Addr, x: Block)
    requires a != b
    ensures
      var st := Plain(blocks, [Blank], 0, true, 0, 1);
      var ops := [Log(a), Log(b), Change(a, x)];
      Opened(st) && Inside(ops) && After(st, ops + [Replay]).blocks[a] == x
  {
    hide After, LogOf;
    var st := Plain(blocks, [Blank], 0, true, 0, 1);
    var one, two, ops := [Log(a)], [Log(a), Log(b)], [Log(a), Log(b), Change(a, x)];
    assert [] + [Log(a)] == one && one + [Log(b)] == two && two + [Change(a, x)] == ops;
    InsideStep(st, [], Log(a));
    InsideStep(st, one, Log(b));
    InsideStep(st, two, Change(a, x));
    assert LogOf(st, ops) == [Record(a, blocks[a]), Record(b, blocks[b])];
    RollbackKeeps(st, ops, a);
  }
}
