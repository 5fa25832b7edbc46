/**
 The x86-64 page tables of hal/amd64/mmu.c: a four-level radix tree kept in flat physical
 memory and grown by a bump allocator (4-level paging, section 4.5 of the Intel SDM, volume 3A).

 Physical memory is an array of 64-bit words; the table in page t occupies words 512 * t to
 512 * t + 511.  Masks and shifts by constants are written as the division and remainder they
 are, and `|` with one flag as a function that sets that bit.  `PageOf` is the translation of
 one virtual page number; the ghost map `own` gives each table page the one place it has in the
 tree, which is what makes the tables a tree.
 */
module PageTables {
  import opened Arithmetic
  import opened Wrappers

  type Word = w: nat | w < 0x1_0000_0000_0000_0000

  const ROOT: nat := 1             // KERNEL_PML4_PHYS / 4096
  const ALLOC_START: nat := 0x1_0000
  const PAGES: nat := 0x10_0000_0000       // virtual pages: 2^36
  const FRAMES: nat := 0x100_0000_0000     // physical frames: 2^40

  // ----- Entries

  predicate Present(e: Word) { e % 2 == 1 }
  predicate Large(e: Word) { e / 0x80 % 2 == 1 }

  function Frame(e: Word): nat { e / 0x1000 % FRAMES }

  function SetP(e: Word): Word { if e % 2 == 1 then e else e + 0x1 }
  function SetW(e: Word): Word { if e / 0x2 % 2 == 1 then e else e + 0x2 }
  function SetU(e: Word): Word { if e / 0x4 % 2 == 1 then e else e + 0x4 }
  function SetPWT(e: Word): Word { if e / 0x8 % 2 == 1 then e else e + 0x8 }
  function SetPCD(e: Word): Word { if e / 0x10 % 2 == 1 then e else e + 0x10 }
  function SetNX(e: Word): Word { if e / 0x8000_0000_0000_0000 % 2 == 1 then e else e + 0x8000_0000_0000_0000 }

  datatype Flags = Flags(write: bool, user: bool, exec: bool, nocache: bool)

  function LeafEntry(phys: Word, flags: Flags): Word {
    var e := SetP(phys - phys % 0x1000);
    var e := if flags.write then SetW(e) else e;
    var e := if flags.user then SetU(e) else e;
    var e := if !flags.exec then SetNX(e) else e;
    if flags.nocache then SetPWT(SetPCD(e)) else e
  }

  // The rights and the caching that an entry states: bits 1, 2, 63, 3 and 4.
  datatype Access = Access(write: bool, user: bool, noExec: bool, writeThrough: bool, noCache: bool)

  function AccessOf(e: Word): Access {
    Access(e / 0x2 % 2 == 1, e / 0x4 % 2 == 1, e / 0x8000_0000_0000_0000 % 2 == 1, e / 0x8 % 2 == 1, e / 0x10 % 2 == 1)
  }

  // A frame and the rights to it.
  datatype Mapping = Mapping(frame: nat, access: Access)

  function MappingOf(e: Word): Mapping { Mapping(Frame(e), AccessOf(e)) }

  // What a caller of mmu_map_page asks for; bit 63 of the address ends up as no-execute too.
  function Asked(phys: Word, flags: Flags): Mapping {
    Mapping(phys / 0x1000 % FRAMES,
            Access(flags.write, flags.user, !flags.exec || phys >= 0x8000_0000_0000_0000, flags.nocache, flags.nocache))
  }

  // What the walk writes to link a new table in page n.
  function TableEntry(n: nat): (e: Word)
    requires n < FRAMES
    ensures Present(e) && !Large(e) && Frame(e) == n && AccessOf(e) == Access(true, false, false, false, false)
  {
    TableBits(n);
    SetW(SetP(n * 0x1000))
  }

  lemma TableBits(n: nat)
    requires n < FRAMES
    ensures SetP(n * 0x1000) == n * 0x1000 + 1 && SetW(n * 0x1000 + 1) == n * 0x1000 + 3
    ensures Present(n * 0x1000 + 3) && !Large(n * 0x1000 + 3) && Frame(n * 0x1000 + 3) == n
    ensures AccessOf(n * 0x1000 + 3) == Access(true, false, false, false, false)
  {
    LeafBits(n, 2, 0, n * 0x1000 + 3);
    LeafHigh(n, 2, 0, n * 0x1000 + 3);
    DivModUnique(n * 0x1000, 2, n * 0x800, 0);
    DivModUnique(n * 0x1000 + 1, 2, n * 0x800, 1);
    DivModUnique(n * 0x800, 2, n * 0x400, 0);
    DivModUnique(n * 0x1000 + 3, 2, n * 0x800 + 1, 1);
    DivModUnique(n * 0x1000 + 3, 0x80, n * 0x20, 3);
    DivModUnique(n * 0x20, 2, n * 0x10, 0);
    DivModUnique(n * 0x1000 + 3, 0x1000, n, 3);
  }

  // The bits that one flag adds: all below bit 5, above the present bit.
  function FlagBits(flags: Flags): nat {
    (if flags.write then 0x2 else 0) + (if flags.user then 0x4 else 0) + if flags.nocache then 0x18 else 0
  }

  // A bit below bit 12 is a bit of the remainder.
  lemma LowBit(e: nat, b: nat, h: nat)
    requires b > 0 && h > 0 && b * (2 * h) == 0x1000
    ensures e / b % 2 == e % 0x1000 / b % 2
  {
    TwoDigits(e, b, 2 * h);
    TwoDigits(e / b, 2, h);
  }

  lemma LowBits(k: nat, r: nat)
    requires r < 0x1000
    ensures
      var e := 0x1000 * k + r;
      && e % 0x1000 == r && e / 0x1000 == k && e % 2 == r % 2 && e / 0x2 % 2 == r / 0x2 % 2 && e / 0x4 % 2 == r / 0x4 % 2
      && e / 0x8 % 2 == r / 0x8 % 2 && e / 0x10 % 2 == r / 0x10 % 2 && e / 0x20 % 0x80 == r / 0x20
  {
    var e := 0x1000 * k + r;
    DivModUnique(e, 0x1000, k, r);
    LowBit(e, 0x1, 0x800);
    LowBit(e, 0x2, 0x400);
    LowBit(e, 0x4, 0x200);
    LowBit(e, 0x8, 0x100);
    LowBit(e, 0x10, 0x80);
    TwoDigits(e, 0x20, 0x80);
  }

  // Setting one of the low bits, or bit 63.
  lemma SetLow(k: nat, r: nat)
    requires k < 0x10_0000_0000_0000 && r < 0x20
    ensures
      var e := 0x1000 * k + r;
      && (r / 0x2 % 2 == 0 ==> SetW(e) == e + 0x2) && (r / 0x4 % 2 == 0 ==> SetU(e) == e + 0x4)
      && (r / 0x8 % 2 == 0 ==> SetPWT(e) == e + 0x8) && (r / 0x10 % 2 == 0 ==> SetPCD(e) == e + 0x10)
  {
    LowBits(k, r);
  }

  lemma SetTop(k: nat, r: nat)
    requires k < 0x10_0000_0000_0000 && r < 0x1000
    ensures SetNX(0x1000 * k + r) == 0x1000 * k + r + if k < 0x8_0000_0000_0000 then 0x8000_0000_0000_0000 else 0
  {
  }

  // The entry is the page address with the flags added and, where it is asked for, bit 63 set.
  lemma LeafEntrySum(phys: Word, flags: Flags)
    ensures
      var k := phys / 0x1000;
      LeafEntry(phys, flags) == 0x1000 * k + 1 + FlagBits(flags)
        + if !flags.exec && k < 0x8_0000_0000_0000 then 0x8000_0000_0000_0000 else 0
  {
    hide SetW, SetU, SetPWT, SetPCD, SetNX;
    var k := phys / 0x1000;
    assert phys - phys % 0x1000 == 0x1000 * k && SetP(0x1000 * k) == 0x1000 * k + 1;
    var r2 := 1 + if flags.write then 0x2 else 0;
    var r3 := r2 + if flags.user then 0x4 else 0;
    SetLow(k, 1);
    SetLow(k, r2);
    SetTop(k, r3);
    var k4 := k + if !flags.exec && k < 0x8_0000_0000_0000 then 0x8_0000_0000_0000 else 0;
    SetLow(k4, r3);
    SetLow(k4, r3 + 0x10);
  }

  /**
   * The entry that a map writes, bit by bit: present, the rights asked for and no others, bits 5 to
   * 11 clear, and from bit 12 on the address, of which bits 12 to 51 are the frame.
   */
  lemma LeafEntryBits(phys: Word, flags: Flags)
    ensures
      var e := LeafEntry(phys, flags);
      && Present(e) && MappingOf(e) == Asked(phys, flags)
      && (e / 0x2 % 2 == 1 <==> flags.write) && (e / 0x4 % 2 == 1 <==> flags.user)
      && (e / 0x8000_0000_0000_0000 % 2 == 1 <==> !flags.exec || phys >= 0x8000_0000_0000_0000)
      && (e / 0x8 % 2 == 1 <==> flags.nocache) && (e / 0x10 % 2 == 1 <==> flags.nocache) && e % 2 == 1
      && e / 0x20 % 0x80 == 0 && e / 0x1000 % 0x8_0000_0000_0000 == phys / 0x1000 % 0x8_0000_0000_0000
  {
    hide LeafEntry;
    LeafEntrySum(phys, flags);
    var k, f := phys / 0x1000, FlagBits(flags);
    var nx := if !flags.exec && k < 0x8_0000_0000_0000 then 1 else 0;
    LeafBits(k, f, nx, LeafEntry(phys, flags));
    LeafHigh(k, f, nx, LeafEntry(phys, flags));
    assert k / 0x8_0000_0000_0000 == if phys >= 0x8000_0000_0000_0000 then 1 else 0;
  }

  lemma LeafBits(k: nat, f: nat, nx: nat, e: Word)
    requires f in {0, 2, 4, 6, 0x18, 0x1A, 0x1C, 0x1E}
    requires e == 0x1000 * k + 1 + f + 0x8000_0000_0000_0000 * nx
    ensures e % 2 == 1 && e / 2 % 2 == f / 2 % 2 && e / 4 % 2 == f / 4 % 2 && e / 8 % 2 == f / 8 % 2 && e / 0x10 % 2 == f / 0x10 % 2
    ensures e / 0x20 % 0x80 == 0
  {
    LowBits(k + 0x8_0000_0000_0000 * nx, 1 + f);
  }

  lemma LeafHigh(k: nat, f: nat, nx: nat, e: Word)
    requires f < 0x20 && nx < 2 && k < 0x10_0000_0000_0000
    requires e == 0x1000 * k + 1 + f + 0x8000_0000_0000_0000 * nx
    ensures e / 0x1000 % 0x8_0000_0000_0000 == k % 0x8_0000_0000_0000 && e / 0x1000 % FRAMES == k % FRAMES
    ensures e / 0x8000_0000_0000_0000 % 2 == (k / 0x8_0000_0000_0000 + nx) % 2
  {
    var j := k + 0x8_0000_0000_0000 * nx;
    assert e / 0x1000 == j;
    assert e / 0x8000_0000_0000_0000 == j / 0x8_0000_0000_0000;
  }

  // ----- Addresses

  function PageNumber(virt: Word): (p: nat)
    ensures p < PAGES
  {
    virt / 0x1000 % PAGES
  }

  // Nine bits of an address.
  function Index(virt: Word, unit: nat): (i: nat)
    requires unit > 0
    ensures i < 512
  {
    virt / unit % 512
  }

  // The four table indices the code cuts out of an address are the base-512 digits of its page number.
  lemma IndexDigits(virt: Word)
    ensures Index(virt, 0x80_0000_0000) == PageNumber(virt) / 0x800_0000
    ensures Index(virt, 0x4000_0000) == PageNumber(virt) / 0x4_0000 % 512
    ensures Index(virt, 0x20_0000) == PageNumber(virt) / 512 % 512
    ensures Index(virt, 0x1000) == PageNumber(virt) % 512
  {
    hide PageNumber;
    Digit4(virt);
    Digit3(virt);
    Digit2(virt);
    Digit1(virt);
  }

  lemma Digit4(virt: Word)
    ensures virt / 0x80_0000_0000 % 512 == PageNumber(virt) / 0x800_0000
  {
    TwoDigits(virt, 0x1000, 0x800_0000);
    TwoDigits(virt / 0x1000, 0x800_0000, 512);
  }

  lemma Digit3(virt: Word)
    ensures virt / 0x4000_0000 % 512 == PageNumber(virt) / 0x4_0000 % 512
  {
    TwoDigits(virt, 0x1000, 0x4_0000);
    TwoDigits(virt / 0x1000, 0x4_0000, 0x4_0000);
    TwoDigits(virt / 0x4000_0000, 512, 512);
  }

  lemma Digit2(virt: Word)
    ensures virt / 0x20_0000 % 512 == PageNumber(virt) / 512 % 512
  {
    TwoDigits(virt, 0x1000, 512);
    TwoDigits(virt / 0x1000, 512, 0x800_0000);
    TwoDigits(virt / 0x20_0000, 512, 0x4_0000);
  }

  lemma Digit1(virt: Word)
    ensures virt / 0x1000 % 512 == PageNumber(virt) % 512
  {
    TwoDigits(virt / 0x1000, 512, 0x800_0000);
  }

  // ----- Translation

  function Entry(m: seq<Word>, table: nat, i: nat): Word {
    if table * 512 + i < |m| then m[table * 512 + i] else 0
  }

  // What the walk from the root finds for a page: no mapping, a large page, or a last-level table.
  datatype Walk = Unmapped | LargePage(page: Mapping) | LastTable(table: nat)

  function WalkTo(m: seq<Word>, p: nat): Walk {
    var e4 := Entry(m, ROOT, p / 0x800_0000);
    if !Present(e4) then Unmapped else
    var e3 := Entry(m, Frame(e4), p / 0x4_0000 % 512);
    if !Present(e3) then Unmapped else
    if Large(e3) then LargePage(Mapping(Frame(e3) - Frame(e3) % 0x4_0000 + p % 0x4_0000, AccessOf(e3))) else
    var e2 := Entry(m, Frame(e3), p / 512 % 512);
    if !Present(e2) then Unmapped else
    if Large(e2) then LargePage(Mapping(Frame(e2) - Frame(e2) % 512 + p % 512, AccessOf(e2))) else
    LastTable(Frame(e2))
  }

  // The frame that virtual page p translates to, with the rights its entry states.
  function PageOf(m: seq<Word>, p: nat): Option<Mapping> {
    match WalkTo(m, p)
    case Unmapped => None
    case LargePage(page) => Some(page)
    case LastTable(t) =>
      var e := Entry(m, t, p % 512);
      if Present(e) then Some(MappingOf(e)) else None
  }

  // ----- The tables form a tree

  // level 4 is the root; prefix is the part of the page number that leads to the table.
  datatype Place = Place(level: nat, prefix: nat)

  // Tables are linked writable, executable and not for users.
  const LINK_ACCESS := Access(true, false, false, false, false)

  ghost predicate LinksTo(own: map<nat, Place>, place: Place, i: nat, e: Word) {
    Present(e) && !(place.level == 2 && Large(e)) ==>
      && place.level > 0 && AccessOf(e) == LINK_ACCESS && !(place.level == 3 && Large(e))
      && Frame(e) in own && own[Frame(e)] == Place(place.level - 1, place.prefix * 512 + i)
  }

  ghost predicate IsTree(m: seq<Word>, own: map<nat, Place>) {
    && ROOT in own && own[ROOT] == Place(4, 0)
    && (forall t <- own :: 1 <= t < FRAMES && (t + 1) * 512 <= |m| && 1 <= own[t].level <= 4)
    && (forall t, i: nat | t in own && own[t].level > 1 && i < 512 :: LinksTo(own, own[t], i, Entry(m, t, i)))
  }

  lemma PrefixDigits(p: nat)
    requires p < PAGES
    ensures p / 0x800_0000 < 512
    ensures p / 0x800_0000 * 512 + p / 0x4_0000 % 512 == p / 0x4_0000
    ensures p / 0x4_0000 * 512 + p / 512 % 512 == p / 512
  {
    TwoDigits(p, 0x4_0000, 512);
    TwoDigits(p, 512, 512);
  }

  // Each table met on the walk for p is at the place that p's digits name.
  lemma WalkPlaces(m: seq<Word>, own: map<nat, Place>, p: nat)
    requires IsTree(m, own) && p < PAGES
    ensures var e4 := Entry(m, ROOT, p / 0x800_0000);
            Present(e4) ==>
              && Frame(e4) in own && own[Frame(e4)] == Place(3, p / 0x800_0000) && AccessOf(e4) == LINK_ACCESS
              && var e3 := Entry(m, Frame(e4), p / 0x4_0000 % 512);
                 Present(e3) ==>
                   && !Large(e3) && Frame(e3) in own && own[Frame(e3)] == Place(2, p / 0x4_0000) && AccessOf(e3) == LINK_ACCESS
                   && var e2 := Entry(m, Frame(e3), p / 512 % 512);
                      Present(e2) && !Large(e2) ==> Frame(e2) in own && own[Frame(e2)] == Place(1, p / 512) && AccessOf(e2) == LINK_ACCESS
  {
    hide AccessOf, Present, Large, Frame;
    var i4, i3, i2 := p / 0x800_0000, p / 0x4_0000 % 512, p / 512 % 512;
    PrefixDigits(p);
    var e4 := Entry(m, ROOT, i4);
    assert LinksTo(own, own[ROOT], i4, e4);
    if Present(e4) {
      var e3 := Entry(m, Frame(e4), i3);
      assert LinksTo(own, own[Frame(e4)], i3, e3);
      if Present(e3) {
        assert LinksTo(own, own[Frame(e3)], i2, Entry(m, Frame(e3), i2));
      }
    }
  }

  // ----- What the processor allows

  // A right is granted when every entry on the walk gives it (section 4.6 of the Intel SDM, volume 3A).
  datatype Grant = Grant(write: bool, user: bool, exec: bool)

  function GrantOf(e: Word): Grant { Grant(AccessOf(e).write, AccessOf(e).user, !AccessOf(e).noExec) }

  function Both(a: Grant, b: Grant): Grant { Grant(a.write && b.write, a.user && b.user, a.exec && b.exec) }

  function Effective(m: seq<Word>, p: nat): Option<Grant> {
    var e4 := Entry(m, ROOT, p / 0x800_0000);
    if !Present(e4) then None else
    var e3 := Entry(m, Frame(e4), p / 0x4_0000 % 512);
    var g3 := Both(GrantOf(e4), GrantOf(e3));
    if !Present(e3) then None else if Large(e3) then Some(g3) else
    var e2 := Entry(m, Frame(e3), p / 512 % 512);
    var g2 := Both(g3, GrantOf(e2));
    if !Present(e2) then None else if Large(e2) then Some(g2) else
    var e1 := Entry(m, Frame(e2), p % 512);
    if Present(e1) then Some(Both(g2, GrantOf(e1))) else None
  }

  /**
   * The rights to write and to execute are those of the last entry.  User mode reaches no page
   * whatever its entry says, because the tables above it are linked without the user bit.
   */
  lemma EffectiveRights(m: seq<Word>, own: map<nat, Place>, p: nat)
    requires IsTree(m, own) && p < PAGES
    ensures Effective(m, p) ==
      match PageOf(m, p)
      case None => None
      case Some(page) => Some(Grant(page.access.write, false, !page.access.noExec))
  {
    hide IsTree, Frame, Present, Large, AccessOf;
    WalkPlaces(m, own, p);
  }

  // The table that serves a place, if the walk gets there.
  function TableAt(m: seq<Word>, place: Place): Option<nat>
    requires 1 <= place.level <= 4
    decreases 4 - place.level
  {
    if place.level == 4 then (if place.prefix == 0 then Some(ROOT) else None)
    else
      match TableAt(m, Place(place.level + 1, place.prefix / 512))
      case None => None
      case Some(t) =>
        var e := Entry(m, t, place.prefix % 512);
        if Present(e) && !(place.level == 1 && Large(e)) then Some(Frame(e)) else None
  }

  lemma {:induction false} TableAtOwned(m: seq<Word>, own: map<nat, Place>, place: Place)
    requires IsTree(m, own) && 1 <= place.level <= 4 && TableAt(m, place).Some?
    ensures TableAt(m, place).value in own && own[TableAt(m, place).value] == place
    decreases 4 - place.level
  {
    if place.level < 4 {
      var up := Place(place.level + 1, place.prefix / 512);
      TableAtOwned(m, own, up);
      var t := TableAt(m, up).value;
      assert LinksTo(own, own[t], place.prefix % 512, Entry(m, t, place.prefix % 512));
    }
  }

  // Different places are served by different pages: the reachable tables share nothing.
  lemma TablesDistinct(m: seq<Word>, own: map<nat, Place>, a: Place, b: Place)
    requires IsTree(m, own) && 1 <= a.level <= 4 && 1 <= b.level <= 4
    requires TableAt(m, a).Some? && TableAt(m, a) == TableAt(m, b)
    ensures a == b
  {
    TableAtOwned(m, own, a);
    TableAtOwned(m, own, b);
  }

  // ----- What one write does to every translation

  // Writing entry i of a last-level table changes the translation of one page only.
  lemma LeafWrite(m: seq<Word>, own: map<nat, Place>, p: nat, t: nat, e: Word)
    requires IsTree(m, own) && p < PAGES && WalkTo(m, p) == LastTable(t)
    ensures t in own && own[t].level == 1 && t * 512 + p % 512 < |m|
    ensures var m' := m[t * 512 + p % 512 := e];
            && IsTree(m', own)
            && (forall q | 0 <= q < PAGES :: WalkTo(m', q) == WalkTo(m, q))
            && (forall q | 0 <= q < PAGES ::
                 PageOf(m', q) == if q == p then (if Present(e) then Some(MappingOf(e)) else None) else PageOf(m, q))
  {
    WalkPlaces(m, own, p);
    var m' := m[t * 512 + p % 512 := e];
    forall s, i: nat | s in own && i < 512 && (s != t || i != p % 512)
      ensures Entry(m', s, i) == Entry(m, s, i)
    {
    }
    assert IsTree(m', own) by {
      forall s, i: nat | s in own && own[s].level > 1 && i < 512
        ensures LinksTo(own, own[s], i, Entry(m', s, i))
      {
        assert LinksTo(own, own[s], i, Entry(m, s, i));
      }
    }
    forall q | 0 <= q < PAGES
      ensures WalkTo(m', q) == WalkTo(m, q)
      ensures PageOf(m', q) == if q == p then (if Present(e) then Some(MappingOf(e)) else None) else PageOf(m, q)
    {
      WalkPlaces(m, own, q);
      WalkPlaces(m', own, q);
      if WalkTo(m, q).LastTable? && q != p {
        assert WalkTo(m, q).table != t || q % 512 != p % 512;
      }
    }
  }

  // m' is m with page n cleared and then entry i of table t pointing to it.
  ghost predicate Linked(m: seq<Word>, m': seq<Word>, t: nat, i: nat, n: nat)
    requires n < FRAMES
  {
    && |m'| == |m|
    && forall w | 0 <= w < |m| ::
         m'[w] == if w == t * 512 + i then TableEntry(n)
                  else if n * 512 <= w < n * 512 + 512 then 0 else m[w]
  }

  lemma LinkedBy(m: seq<Word>, cleared: seq<Word>, t: nat, i: nat, n: nat)
    requires |cleared| == |m| && t * 512 + i < |m| && n < FRAMES
    requires forall w | 0 <= w < |m| :: cleared[w] == if n * 512 <= w < n * 512 + 512 then 0 else m[w]
    ensures Linked(m, cleared[t * 512 + i := TableEntry(n)], t, i, n)
  {
    hide TableEntry;
  }

  lemma TableInMemory(m: seq<Word>, own: map<nat, Place>, t: nat, i: nat)
    requires IsTree(m, own) && t in own && i < 512
    ensures t * 512 + i < |m| && 1 <= t < FRAMES
  {
  }

  // Hanging a fresh table under an absent entry keeps the tree and changes no translation.
  lemma FreshTable(m: seq<Word>, m': seq<Word>, own: map<nat, Place>, t: nat, i: nat, n: nat)
    requires IsTree(m, own) && t in own && own[t].level > 1 && i < 512 && !Present(Entry(m, t, i))
    requires n !in own && 1 <= n < FRAMES && (n + 1) * 512 <= |m|
    requires Linked(m, m', t, i, n)
    ensures IsTree(m', own[n := Place(own[t].level - 1, own[t].prefix * 512 + i)])
    ensures Entry(m', t, i) == TableEntry(n)
    ensures forall s, j: nat | s in own && j < 512 && !(s == t && j == i) :: Entry(m', s, j) == Entry(m, s, j)
    ensures forall q | 0 <= q < PAGES :: PageOf(m', q) == PageOf(m, q)
    ensures forall q | 0 <= q < PAGES :: WalkTo(m', q).LargePage? == WalkTo(m, q).LargePage?
  {
    var own' := own[n := Place(own[t].level - 1, own[t].prefix * 512 + i)];
    assert forall j: nat | j < 512 :: Entry(m', n, j) == 0;
    FreshTableIsTree(m, m', own, t, i, n);
    hide IsTree, Frame, Linked, WalkTo, PageOf, Large, Present;
    forall q | 0 <= q < PAGES
      ensures PageOf(m', q) == PageOf(m, q) && WalkTo(m', q).LargePage? == WalkTo(m, q).LargePage?
    {
      FreshTablePage(m, m', own, own', t, i, n, q);
    }
  }

  // A walk meets the fresh table as late as it met the absent entry, and finds nothing there.
  lemma FreshTablePage(m: seq<Word>, m': seq<Word>, own: map<nat, Place>, own': map<nat, Place>, t: nat, i: nat, n: nat, q: nat)
    requires IsTree(m, own) && IsTree(m', own') && ROOT in own && n !in own && 1 <= n < FRAMES && q < PAGES
    requires t in own && own[t].level > 1 && i < 512 && own' == own[n := Place(own[t].level - 1, own[t].prefix * 512 + i)]
    requires !Present(Entry(m, t, i)) && Entry(m', t, i) == TableEntry(n) && forall j: nat | j < 512 :: Entry(m', n, j) == 0
    requires forall s, j: nat | s in own && j < 512 && !(s == t && j == i) :: Entry(m', s, j) == Entry(m, s, j)
    ensures PageOf(m', q) == PageOf(m, q) && WalkTo(m', q).LargePage? == WalkTo(m, q).LargePage?
  {
    hide IsTree, Frame;
    WalkPlaces(m, own, q);
    WalkPlaces(m', own', q);
  }

  lemma FreshTableIsTree(m: seq<Word>, m': seq<Word>, own: map<nat, Place>, t: nat, i: nat, n: nat)
    requires IsTree(m, own) && t in own && own[t].level > 1 && i < 512 && !Present(Entry(m, t, i))
    requires n !in own && 1 <= n < FRAMES && (n + 1) * 512 <= |m|
    requires Linked(m, m', t, i, n)
    ensures IsTree(m', own[n := Place(own[t].level - 1, own[t].prefix * 512 + i)])
    ensures forall s, j: nat | s in own && j < 512 && !(s == t && j == i) :: Entry(m', s, j) == Entry(m, s, j)
  {
    hide Frame;
    var own' := own[n := Place(own[t].level - 1, own[t].prefix * 512 + i)];
    forall s, j: nat | s in own' && own'[s].level > 1 && j < 512
      ensures LinksTo(own', own'[s], j, Entry(m', s, j))
    {
      assert s in own ==> LinksTo(own, own[s], j, Entry(m, s, j));
    }
  }

  // ----- The driver

  datatype Op =
    | Map(virt: Word, phys: Word, flags: Flags)
    | Unmap(virt: Word)
    | AllocPage(virt: Word, flags: Flags)

  type View = map<nat, Option<Mapping>>

  // One call on the plain map from virtual pages to frames and rights.  `large` says which pages lie in a
  // 2 MB mapping; `taken` is the frame that AllocPage takes.
  ghost predicate SpecStep(view: View, large: set<nat>, op: Op, taken: nat, ok: bool, view': View) {
    match op
    case Map(virt, phys, flags) =>
      ok == (PageNumber(virt) !in large) &&
      view' == if ok then view[PageNumber(virt) := Some(Asked(phys, flags))] else view
    case Unmap(virt) =>
      ok && view' == if PageNumber(virt) in large then view else view[PageNumber(virt) := None]
    case AllocPage(virt, flags) =>
      ok == (PageNumber(virt) !in large) &&
      view' == if ok then view[PageNumber(virt) := Some(Mapping(taken, Granted(flags)))] else view
  }

  // The rights asked for, for an address below bit 63.
  function Granted(flags: Flags): Access { Access(flags.write, flags.user, !flags.exec, flags.nocache, flags.nocache) }

  // base + i * 4096 as mm_map_range computes it: a 32-bit product added to a 64-bit address.
  function RangeStep(base: Word, i: nat): Word {
    (base + i * 0x1000 % 0x1_0000_0000) % 0x1_0000_0000_0000_0000
  }

  ghost function RangeView(view: View, virt: Word, phys: Word, flags: Flags, n: nat): View {
    if n == 0 then view
    else RangeView(view, virt, phys, flags, n - 1)[PageNumber(RangeStep(virt, n - 1)) := Some(Asked(RangeStep(phys, n - 1), flags))]
  }

  // The mapped range, page by page: consecutive pages go to consecutive frames, at most 2^20 of them,
  // and every other page is as before.
  lemma {:induction false} RangeViewPages(view: View, virt: Word, phys: Word, flags: Flags, n: nat, q: nat)
    requires q in view && q < PAGES && phys / 0x1000 + n <= FRAMES
    ensures q in RangeView(view, virt, phys, flags, n)
    ensures var d := (q + PAGES - PageNumber(virt)) % PAGES;
            RangeView(view, virt, phys, flags, n)[q] ==
              if d < n && d < 0x10_0000 then Some(Mapping(phys / 0x1000 + d, Granted(flags))) else view[q]
  {
    hide PageNumber, RangeStep;
    if n > 0 {
      RangeViewPages(view, virt, phys, flags, n - 1, q);
      RangeOne(virt, phys, n - 1, q);
    }
  }

  // One step of the range: the page it maps, and the frame.
  lemma RangeOne(virt: Word, phys: Word, w: nat, q: nat)
    requires q < PAGES && phys / 0x1000 + w < FRAMES
    ensures q == PageNumber(RangeStep(virt, w)) <==> w % 0x10_0000 == (q + PAGES - PageNumber(virt)) % PAGES
    ensures RangeStep(phys, w) / 0x1000 % FRAMES == phys / 0x1000 + w % 0x10_0000 && RangeStep(phys, w) < 0x8000_0000_0000_0000
    ensures w % 0x10_0000 <= w && (w < 0x10_0000 ==> w % 0x10_0000 == w)
  {
    hide PageNumber, RangeStep;
    var k := w % 0x10_0000;
    RangeStepPage(virt, w);
    RangeStepPage(phys, w);
    PageDistance(PageNumber(virt), k, q);
    assert k <= w;
  }

  lemma PageDistance(p: nat, d: nat, q: nat)
    requires p < PAGES && d < PAGES && q < PAGES
    ensures q == (p + d) % PAGES <==> d == (q + PAGES - p) % PAGES
  {
  }

  lemma RangeStepPage(base: Word, i: nat)
    ensures PageNumber(RangeStep(base, i)) == (PageNumber(base) + i % 0x10_0000) % PAGES
    ensures base / 0x1000 + i % 0x10_0000 < FRAMES ==> RangeStep(base, i) / 0x1000 == base / 0x1000 + i % 0x10_0000
  {
    var d := i % 0x10_0000;
    assert i * 0x1000 % 0x1_0000_0000 == d * 0x1000;
    WrapPage(base, d);
    var x := base / 0x1000;
    NestedRemainder(x, d);
  }

  lemma WrapPage(base: Word, d: nat)
    requires d < 0x10_0000
    ensures ((base + d * 0x1000) % 0x1_0000_0000_0000_0000) / 0x1000 == (base / 0x1000 + d) % 0x10_0000_0000_0000
  {
    var b := base + d * 0x1000;
    assert b / 0x1000 == base / 0x1000 + d;
  }

  lemma NestedRemainder(x: nat, d: nat)
    ensures (x + d) % 0x10_0000_0000_0000 % PAGES == (x % PAGES + d) % PAGES
  {
    TwoDigits(x + d, PAGES, 0x1_0000);
    AddMultiple(x % PAGES + d, x / PAGES, PAGES);
  }

  const BOOT_ACCESS := Access(true, false, false, false, false)

  // Entry i of the boot page directory: the 2 MB page i, present and writable.
  function BootEntry(i: nat): (e: Word)
    requires i < 512
    ensures Present(e) && Large(e) && Frame(e) == i * 512 && AccessOf(e) == BOOT_ACCESS
  {
    0x83 + i * 0x20_0000
  }

  ghost predicate BootTables(m: seq<Word>) {
    && |m| >= 2048
    && (forall v | 512 <= v < 1536 :: m[v] == if v == 512 then 0x2003 else if v == 1024 then 0x3003 else 0)
    && (forall v | 1536 <= v < 2048 :: m[v] == BootEntry(v - 1536))
  }

  lemma BootTree(m: seq<Word>, own: map<nat, Place>)
    requires BootTables(m) && own == map[1 := Place(4, 0), 2 := Place(3, 0), 3 := Place(2, 0)]
    ensures IsTree(m, own)
  {
    assert forall i: nat | i < 512 :: Entry(m, 3, i) == BootEntry(i);
    assert Frame(0x2003) == 2 && !Large(0x3003) && Frame(0x3003) == 3 && !Present(0);
    assert AccessOf(0x2003) == LINK_ACCESS && AccessOf(0x3003) == LINK_ACCESS;
    hide Frame, AccessOf, Large, Present, BootEntry;
  }

  lemma BootPage(m: seq<Word>, p: nat)
    requires BootTables(m) && p < PAGES
    ensures PageOf(m, p) == if p < 0x4_0000 then Some(Mapping(p, BOOT_ACCESS)) else None
    ensures WalkTo(m, p).LargePage? <==> p < 0x4_0000
  {
    assert Present(0x2003) && Frame(0x2003) == 2 && Present(0x3003) && !Large(0x3003) && Frame(0x3003) == 3 && !Present(0);
    hide BootEntry, Present, Large, Frame, AccessOf;
    BootDigits(p);
    if p < 0x4_0000 { assert Entry(m, 3, p / 512) == BootEntry(p / 512); }
  }

  lemma BootDigits(p: nat)
    requires p < PAGES
    ensures p < 0x4_0000 ==> p / 0x800_0000 == 0 && p / 0x4_0000 % 512 == 0 && p / 512 % 512 == p / 512 < 512 && p / 512 * 512 + p % 512 == p
    ensures 0x4_0000 <= p < 0x800_0000 ==> p / 0x800_0000 == 0 && 0 < p / 0x4_0000 % 512
    ensures 0x800_0000 <= p ==> 0 < p / 0x800_0000 < 512
  {
  }

  class Mmu {
    const mem: array<Word>
    var bump: nat
    ghost var own: map<nat, Place>
    ghost var handed: seq<nat>     // the frames AllocPage has taken, in order

    ghost predicate Valid()
      reads this, mem
    {
      && bump % 0x1000 == 0 && bump <= mem.Length * 8 <= FRAMES * 0x1000 && mem.Length % 512 == 0
      && IsTree(mem[..], own)
      && (forall t <- own :: (t + 1) * 0x1000 <= bump)
      && (forall f <- handed :: f !in own && (f + 1) * 0x1000 <= bump)
      && (forall i, j | 0 <= i < j < |handed| :: handed[i] != handed[j])
    }

    // The tables boot.S leaves behind: the first gigabyte mapped to itself by 512 pages of 2 MB.
    constructor Boot(memory: array<Word>)
      requires ALLOC_START <= memory.Length * 8 <= FRAMES * 0x1000 && memory.Length % 512 == 0
      modifies memory
      ensures Valid() && mem == memory && bump == ALLOC_START && handed == []
      ensures forall p: nat | p < PAGES :: p in LargePages() <==> p < 0x4_0000
      ensures forall p: nat | p < PAGES :: CurrentView()[p] == if p < 0x4_0000 then Some(Mapping(p, BOOT_ACCESS)) else None
    {
      mem, bump, handed := memory, ALLOC_START, [];
      own := map[1 := Place(4, 0), 2 := Place(3, 0), 3 := Place(2, 0)];
      new;
      for w := 0 to 3 * 512
        invariant bump == ALLOC_START && handed == [] && own == map[1 := Place(4, 0), 2 := Place(3, 0), 3 := Place(2, 0)]
        invariant forall v | 512 <= v < 512 + w :: memory[v] == 0
      {
        memory[512 + w] := 0;
      }
      memory[512] := 0x2003;
      memory[1024] := 0x3003;
      for i := 0 to 512
        invariant bump == ALLOC_START && handed == [] && own == map[1 := Place(4, 0), 2 := Place(3, 0), 3 := Place(2, 0)]
        invariant forall v | 512 <= v < 1536 :: memory[v] == if v == 512 then 0x2003 else if v == 1024 then 0x3003 else 0
        invariant forall v | 1536 <= v < 1536 + i :: memory[v] == BootEntry(v - 1536)
      {
        memory[1536 + i] := BootEntry(i);
      }
      BootTree(memory[..], own);
      forall p: nat | p < PAGES
        ensures PageOf(memory[..], p) == if p < 0x4_0000 then Some(Mapping(p, BOOT_ACCESS)) else None
        ensures WalkTo(memory[..], p).LargePage? <==> p < 0x4_0000
      {
        BootPage(memory[..], p);
      }
      hide IsTree, PageOf, WalkTo;
    }

    ghost function CurrentView(): View
      reads mem
    {
      map p: nat | p < PAGES :: PageOf(mem[..], p)
    }

    ghost function LargePages(): set<nat>
      reads mem
    {
      set p: nat | p < PAGES && WalkTo(mem[..], p).LargePage?
    }

    // No table is given up or moved, the frames taken so far stay taken, and no large page appears or goes.
    twostate predicate Keeps()
      reads this, mem
    {
      && (forall t <- old(own) :: t in own && own[t] == old(own[t]))
      && old(handed) <= handed
      && LargePages() == old(LargePages())
      && bump >= old(bump)
    }

    // User mode reaches no page, whatever it was mapped with.
    lemma NoUserPages(p: nat)
      requires Valid() && p < PAGES
      ensures Effective(mem[..], p).Some? <==> CurrentView()[p].Some?
      ensures Effective(mem[..], p).Some? ==>
        var a := CurrentView()[p].value.access;
        Effective(mem[..], p).value == Grant(a.write, false, !a.noExec)
    {
      hide IsTree, PageOf, Effective;
      EffectiveRights(mem[..], own, p);
    }

    // phys_alloc_page
    method PhysAllocPage() returns (n: nat)
      requires Valid() && bump + 0x1000 <= mem.Length * 8
      modifies this`bump, mem
      ensures n * 0x1000 == old(bump) && bump == old(bump) + 0x1000
      ensures forall w | 0 <= w < mem.Length :: mem[w] == if n * 512 <= w < n * 512 + 512 then 0 else old(mem[w])
    {
      n := bump / 0x1000;
      bump := bump + 0x1000;
      for i := 0 to 512
        invariant bump == old(bump) + 0x1000
        invariant forall w | 0 <= w < mem.Length :: mem[w] == if n * 512 <= w < n * 512 + i then 0 else old(mem[w])
      {
        mem[n * 512 + i] := 0;
      }
    }

    // One level of pml4_walk_alloc: the entry, after hanging a fresh table there if it was absent.
    method EnsureEntry(t: nat, i: nat) returns (e: Word)
      requires Valid() && t in own && own[t].level > 1 && i < 512 && bump + 0x1000 <= mem.Length * 8
      modifies this, mem
      ensures Valid() && Keeps() && handed == old(handed) && bump <= old(bump) + 0x1000
      ensures CurrentView() == old(CurrentView())
      ensures e == Entry(mem[..], t, i) && Present(e)
      ensures Present(old(Entry(mem[..], t, i))) ==> mem[..] == old(mem[..]) && bump == old(bump)
      ensures forall s, j: nat | s in old(own) && j < 512 && !(s == t && j == i) ::
                Entry(mem[..], s, j) == old(Entry(mem[..], s, j))
    {
      assert t * 512 + i < mem.Length;
      if !Present(mem[t * 512 + i]) {
        LinkFresh(t, i);
      }
      e := mem[t * 512 + i];
    }

    method LinkFresh(t: nat, i: nat)
      requires Valid() && t in own && own[t].level > 1 && i < 512 && bump + 0x1000 <= mem.Length * 8
      requires !Present(Entry(mem[..], t, i))
      modifies this, mem
      ensures Valid() && Keeps() && handed == old(handed) && bump <= old(bump) + 0x1000
      ensures CurrentView() == old(CurrentView())
      ensures Present(Entry(mem[..], t, i))
      ensures forall s, j: nat | s in old(own) && j < 512 && !(s == t && j == i) ::
                Entry(mem[..], s, j) == old(Entry(mem[..], s, j))
    {
      hide IsTree, PageOf, WalkTo, Frame, TableEntry, Large, Present, Linked, Entry;
      TableInMemory(mem[..], own, t, i);
      var n := PhysAllocPage();
      ghost var cleared := mem[..];
      mem[t * 512 + i] := TableEntry(n);
      assert mem[..] == cleared[t * 512 + i := TableEntry(n)];
      LinkedBy(old(mem[..]), cleared, t, i, n);
      FreshTable(old(mem[..]), mem[..], own, t, i, n);
      own := own[n := Place(own[t].level - 1, own[t].prefix * 512 + i)];
    }

    // pml4_walk_alloc; 0 means that the page lies in a 2 MB mapping.
    method WalkAlloc(virt: Word) returns (address: nat)
      requires Valid() && bump + 0x3000 <= mem.Length * 8
      modifies this, mem
      ensures Valid() && Keeps() && handed == old(handed) && bump <= old(bump) + 0x3000
      ensures CurrentView() == old(CurrentView())
      ensures var p := PageNumber(virt);
              if p in old(LargePages()) then address == 0 && mem[..] == old(mem[..]) && bump == old(bump)
              else WalkTo(mem[..], p).LastTable? && address == WalkTo(mem[..], p).table * 0x1000 + p % 512 * 8
    {
      assert ROOT in own && own[ROOT].level == 4;
      hide IsTree, PageOf, Frame, Present, Large, AccessOf, Entry, Index;
      ghost var p := PageNumber(virt);
      IndexDigits(virt);
      WalkPlaces(mem[..], own, p);
      var i4, i3, i2, i1 := Index(virt, 0x80_0000_0000), Index(virt, 0x4000_0000), Index(virt, 0x20_0000), Index(virt, 0x1000);
      var e4 := EnsureEntry(ROOT, i4);
      WalkPlaces(mem[..], own, p);
      var e3 := EnsureEntry(Frame(e4), i3);
      WalkPlaces(mem[..], own, p);
      var e2 := EnsureEntry(Frame(e3), i2);
      WalkPlaces(mem[..], own, p);
      assert WalkTo(mem[..], p).LargePage? <==> Large(e2);
      assert !Large(e2) ==> WalkTo(mem[..], p) == LastTable(Frame(e2));
      hide WalkTo, PageNumber;
      if Large(e2) { return 0; }
      return Frame(e2) * 0x1000 + i1 * 8;
    }

    // pml4_walk_readonly; 0 means that there is no last-level entry.
    method WalkReadonly(virt: Word) returns (address: nat)
      requires Valid()
      ensures var w := WalkTo(mem[..], PageNumber(virt));
              address == if w.LastTable? then w.table * 0x1000 + PageNumber(virt) % 512 * 8 else 0
    {
      ghost var p := PageNumber(virt);
      IndexDigits(virt);
      WalkPlaces(mem[..], own, p);
      var i4, i3, i2, i1 := Index(virt, 0x80_0000_0000), Index(virt, 0x4000_0000), Index(virt, 0x20_0000), Index(virt, 0x1000);
      var e4 := mem[ROOT * 512 + i4];
      if !Present(e4) { return 0; }
      var e3 := mem[Frame(e4) * 512 + i3];
      if !Present(e3) { return 0; }
      var e2 := mem[Frame(e3) * 512 + i2];
      if !Present(e2) { return 0; }
      if Large(e2) { return 0; }
      return Frame(e2) * 0x1000 + i1 * 8;
    }

    // The write that map and unmap make through the address of a last-level entry.
    method WriteLeaf(virt: Word, address: nat, e: Word)
      requires Valid() && WalkTo(mem[..], PageNumber(virt)).LastTable?
      requires address == WalkTo(mem[..], PageNumber(virt)).table * 0x1000 + PageNumber(virt) % 512 * 8
      modifies mem
      ensures Valid() && LargePages() == old(LargePages())
      ensures WalkTo(mem[..], PageNumber(virt)) == old(WalkTo(mem[..], PageNumber(virt)))
      ensures Entry(mem[..], WalkTo(mem[..], PageNumber(virt)).table, PageNumber(virt) % 512) == e
      ensures CurrentView() == old(CurrentView())[PageNumber(virt) := if Present(e) then Some(MappingOf(e)) else None]
    {
      ghost var p := PageNumber(virt);
      ghost var t := WalkTo(mem[..], p).table;
      LeafWrite(mem[..], own, p, t, e);
      assert address / 8 == t * 512 + p % 512;
      mem[address / 8] := e;
      assert mem[..] == old(mem[..])[t * 512 + p % 512 := e];
    }

    // mmu_map_page
    method MapPage(virt: Word, phys: Word, flags: Flags) returns (ok: bool)
      requires Valid() && bump + 0x3000 <= mem.Length * 8
      modifies this, mem
      ensures Valid() && Keeps() && handed == old(handed) && bump <= old(bump) + 0x3000
      ensures SpecStep(old(CurrentView()), old(LargePages()), Map(virt, phys, flags), 0, ok, CurrentView())
      ensures !ok ==> mem[..] == old(mem[..]) && bump == old(bump)
      ensures ok ==>
        && WalkTo(mem[..], PageNumber(virt)).LastTable?
        && var e := Entry(mem[..], WalkTo(mem[..], PageNumber(virt)).table, PageNumber(virt) % 512);
           && e % 2 == 1 && e / 0x1000 % 0x100_0000_0000 == phys / 0x1000 % 0x100_0000_0000
           && (e / 0x2 % 2 == 1 <==> flags.write) && (e / 0x4 % 2 == 1 <==> flags.user)
           && (e / 0x8000_0000_0000_0000 % 2 == 1 <==> !flags.exec || phys >= 0x8000_0000_0000_0000)
           && (e / 0x8 % 2 == 1 <==> flags.nocache) && (e / 0x10 % 2 == 1 <==> flags.nocache)
    {
      var address := WalkAlloc(virt);
      WalkPlaces(mem[..], own, PageNumber(virt));
      if address == 0 { return false; }
      hide LeafEntry;
      LeafEntryBits(phys, flags);
      WriteLeaf(virt, address, LeafEntry(phys, flags));
      return true;
    }

    // mmu_unmap_page; it always reports success.
    method UnmapPage(virt: Word)
      requires Valid()
      modifies mem
      ensures Valid() && LargePages() == old(LargePages())
      ensures SpecStep(old(CurrentView()), old(LargePages()), Unmap(virt), 0, true, CurrentView())
      ensures PageNumber(virt) !in LargePages() ==> CurrentView()[PageNumber(virt)] == None
    {
      var address := WalkReadonly(virt);
      WalkPlaces(mem[..], own, PageNumber(virt));
      if address == 0 {
        assert CurrentView() == CurrentView()[PageNumber(virt) := PageOf(mem[..], PageNumber(virt))];
        return;
      }
      WriteLeaf(virt, address, 0);
    }

    // mmu_virt_to_phys, with CR3 at the kernel PML4; None stands for the -1 it returns.
    method VirtToPhys(virt: Word) returns (r: Option<nat>)
      ensures r == match CurrentView()[PageNumber(virt)]
                   case None => None
                   case Some(page) => Some(page.frame * 0x1000 + virt % 0x1000)
    {
      hide Present, Large, Frame, Entry, PageNumber, AccessOf, Index;
      IndexDigits(virt);
      var i4, i3, i2, i1 := Index(virt, 0x80_0000_0000), Index(virt, 0x4000_0000), Index(virt, 0x20_0000), Index(virt, 0x1000);
      var e4 := Entry(mem[..], ROOT, i4);
      if !Present(e4) { return None; }
      var e3 := Entry(mem[..], Frame(e4), i3);
      if !Present(e3) { return None; }
      if Large(e3) {
        HugeOffset(Frame(e3), virt);
        var base := Frame(e3) * 0x1000;
        return Some(base - base % 0x4000_0000 + virt % 0x4000_0000);
      }
      var e2 := Entry(mem[..], Frame(e3), i2);
      if !Present(e2) { return None; }
      if Large(e2) {
        LargeOffset(Frame(e2), virt);
        var base := Frame(e2) * 0x1000;
        return Some(base - base % 0x20_0000 + virt % 0x20_0000);
      }
      var e1 := Entry(mem[..], Frame(e2), i1);
      if !Present(e1) { return None; }
      return Some(Frame(e1) * 0x1000 + virt % 0x1000);
    }

    // mm_alloc_page
    method AllocPage(virt: Word, flags: Flags) returns (ok: bool)
      requires Valid() && bump + 0x4000 <= mem.Length * 8
      modifies this, mem
      ensures Valid() && Keeps() && bump <= old(bump) + 0x4000
      ensures |handed| == |old(handed)| + 1
      ensures SpecStep(old(CurrentView()), old(LargePages()), Op.AllocPage(virt, flags), handed[|handed| - 1], ok, CurrentView())
    {
      hide IsTree, PageOf, WalkTo;
      var phys := bump;
      bump := bump + 0x1000;
      handed := handed + [phys / 0x1000];
      assert phys / 0x1000 < FRAMES;
      forall i | 0 <= i < |old(handed)|
        ensures handed[i] < phys / 0x1000
      {
        assert old(handed)[i] in old(handed);
      }
      assert Valid();
      ok := MapPage(virt, phys, flags);
    }

    // Mapping a page and unmapping it again restores every translation exactly when the page was
    // not mapped before, or lies in a 2 MB mapping, which neither call touches.
    method MapThenUnmap(virt: Word, phys: Word, flags: Flags)
      requires Valid() && bump + 0x3000 <= mem.Length * 8
      modifies this, mem
      ensures Valid()
      ensures CurrentView() == old(CurrentView()) <==>
                PageNumber(virt) in old(LargePages()) || old(CurrentView())[PageNumber(virt)] == None
    {
      var ok := MapPage(virt, phys, flags);
      UnmapPage(virt);
    }

    // mm_map_range.  The step i * 4096 is 32-bit arithmetic, so after 2^20 pages the range starts over:
    // page number i is mapped to frame number i only below 2^20, and nothing further is mapped.
    method MapRange(virt: Word, phys: Word, pages: nat, flags: Flags) returns (ok: bool, ghost n: nat)
      requires Valid() && bump + 0x3000 * pages <= mem.Length * 8 && pages < 0x1_0000_0000
      modifies this, mem
      ensures Valid() && Keeps() && handed == old(handed)
      ensures n <= pages && CurrentView() == RangeView(old(CurrentView()), virt, phys, flags, n)
      ensures ok <==> n == pages
      ensures forall i | 0 <= i < n :: PageNumber(RangeStep(virt, i)) !in LargePages()
      ensures !ok ==> PageNumber(RangeStep(virt, n)) in LargePages()
    {
      hide IsTree, PageOf, WalkTo;
      n := 0;
      for i := 0 to pages
        invariant Valid() && Keeps() && handed == old(handed) && bump + 0x3000 * (pages - i) <= mem.Length * 8
        invariant n == i && CurrentView() == RangeView(old(CurrentView()), virt, phys, flags, i)
        invariant forall j | 0 <= j < i :: PageNumber(RangeStep(virt, j)) !in LargePages()
      {
        ok := MapPage(RangeStep(virt, i), RangeStep(phys, i), flags);
        if !ok { return; }
        n := n + 1;
      }
      return true, n;
    }

    method Step(op: Op) returns (ok: bool, ghost taken: nat)
      requires Valid() && bump + 0x4000 <= mem.Length * 8
      modifies this, mem
      ensures Valid() && Keeps() && bump <= old(bump) + 0x4000
      ensures SpecStep(old(CurrentView()), old(LargePages()), op, taken, ok, CurrentView())
      ensures op.AllocPage? ==> taken in handed && taken !in old(handed)
    {
      ok, taken := true, 0;
      match op {
        case Map(virt, phys, flags) => ok := MapPage(virt, phys, flags);
        case Unmap(virt) => UnmapPage(virt);
        case AllocPage(virt, flags) =>
          ok := AllocPage(virt, flags);
          taken := handed[|handed| - 1];
      }
    }

    // Every run of the three calls acts on the plain map, keeps the tables a tree, and never takes
    // a frame that was, is or becomes a table or that was taken before (Valid, with own and handed only growing).
    method Run(ops: seq<Op>) returns (results: seq<bool>, ghost views: seq<View>, ghost taken: seq<nat>)
      requires Valid() && bump + 0x4000 * |ops| <= mem.Length * 8
      modifies this, mem
      ensures Valid() && Keeps()
      ensures |results| == |ops| == |taken| && |views| == |ops| + 1
      ensures views[0] == old(CurrentView()) && views[|ops|] == CurrentView()
      ensures forall i | 0 <= i < |ops| ::
                SpecStep(views[i], old(LargePages()), ops[i], taken[i], results[i], views[i + 1])
      ensures forall i | 0 <= i < |ops| && ops[i].AllocPage? :: taken[i] in handed && taken[i] !in old(handed)
      ensures forall i, j | 0 <= i < j < |ops| && ops[i].AllocPage? && ops[j].AllocPage? :: taken[i] != taken[j]
    {
      hide IsTree, PageOf, WalkTo, SpecStep;
      results, views, taken := [], [CurrentView()], [];
      for k := 0 to |ops|
        invariant Valid() && Keeps() && bump + 0x4000 * (|ops| - k) <= mem.Length * 8
        invariant |results| == k == |taken| && |views| == k + 1
        invariant views[0] == old(CurrentView()) && views[k] == CurrentView()
        invariant forall i | 0 <= i < k ::
                    SpecStep(views[i], old(LargePages()), ops[i], taken[i], results[i], views[i + 1])
        invariant forall i | 0 <= i < k && ops[i].AllocPage? :: taken[i] in handed && taken[i] !in old(handed)
        invariant forall i, j | 0 <= i < j < k && ops[i].AllocPage? && ops[j].AllocPage? :: taken[i] != taken[j]
      {
        var ok, f := Step(ops[k]);
        results, views, taken := results + [ok], views + [CurrentView()], taken + [f];
      }
    }
  }

  // The two large page sizes: the offset bits taken from the address are those of its page number.
  lemma LargeOffset(frame: nat, virt: Word)
    ensures (frame * 0x1000) - (frame * 0x1000) % 0x20_0000 + virt % 0x20_0000
         == (frame - frame % 512 + PageNumber(virt) % 512) * 0x1000 + virt % 0x1000
  {
    hide PageNumber;
    IndexDigits(virt);
    TwoDigits(frame * 0x1000, 0x1000, 512);
    TwoDigits(virt, 0x1000, 512);
    DivModUnique(frame * 0x1000, 0x1000, frame, 0);
  }

  lemma HugeOffset(frame: nat, virt: Word)
    ensures (frame * 0x1000) - (frame * 0x1000) % 0x4000_0000 + virt % 0x4000_0000
         == (frame - frame % 0x4_0000 + PageNumber(virt) % 0x4_0000) * 0x1000 + virt % 0x1000
  {
    HugeRemainder(frame * 0x1000);
    HugeRemainder(virt);
    LowRemainder(virt / 0x1000);
  }

  lemma HugeRemainder(a: nat)
    ensures a % 0x4000_0000 == a / 0x1000 % 0x4_0000 * 0x1000 + a % 0x1000
  {
    assert a / 0x4000_0000 == a / 0x1000 / 0x4_0000;
  }

  lemma LowRemainder(x: nat)
    ensures x % PAGES % 0x4_0000 == x % 0x4_0000
  {
    assert (x % PAGES) / 0x4_0000 == x / 0x4_0000 - 0x4_0000 * (x / PAGES);
  }
}
