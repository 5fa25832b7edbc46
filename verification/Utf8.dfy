/**
 The UTF-8 validator and the in-place repair of include/utf8.h.

 A string is well formed when it is the concatenation of the shortest encodings of code points
 from 1 to 0x1FFFFF: surrogates and values above 0x10FFFF are let through, as in the code.  The
 validator is proved to accept exactly those strings, and the repair to leave one, in place, with
 its write position never ahead of its read position.

 Bytes are numbers from 0 to 255, so the bit masks of the source are ranges, quotients and
 remainders.
 */
module Utf8 {
  import opened Arithmetic
  import opened Bytes
  import opened Wrappers

  // A following byte, 0b10xxxxxx.
  predicate Cont(b: Byte) { 0x80 <= b < 0xC0 }

  predicate StartsCont(s: seq<Byte>) { s != [] && Cont(s[0]) }

  // utf8codepointcalcsize
  function LeadLength(b: Byte): (n: nat)
    ensures 1 <= n <= 4
  {
    if 0xF0 <= b < 0xF8 then 4 else if 0xE0 <= b < 0xF0 then 3 else if 0xC0 <= b < 0xE0 then 2 else 1
  }

  // The low bits of a lead byte and six bits from each following byte.
  function Join2(a: int, b: int): int { a % 32 * 64 + b % 64 }
  function Join3(a: int, b: int, c: int): int { a % 16 * 0x1000 + b % 64 * 64 + c % 64 }
  function Join4(a: int, b: int, c: int, d: int): int { a % 8 * 0x40000 + b % 64 * 0x1000 + c % 64 * 64 + d % 64 }

  // Neither ASCII nor a lead byte.
  predicate Stray(b: Byte) { 0x80 <= b < 0xC0 || 0xF8 <= b }

  // The value utf8codepoint reads off a lead byte and its following bytes.
  function Value(u: seq<Byte>): (v: int)
    requires u != [] && |u| == LeadLength(u[0])
    ensures 0 <= v < 0x200000
  {
    match |u|
    case 4 => Join4(u[0], u[1], u[2], u[3])
    case 3 => Join3(u[0], u[1], u[2])
    case 2 => Join2(u[0], u[1])
    case _ => u[0]
  }

  // utf8codepointsize; negative values and those of 0x200000 and above fall in the last case.
  function Size(chr: int): (n: nat)
    ensures 1 <= n <= 4
  {
    if 0 <= chr < 0x80 then 1 else if 0 <= chr < 0x800 then 2 else if 0 <= chr < 0x10000 then 3 else 4
  }

  // What utf8catcodepoint writes when it has the room.
  function Shortest(chr: int): (u: seq<Byte>)
    ensures |u| == Size(chr)
  {
    match Size(chr)
    case 1 => [chr]
    case 2 => [0xC0 + chr / 64 % 32, 0x80 + chr % 64]
    case 3 => [0xE0 + chr / 0x1000 % 16, 0x80 + chr / 64 % 64, 0x80 + chr % 64]
    case _ => [0xF0 + chr / 0x40000 % 8, 0x80 + chr / 0x1000 % 64, 0x80 + chr / 64 % 64, 0x80 + chr % 64]
  }

  // ----- Encoding and decoding one code point

  lemma Nested(v: nat)
    ensures v / 0x1000 == v / 64 / 64 && v / 0x40000 == v / 64 / 64 / 64
  {
    TwoDigits(v, 64, 64);
    TwoDigits(v, 0x1000, 64);
  }

  lemma FourDigits(w: nat, x: nat, y: nat, z: nat)
    requires x < 64 && y < 64 && z < 64
    ensures
      var v := w * 0x40000 + x * 0x1000 + y * 64 + z;
      v / 0x40000 == w && v / 0x1000 == w * 64 + x && v / 0x1000 % 64 == x && v / 64 % 64 == y && v % 64 == z
  {
    var v := w * 0x40000 + x * 0x1000 + y * 64 + z;
    Nested(v);
    DivModUnique(v, 64, (w * 64 + x) * 64 + y, z);
    DivModUnique((w * 64 + x) * 64 + y, 64, w * 64 + x, y);
    DivModUnique(w * 64 + x, 64, w, x);
  }

  lemma DigitsOf(v: nat)
    ensures v == v / 0x40000 * 0x40000 + v / 0x1000 % 64 * 0x1000 + v / 64 % 64 * 64 + v % 64
    ensures v / 0x1000 == v / 0x40000 * 64 + v / 0x1000 % 64 && v / 64 == v / 0x1000 * 64 + v / 64 % 64
  {
    Nested(v);
  }

  lemma JoinDigits(w: nat, x: nat, y: nat, z: nat)
    requires x < 64 && y < 64 && z < 64
    ensures w < 8 ==> Join4(0xF0 + w, 0x80 + x, 0x80 + y, 0x80 + z) == w * 0x40000 + x * 0x1000 + y * 64 + z
    ensures x < 16 ==> Join3(0xE0 + x, 0x80 + y, 0x80 + z) == x * 0x1000 + y * 64 + z
    ensures y < 32 ==> Join2(0xC0 + y, 0x80 + z) == y * 64 + z
  {
  }

  lemma ValueOfDigits(chr: nat)
    requires chr < 0x200000
    ensures |Shortest(chr)| == LeadLength(Shortest(chr)[0]) && Value(Shortest(chr)) == chr
  {
    hide Join2, Join3, Join4;
    DigitsOf(chr);
    JoinDigits(chr / 0x40000, chr / 0x1000 % 64, chr / 64 % 64, chr % 64);
    DigitRange(chr);
  }

  // The lead byte's bits are all there is above the following bytes.
  lemma DigitRange(chr: nat)
    requires chr < 0x200000
    ensures chr / 0x40000 % 8 == chr / 0x40000
    ensures chr < 0x10000 ==> chr / 0x1000 % 16 == chr / 0x1000 % 64 < 16 && chr / 0x40000 == 0
    ensures chr < 0x800 ==> chr / 64 % 32 == chr / 64 % 64 < 32 && chr / 0x1000 == 0
  {
  }

  // Decoding undoes encoding exactly for the values of 21 bits.
  lemma CodepointRoundTrip(chr: int)
    ensures |Shortest(chr)| == LeadLength(Shortest(chr)[0])
    ensures Value(Shortest(chr)) == chr <==> 0 <= chr < 0x200000
  {
    hide Value;
    if 0 <= chr < 0x200000 { ValueOfDigits(chr); }
  }

  // The number of bytes of a complete sequence at the front of s, or 0.
  function UnitLength(s: seq<Byte>): (n: nat)
    requires s != []
    ensures n <= |s| && (n > 0 ==> n == LeadLength(s[0]))
  {
    var n := LeadLength(s[0]);
    if n == 1 then if s[0] < 0x80 then 1 else 0
    else if n <= |s| && Cont(s[1]) && (n >= 3 ==> Cont(s[2])) && (n == 4 ==> Cont(s[3])) then n
    else 0
  }

  // A complete sequence whose value has a shorter encoding.
  predicate Overlong(s: seq<Byte>)
    requires s != [] && UnitLength(s) > 0
  {
    match UnitLength(s)
    case 1 => false
    case 2 => s[0] < 0xC2
    case 3 => s[0] == 0xE0 && s[1] < 0xA0
    case _ => s[0] == 0xF0 && s[1] < 0x90
  }

  // A complete sequence needs no more bytes than it has, and is the shortest one unless it is overlong.
  lemma UnitValue(s: seq<Byte>)
    requires s != [] && UnitLength(s) > 0
    ensures
      var n := UnitLength(s);
      var v := Value(s[..n]);
      && Size(v) <= n
      && (Size(v) == n <==> !Overlong(s))
      && (Shortest(v) == s[..n] <==> !Overlong(s))
      && (v == 0 && !Overlong(s) ==> s[0] == 0)
  {
    hide Join2, Join3, Join4;
    match UnitLength(s)
    case 4 =>
      assert s[..4] == [s[0], s[1], s[2], s[3]];
      Value4(s[0], s[1], s[2], s[3]);
    case 3 =>
      assert s[..3] == [s[0], s[1], s[2]];
      Value3(s[0], s[1], s[2]);
    case 2 =>
      assert s[..2] == [s[0], s[1]];
      Value2(s[0], s[1]);
    case 1 =>
  }

  lemma Bits4(a: Byte, b: Byte, c: Byte, d: Byte)
    requires 0xF0 <= a < 0xF8 && Cont(b) && Cont(c) && Cont(d)
    ensures Join4(a, b, c, d) == (a - 0xF0) * 0x40000 + (b - 0x80) * 0x1000 + (c - 0x80) * 64 + (d - 0x80)
  {
  }

  lemma Value4(a: Byte, b: Byte, c: Byte, d: Byte)
    requires 0xF0 <= a < 0xF8 && Cont(b) && Cont(c) && Cont(d)
    ensures
      var v := Join4(a, b, c, d);
      && (0 <= v < 0x10000 <==> a == 0xF0 && b < 0x90)
      && Size(v) <= 4 && (Size(v) == 4 ==> Shortest(v) == [a, b, c, d])
  {
    hide Join4;
    Bits4(a, b, c, d);
    FourDigits(a - 0xF0, b - 0x80, c - 0x80, d - 0x80);
  }

  lemma Value3(a: Byte, b: Byte, c: Byte)
    requires 0xE0 <= a < 0xF0 && Cont(b) && Cont(c)
    ensures
      var v := Join3(a, b, c);
      && (0 <= v < 0x800 <==> a == 0xE0 && b < 0xA0)
      && Size(v) <= 3 && (Size(v) == 3 ==> Shortest(v) == [a, b, c])
  {
    var x, y, z := a - 0xE0, b - 0x80, c - 0x80;
    assert a % 16 == x && b % 64 == y && c % 64 == z;
    FourDigits(0, x, y, z);
    assert Join3(a, b, c) == x * 0x1000 + y * 64 + z;
  }

  lemma Value2(a: Byte, b: Byte)
    requires 0xC0 <= a < 0xE0 && Cont(b)
    ensures
      var v := Join2(a, b);
      && (0 <= v < 0x80 <==> a < 0xC2)
      && Size(v) <= 2 && (Size(v) == 2 ==> Shortest(v) == [a, b])
  {
    assert a % 32 == a - 0xC0 && b % 64 == b - 0x80;
    FourDigits(0, 0, a - 0xC0, b - 0x80);
  }

  // The shortest encoding stands at the front of a longer string as one complete sequence.
  lemma ShortestIsUnit(chr: int, rest: seq<Byte>)
    requires 0 <= chr < 0x200000
    ensures
      var s := Shortest(chr) + rest;
      && UnitLength(s) == Size(chr) && s[..Size(chr)] == Shortest(chr) && s[Size(chr)..] == rest
      && !Overlong(s) && Value(Shortest(chr)) == chr && !Cont(s[0])
  {
    var s := Shortest(chr) + rest;
    CodepointRoundTrip(chr);
    assert s[..Size(chr)] == Shortest(chr);
    UnitValue(s);
  }

  // ----- Well-formed strings

  function EncodeAll(cps: seq<int>): seq<Byte> {
    if cps == [] then [] else Shortest(cps[0]) + EncodeAll(cps[1..])
  }

  predicate Codepoints(cps: seq<int>) { forall i :: 0 <= i < |cps| ==> 1 <= cps[i] < 0x200000 }

  ghost predicate WellFormed(s: seq<Byte>) { exists cps :: Codepoints(cps) && EncodeAll(cps) == s }

  // One round of the validator's loop: is the sequence at the front acceptable?
  predicate GoodFront(s: seq<Byte>)
    requires s != []
  {
    var n := UnitLength(s);
    n > 0 && !(n > 1 && StartsCont(s[n..])) && !Overlong(s)
  }

  // Where the validator stops: the position of the first unacceptable sequence, or the end.
  function ValidPrefix(s: seq<Byte>): (k: nat)
    ensures k <= |s|
  {
    if s == [] || !GoodFront(s) then 0 else UnitLength(s) + ValidPrefix(s[UnitLength(s)..])
  }

  lemma FrontValue(s: seq<Byte>)
    requires s != [] && NulFree(s) && GoodFront(s)
    ensures UnitLength(s) > 0 && |s[UnitLength(s)..]| < |s|
    ensures 1 <= Value(s[..UnitLength(s)]) < 0x200000 && Shortest(Value(s[..UnitLength(s)])) == s[..UnitLength(s)]
    ensures NulFree(s[UnitLength(s)..]) && s == s[..UnitLength(s)] + s[UnitLength(s)..]
  {
    hide Value, Shortest, Size, Overlong;
    UnitValue(s);
    assert s[0] in s;
  }

  // The validator accepts exactly the well-formed strings.
  lemma {:induction false} AcceptedIffWellFormed(s: seq<Byte>)
    requires NulFree(s)
    ensures ValidPrefix(s) == |s| <==> WellFormed(s)
  {
    if ValidPrefix(s) == |s| {
      var cps := AcceptedCodepoints(s);
    }
    forall cps | Codepoints(cps) && EncodeAll(cps) == s ensures ValidPrefix(s) == |s| {
      EncodedAccepted(cps);
    }
  }

  lemma {:induction false} AcceptedCodepoints(s: seq<Byte>) returns (cps: seq<int>)
    requires NulFree(s) && ValidPrefix(s) == |s|
    ensures Codepoints(cps) && EncodeAll(cps) == s
    decreases |s|
  {
    hide Shortest, Value, GoodFront;
    if s == [] {
      cps := [];
    } else {
      var n := UnitLength(s);
      FrontValue(s);
      var rest := AcceptedCodepoints(s[n..]);
      cps := [Value(s[..n])] + rest;
      assert cps[1..] == rest;
    }
  }

  lemma {:induction false} EncodedAccepted(cps: seq<int>)
    requires Codepoints(cps)
    ensures ValidPrefix(EncodeAll(cps)) == |EncodeAll(cps)| && !StartsCont(EncodeAll(cps))
  {
    if cps != [] {
      ShortestIsUnit(cps[0], EncodeAll(cps[1..]));
      EncodedAccepted(cps[1..]);
    }
  }

  // Everything before the stopping place is well formed.
  lemma {:induction false} PrefixAccepted(s: seq<Byte>)
    requires NulFree(s)
    ensures WellFormed(s[..ValidPrefix(s)])
    ensures ValidPrefix(s) < |s| ==> !GoodFront(s[ValidPrefix(s)..])
    decreases |s|
  {
    hide Shortest, Value, GoodFront;
    if s == [] || !GoodFront(s) {
      EmptyWellFormed();
      assert s[..0] == [] && s[0..] == s;
    } else {
      var n, k := UnitLength(s), ValidPrefix(s);
      FrontValue(s);
      PrefixAccepted(s[n..]);
      var rest :| Codepoints(rest) && EncodeAll(rest) == s[n..][..k - n];
      var v := Value(s[..n]);
      assert s[..n] + s[n..][..k - n] == s[..k];
      ConsWellFormed(v, rest, s[..k]);
      assert s[n..][k - n..] == s[k..];
    }
  }

  lemma ConsWellFormed(v: int, rest: seq<int>, s: seq<Byte>)
    requires 1 <= v < 0x200000 && Codepoints(rest) && s == Shortest(v) + EncodeAll(rest)
    ensures WellFormed(s)
  {
    var cps := [v] + rest;
    assert cps[1..] == rest;
    assert Codepoints(cps) && EncodeAll(cps) == s;
  }

  // ----- Repair

  // Complete sequences are re-encoded, any other byte is replaced.
  function Repair(s: seq<Byte>, r: Byte): (t: seq<Byte>)
    decreases |s|
  {
    if s == [] then []
    else
      var n := UnitLength(s);
      if n == 0 then [r] + Repair(s[1..], r) else Shortest(Value(s[..n])) + Repair(s[n..], r)
  }

  lemma RepairUnit(s: seq<Byte>, r: Byte)
    requires s != [] && UnitLength(s) > 0
    ensures Repair(s, r) == Shortest(Value(s[..UnitLength(s)])) + Repair(s[UnitLength(s)..], r)
  {
  }

  lemma {:induction false} RepairNotLonger(s: seq<Byte>, r: Byte)
    ensures |Repair(s, r)| <= |s|
    decreases |s|
  {
    if s != [] {
      var n := UnitLength(s);
      if n == 0 {
        RepairNotLonger(s[1..], r);
      } else {
        UnitValue(s);
        RepairNotLonger(s[n..], r);
      }
    }
  }

  // A damaged string: a byte outside every complete sequence, before any encoding of zero.
  predicate Damaged(s: seq<Byte>) {
    s != [] && var n := UnitLength(s); n == 0 || (Value(s[..n]) != 0 && Damaged(s[n..]))
  }

  lemma {:induction false} TextAppend(u: seq<Byte>, s: seq<Byte>)
    ensures NulFree(u) ==> Text(u + s) == u + Text(s)
    ensures Text([0] + s) == []
  {
    if u != [] {
      assert (u + s)[1..] == u[1..] + s;
      assert u == [u[0]] + u[1..];
      TextAppend(u[1..], s);
    } else {
      assert u + s == s;
    }
  }

  lemma ShortestNulFree(chr: int)
    requires 1 <= chr < 0x200000
    ensures NulFree(Shortest(chr))
  {
  }

  lemma PutFront(chr: int, s: seq<Byte>)
    requires 1 <= chr < 0x200000 && NulFree(s)
    ensures NulFree(Shortest(chr) + s)
    ensures WellFormed(Shortest(chr) + s) <==> WellFormed(s)
  {
    hide Shortest, WellFormed, UnitLength, Value, Size;
    ShortestNulFree(chr);
    var t := Shortest(chr) + s;
    ShortestIsUnit(chr, s);
    AcceptedIffWellFormed(s);
    AcceptedIffWellFormed(t);
    if StartsCont(s) { assert !GoodFront(s) by { ContIsBad(s); } }
  }

  lemma ContIsBad(s: seq<Byte>)
    requires StartsCont(s)
    ensures UnitLength(s) == 0 && !GoodFront(s)
  {
  }

  lemma {:induction false} RepairStart(s: seq<Byte>, r: Byte)
    requires !Cont(r)
    ensures !StartsCont(Text(Repair(s, r)))
  {
    if s != [] && UnitLength(s) > 0 {
      ShortestIsUnit(Value(s[..UnitLength(s)]), Repair(s[UnitLength(s)..], r));
    }
  }

  // A replacement byte in front of a repaired string is acceptable only when it is ASCII.
  lemma BadReplacement(s: seq<Byte>, r: Byte)
    requires r >= 0x80
    ensures !WellFormed([r] + Text(Repair(s, r)))
  {
    var t := [r] + Text(Repair(s, r));
    assert t[1..] == Text(Repair(s, r));
    if !Cont(r) { RepairStart(s, r); }
    assert UnitLength(t) == 0;
    AcceptedIffWellFormed(t);
  }

  /**
   * The repaired string is well formed exactly when the replacement byte is ASCII or the string
   * needed none: the caller only has to pass a replacement from 0 to 0x7F.
   */
  lemma {:induction false} RepairedIffAscii(s: seq<Byte>, r: Byte)
    ensures WellFormed(Text(Repair(s, r))) <==> r < 0x80 || !Damaged(s)
    decreases |s|
  {
    hide WellFormed, Shortest;
    if s == [] {
      EmptyWellFormed();
    } else {
      var n := UnitLength(s);
      if n == 0 {
        RepairedIffAscii(s[1..], r);
        TextAppend([r], Repair(s[1..], r));
        if r >= 0x80 {
          BadReplacement(s[1..], r);
        } else if r == 0 {
          EmptyWellFormed();
        } else {
          AsciiFront(r, Text(Repair(s[1..], r)));
        }
      } else {
        var v := Value(s[..n]);
        RepairedIffAscii(s[n..], r);
        TextAppend(Shortest(v), Repair(s[n..], r));
        if v == 0 {
          ZeroIsNul();
          EmptyWellFormed();
        } else {
          ShortestNulFree(v);
          PutFront(v, Text(Repair(s[n..], r)));
        }
      }
    }
  }

  lemma EmptyWellFormed()
    ensures WellFormed([])
  {
    assert Codepoints([]) && EncodeAll([]) == [];
  }

  lemma ZeroIsNul()
    ensures Shortest(0) == [0]
  {
  }

  lemma AsciiFront(r: Byte, s: seq<Byte>)
    requires 1 <= r < 0x80 && NulFree(s)
    ensures WellFormed([r] + s) <==> WellFormed(s)
  {
    assert Shortest(r) == [r];
    PutFront(r, s);
  }

  // A well-formed string is left as it is.
  lemma {:induction false} RepairKeeps(s: seq<Byte>, r: Byte)
    requires NulFree(s) && ValidPrefix(s) == |s|
    ensures Repair(s, r) == s && !Damaged(s)
    decreases |s|
  {
    hide Shortest, Value, GoodFront;
    if s != [] {
      var n := UnitLength(s);
      FrontValue(s);
      RepairKeeps(s[n..], r);
    }
  }

  /**
   * With an ASCII replacement the repair changes nothing but what is not well formed, and running
   * it again, with whatever replacement, changes nothing more.
   */
  lemma RepairUnchangedIffWellFormed(s: seq<Byte>, r: Byte, again: Byte)
    requires NulFree(s) && r < 0x80
    ensures Text(Repair(s, r)) == s <==> WellFormed(s)
    ensures
      var t := Text(Repair(s, r));
      Repair(t, again) == t
  {
    hide WellFormed, Shortest;
    var t := Text(Repair(s, r));
    RepairedIffAscii(s, r);
    AcceptedIffWellFormed(s);
    AcceptedIffWellFormed(t);
    RepairKeeps(t, again);
    TextUnique(s, s);
    if WellFormed(s) { RepairKeeps(s, r); }
  }

  // A negative replacement passes the test of its upper bound: -1 writes 0xFF for a stray byte.
  lemma NegativeReplacement()
    ensures -1 <= 0x7F && (-1) % 256 == 0xFF && !WellFormed(Text(Repair([0x80], 0xFF)))
  {
    assert Damaged([0x80]);
    RepairedIffAscii([0x80], 0xFF);
  }

  /**
   * Repair, sequence by sequence: a shortest encoding is kept, an overlong one is shortened, and one
   * replacement stands for each byte that is no lead, or a lead without its following bytes.
   */
  lemma RepairCases(s: seq<Byte>, r: Byte, b: Byte)
    ensures forall chr | 0 <= chr < 0x200000 :: Repair(Shortest(chr) + s, r) == Shortest(chr) + Repair(s, r)
    ensures Repair([0xC1, 0x81] + s, r) == [0x41] + Repair(s, r) && Repair([0xE0, 0x82, 0xA9] + s, r) == [0xC2, 0xA9] + Repair(s, r)
    ensures (0x80 <= b < 0xC0 || 0xF8 <= b) || (b >= 0xC0 && (s == [] || !(0x80 <= s[0] < 0xC0))) ==>
      Repair([b] + s, r) == [r] + Repair(s, r)
  {
    hide Repair, Shortest, Value, UnitLength, Overlong;
    forall chr | 0 <= chr < 0x200000 ensures Repair(Shortest(chr) + s, r) == Shortest(chr) + Repair(s, r) {
      ShortestIsUnit(chr, s);
      RepairUnit(Shortest(chr) + s, r);
    }
    ShortenExamples(s);
    RepairUnit([0xC1, 0x81] + s, r);
    RepairUnit([0xE0, 0x82, 0xA9] + s, r);
    assert ([b] + s)[1..] == s;
    RepairByte([b] + s, r);
  }

  lemma RepairByte(s: seq<Byte>, r: Byte)
    requires s != []
    ensures var b := s[0];
      (0x80 <= b < 0xC0 || 0xF8 <= b) || (b >= 0xC0 && (|s| == 1 || !(0x80 <= s[1] < 0xC0))) ==> Repair(s, r) == [r] + Repair(s[1..], r)
  {
  }

  lemma ShortenExamples(s: seq<Byte>)
    ensures var t := [0xC1, 0x81] + s;
      UnitLength(t) == 2 && t[2..] == s && Shortest(Value(t[..2])) == [0x41]
    ensures var t := [0xE0, 0x82, 0xA9] + s;
      UnitLength(t) == 3 && t[3..] == s && Shortest(Value(t[..3])) == [0xC2, 0xA9]
  {
    hide Shortest, Value, UnitLength;
    KnownEncodings();
    var two, three := [0xC1, 0x81], [0xE0, 0x82, 0xA9];
    assert (two + s)[..2] == two && (two + s)[2..] == s;
    assert (three + s)[..3] == three && (three + s)[3..] == s;
    ShortenTwo(two + s);
    ShortenThree(three + s);
  }

  lemma ShortenTwo(t: seq<Byte>)
    requires |t| >= 2 && t[..2] == [0xC1, 0x81]
    ensures UnitLength(t) == 2 && Value(t[..2]) == 0x41
  {
    assert t[0] == t[..2][0] && t[1] == t[..2][1];
  }

  lemma ShortenThree(t: seq<Byte>)
    requires |t| >= 3 && t[..3] == [0xE0, 0x82, 0xA9]
    ensures UnitLength(t) == 3 && Value(t[..3]) == 0xA9
  {
    assert t[0] == t[..3][0] && t[1] == t[..3][1] && t[2] == t[..3][2];
  }

  // An overlong encoding of zero ends the repaired string where it stood.
  lemma OverlongZeroTruncates(s: seq<Byte>, r: Byte)
    ensures Text(Repair([0xC0, 0x80] + s, r)) == []
  {
    hide Shortest, Text, Repair;
    var t := [0xC0, 0x80] + s;
    assert UnitLength(t) == 2 && t[..2] == [0xC0, 0x80] && t[2..] == s;
    assert Value(t[..2]) == 0;
    RepairUnit(t, r);
    ZeroIsNul();
    TextAppend([], Repair(s, r));
  }

  // One code point of each length, byte by byte, and the first code points of each length.
  lemma KnownEncodings()
    ensures Shortest(0x41) == [0x41] && Shortest(0xE9) == [0xC3, 0xA9] && Shortest(0x20AC) == [0xE2, 0x82, 0xAC]
    ensures Shortest(0xA9) == [0xC2, 0xA9] && Shortest(0x1F600) == [0xF0, 0x9F, 0x98, 0x80]
    ensures Shortest(0x7F) == [0x7F] && Shortest(0x80) == [0xC2, 0x80] && Shortest(0x800) == [0xE0, 0xA0, 0x80]
    ensures Shortest(0x1_0000) == [0xF0, 0x90, 0x80, 0x80]
  {
  }

  // ----- The program

  // A C string of the given length at the start of the array.
  ghost predicate Holds(a: array<Byte>, at: nat, end: nat) reads a {
    at <= end < a.Length && a[end] == 0 && NulFree(a[at..end])
  }

  // utf8codepoint.  A byte that is neither ASCII nor a lead is read as a negative char.
  method CodepointAt(a: array<Byte>, at: nat) returns (next: nat, chr: int)
    requires at < a.Length && at + LeadLength(a[at]) <= a.Length
    ensures next == at + LeadLength(a[at]) && chr == if Stray(a[at]) then a[at] - 256 else Value(a[at..next])
  {
    if 0xF0 <= a[at] < 0xF8 {
      chr := Join4(a[at], a[at + 1], a[at + 2], a[at + 3]);
      next := at + 4;
    } else if 0xE0 <= a[at] < 0xF0 {
      chr := Join3(a[at], a[at + 1], a[at + 2]);
      next := at + 3;
    } else if 0xC0 <= a[at] < 0xE0 {
      chr := Join2(a[at], a[at + 1]);
      next := at + 2;
    } else {
      var byte: int := a[at];
      chr := if byte < 0x80 then byte else byte - 256;
      next := at + 1;
    }
  }

  // The array with the bytes u at position at.
  function Patch(s: seq<Byte>, at: nat, u: seq<Byte>): seq<Byte>
    requires at + |u| <= |s|
  {
    s[..at] + u + s[at + |u|..]
  }

  lemma PatchUpdates(s: seq<Byte>, at: nat, u: seq<Byte>)
    requires at + |u| <= |s| && 1 <= |u| <= 4
    ensures |u| == 1 ==> Patch(s, at, u) == s[at := u[0]]
    ensures |u| == 2 ==> Patch(s, at, u) == s[at := u[0]][at + 1 := u[1]]
    ensures |u| == 3 ==> Patch(s, at, u) == s[at := u[0]][at + 1 := u[1]][at + 2 := u[2]]
    ensures |u| == 4 ==> Patch(s, at, u) == s[at := u[0]][at + 1 := u[1]][at + 2 := u[2]][at + 3 := u[3]]
  {
  }

  method CatCodepoint(a: array<Byte>, at: nat, chr: int, n: nat) returns (next: Option<nat>)
    requires at + n <= a.Length
    modifies a
    ensures next == if n < Size(chr) then None else Some(at + Size(chr))
    ensures a[..] == if n < Size(chr) then old(a[..]) else Patch(old(a[..]), at, Shortest(chr))
  {
    if n >= Size(chr) { PatchUpdates(a[..], at, Shortest(chr)); }
    if 0 <= chr < 0x80 {
      if n < 1 { return None; }
      a[at] := chr;
      return Some(at + 1);
    } else if 0 <= chr < 0x800 {
      if n < 2 { return None; }
      a[at] := 0xC0 + chr / 64 % 32;
      a[at + 1] := 0x80 + chr % 64;
      return Some(at + 2);
    } else if 0 <= chr < 0x10000 {
      if n < 3 { return None; }
      a[at] := 0xE0 + chr / 0x1000 % 16;
      a[at + 1] := 0x80 + chr / 64 % 64;
      a[at + 2] := 0x80 + chr % 64;
      return Some(at + 3);
    } else {
      if n < 4 { return None; }
      a[at] := 0xF0 + chr / 0x40000 % 8;
      a[at + 1] := 0x80 + chr / 0x1000 % 64;
      a[at + 2] := 0x80 + chr / 64 % 64;
      a[at + 3] := 0x80 + chr % 64;
      return Some(at + 4);
    }
  }

  // The length of the complete sequence at a position; no byte after the NUL is looked at.
  method UnitAt(a: array<Byte>, at: nat, ghost end: nat) returns (n: nat)
    requires at < end && Holds(a, at, end)
    ensures n == UnitLength(a[at..end])
  {
    if 0xF0 <= a[at] < 0xF8 {
      n := if Cont(a[at + 1]) && Cont(a[at + 2]) && Cont(a[at + 3]) then 4 else 0;
    } else if 0xE0 <= a[at] < 0xF0 {
      n := if Cont(a[at + 1]) && Cont(a[at + 2]) then 3 else 0;
    } else if 0xC0 <= a[at] < 0xE0 {
      n := if Cont(a[at + 1]) then 2 else 0;
    } else {
      n := if a[at] < 0x80 then 1 else 0;
    }
  }

  // Between two rounds of the repair: s is the original string, `now` the memory, and everything
  // from the write position on is still as it was.
  ghost predicate Progress(now: seq<Byte>, before: seq<Byte>, s: seq<Byte>, r: Byte, write: nat, read: nat) {
    && write <= read <= |s| < |before| == |now| && s == before[..|s|] && before[|s|] == 0 && NulFree(s)
    && now[write..] == before[write..] && now[..write] + Repair(s[read..], r) == Repair(s, r)
  }

  lemma ProgressStart(before: seq<Byte>, s: seq<Byte>, r: Byte)
    requires |s| < |before| && s == before[..|s|] && before[|s|] == 0 && NulFree(s)
    ensures Progress(before, before, s, r, 0, 0)
  {
    hide Repair;
    assert s[0..] == s && before[..0] == [];
  }

  lemma ProgressReads(now: seq<Byte>, before: seq<Byte>, s: seq<Byte>, r: Byte, write: nat, read: nat)
    requires Progress(now, before, s, r, write, read)
    ensures write <= read <= |s| < |now| == |before|
    ensures now[read..|s|] == s[read..] && now[|s|] == 0 && NulFree(s[read..])
    ensures now[read] == 0 <==> read == |s|
  {
    hide Repair;
    assert now[|s|] == now[write..][|s| - write] == before[write..][|s| - write];
    forall i | read <= i < |s| ensures now[i] == s[i] {
      assert now[i] == now[write..][i - write] == before[write..][i - write];
    }
    if read < |s| { assert s[read] in s; }
  }

  lemma ProgressStep(now: seq<Byte>, before: seq<Byte>, s: seq<Byte>, r: Byte, write: nat, read: nat, u: seq<Byte>, n: nat)
    requires Progress(now, before, s, r, write, read) && |u| <= n && read + n <= |s|
    requires Repair(s[read..], r) == u + Repair(s[read + n..], r)
    ensures Progress(Patch(now, write, u), before, s, r, write + |u|, read + n)
  {
    hide Repair;
    var after := Patch(now, write, u);
    assert after[..write + |u|] == now[..write] + u;
    assert after[write + |u|..] == now[write + |u|..] == now[write..][|u|..];
    assert before[write + |u|..] == before[write..][|u|..];
  }

  lemma RepairEmpty(r: Byte)
    ensures Repair([], r) == []
  {
  }

  lemma ProgressEnd(now: seq<Byte>, before: seq<Byte>, s: seq<Byte>, r: Byte, write: nat)
    requires Progress(now, before, s, r, write, |s|)
    ensures |Repair(s, r)| == write && now[write := 0] == Patch(before, 0, Repair(s, r) + [0])
  {
    hide Repair;
    assert s[|s|..] == [];
    RepairEmpty(r);
    assert now[..write] == Repair(s, r);
    assert now[write + 1..] == now[write..][1..];
    assert before[write + 1..] == before[write..][1..];
  }

  // What one round appends and how far it reads.
  lemma RepairNext(s: seq<Byte>, r: Byte)
    requires s != []
    ensures
      var n := UnitLength(s);
      if n == 0 then Repair(s, r) == [r] + Repair(s[1..], r)
      else
        var u := Shortest(Value(s[..n]));
        Repair(s, r) == u + Repair(s[n..], r) && |u| <= n
  {
    if UnitLength(s) > 0 { UnitValue(s); }
  }

  lemma PatchFront(s: seq<Byte>, t: seq<Byte>)
    requires |t| < |s|
    ensures Patch(s, 0, t + [0]) == t + ([0] + s[|t| + 1..])
  {
    var u := t + [0];
    assert s[..0] == [] && |u| == |t| + 1;
    assert Patch(s, 0, u) == u + s[|u|..];
  }

  lemma TextInMemory(s: seq<Byte>, t: seq<Byte>)
    requires |t| < |s|
    ensures Text(Patch(s, 0, t + [0])) == Text(t)
  {
    hide Text, Patch;
    PatchFront(s, t);
    TextCut(t, s[|t| + 1..]);
  }

  lemma {:induction false} TextCut(t: seq<Byte>, s: seq<Byte>)
    ensures Text(t + ([0] + s)) == Text(t)
  {
    if t == [] {
      assert t + ([0] + s) == [0] + s;
    } else {
      assert (t + ([0] + s))[1..] == t[1..] + ([0] + s);
      TextCut(t[1..], s);
    }
  }

  // The bytes of a sequence, in memory and in the string.
  lemma UnitBytes(now: seq<Byte>, s: seq<Byte>, read: nat, n: nat)
    requires read + n <= |s| < |now| && now[read..|s|] == s[read..]
    ensures now[read..read + n] == s[read..][..n] && s[read..][n..] == s[read + n..]
    ensures n > 0 && n == UnitLength(s[read..]) ==> !Stray(now[read])
  {
    assert n > 0 ==> now[read] == s[read..][0];
    assert now[read..read + n] == now[read..|s|][..n];
  }

  // One round of the repair: a byte replaced, or a sequence read whole and then written back.
  method RepairRound(a: array<Byte>, r: Byte, ghost before: seq<Byte>, ghost s: seq<Byte>, write: nat, read: nat)
    returns (read': nat, write': nat)
    requires Progress(a[..], before, s, r, write, read) && read < |s|
    modifies a
    ensures read < read' <= |s| && Progress(a[..], before, s, r, write', read')
  {
    hide Repair, Progress, UnitLength, Value, Shortest, LeadLength, Size, Patch;
    ghost var now, end := a[..], |s|;
    ProgressReads(now, before, s, r, write, read);
    assert a[read..end] == s[read..];
    var n := UnitAt(a, read, end);
    RepairNext(s[read..], r);
    if n == 0 {
      assert s[read..][1..] == s[read + 1..];
      ProgressStep(now, before, s, r, write, read, [r], 1);
      PatchUpdates(now, write, [r]);
      a[write] := r;
      assert a[..] == now[write := r];
      return read + 1, write + 1;
    } else {
      var next, chr := CodepointAt(a, read);
      UnitBytes(now, s, read, n);
      assert next == read + n && a[read..next] == now[read..read + n];
      ProgressStep(now, before, s, r, write, read, Shortest(chr), n);
      var to := CatCodepoint(a, write, chr, n);
      return next, to.value;
    }
  }

  /**
   * Repair in place.  Read and write positions move over the same array; the bytes still to be
   * read are untouched because a sequence is never written longer than it was read.
   */
  method MakeValid(a: array<Byte>, replacement: int, ghost end: nat) returns (status: int)
    requires Holds(a, 0, end)
    modifies a
    ensures status == if replacement > 0x7F then -1 else 0
    ensures
      var t := Repair(old(a[..end]), replacement % 256);
      && |t| <= end
      && a[..] == if replacement > 0x7F then old(a[..]) else Patch(old(a[..]), 0, t + [0])
    ensures replacement <= 0x7F ==>
      && |Text(a[..])| <= end
      && (WellFormed(Text(a[..])) <==> replacement % 256 < 0x80 || !Damaged(old(a[..end])))
  {
    hide Repair, Progress, UnitLength, Value, Shortest, LeadLength, Size, Text, WellFormed, Damaged;
    ghost var s, before := a[..end], a[..];
    var r: Byte := replacement % 256;
    RepairNotLonger(s, r);
    if replacement > 0x7F { return -1; }
    var read: nat, write: nat := 0, 0;
    ProgressStart(before, s, r);
    ProgressReads(before, before, s, r, 0, 0);
    while a[read] != 0
      invariant Progress(a[..], before, s, r, write, read) && read <= end
      invariant a[read] == 0 <==> read == end
      decreases end - read
    {
      read, write := RepairRound(a, r, before, s, write, read);
      ProgressReads(a[..], before, s, r, write, read);
    }
    ghost var now := a[..];
    ProgressReads(now, before, s, r, write, read);
    ProgressEnd(now, before, s, r, write);
    a[write] := 0;
    assert a[..] == now[write := 0];
    TextInMemory(before, Repair(s, r));
    RepairedIffAscii(s, r);
    return 0;
  }

  // The part of the array utf8nvalid looks at: up to n bytes, or to the first NUL.
  ghost predicate Covers(a: array<Byte>, n: nat, end: nat) reads a {
    end <= n && end <= a.Length && NulFree(a[..end]) && (end < n ==> end < a.Length && a[end] == 0)
  }

  // One round of the validator, with its bound on the bytes that remain.
  method FrontAt(a: array<Byte>, at: nat, remaining: nat, ghost end: nat) returns (k: nat)
    requires Covers(a, at + remaining, end) && at < end
    ensures k == 0 <==> !GoodFront(a[at..end])
    ensures k > 0 ==> k == UnitLength(a[at..end])
  {
    ghost var s := a[at..end];
    assert end < a.Length && end < at + remaining ==> a[end] == 0;
    if 0xF0 <= a[at] < 0xF8 {
      if remaining < 4 || !Cont(a[at + 1]) || !Cont(a[at + 2]) || !Cont(a[at + 3]) { return 0; }
      if remaining != 4 && Cont(a[at + 4]) { return 0; }
      if a[at] == 0xF0 && a[at + 1] < 0x90 { return 0; }
      return 4;
    } else if 0xE0 <= a[at] < 0xF0 {
      if remaining < 3 || !Cont(a[at + 1]) || !Cont(a[at + 2]) { return 0; }
      if remaining != 3 && Cont(a[at + 3]) { return 0; }
      if a[at] == 0xE0 && a[at + 1] < 0xA0 { return 0; }
      return 3;
    } else if 0xC0 <= a[at] < 0xE0 {
      if remaining < 2 || !Cont(a[at + 1]) { return 0; }
      if remaining != 2 && Cont(a[at + 2]) { return 0; }
      if a[at] < 0xC2 { return 0; }
      return 2;
    } else {
      return if a[at] < 0x80 then 1 else 0;
    }
  }

  /**
   * None when the string is well formed; otherwise the place of the first sequence that is not
   * acceptable.  Everything before that place is well formed.
   */
  method NValid(a: array<Byte>, n: nat, ghost end: nat) returns (bad: Option<nat>)
    requires Covers(a, n, end)
    ensures bad.None? <==> WellFormed(a[..end])
    ensures bad.Some? ==> bad.value < end && WellFormed(a[..bad.value]) && !GoodFront(a[bad.value..end])
  {
    hide WellFormed, GoodFront, UnitLength, ValidPrefix, NulFree;
    ghost var s := a[..end];
    AcceptedIffWellFormed(s);
    PrefixAccepted(s);
    var at := 0;
    assert s[0..] == s;
    while at < n && a[at] != 0
      invariant at <= end && ValidPrefix(s) == at + ValidPrefix(s[at..])
    {
      assert at < end && a[at..end] == s[at..];
      var remaining := n - at;
      var k := FrontAt(a, at, remaining, end);
      PrefixStep(s, at, k);
      if k == 0 {
        assert a[..at] == s[..at];
        return Some(at);
      }
      at := at + k;
    }
    assert at == end by { StopsAtEnd(a, n, end, at); }
    PrefixEnd(s);
    return None;
  }

  // One round of the validator's loop, on the string.
  lemma PrefixStep(s: seq<Byte>, at: nat, k: nat)
    requires at < |s| && (k == 0 <==> !GoodFront(s[at..])) && (k > 0 ==> k == UnitLength(s[at..]))
    ensures k == 0 ==> ValidPrefix(s[at..]) == 0
    ensures k > 0 ==> at + k <= |s| && ValidPrefix(s[at..]) == k + ValidPrefix(s[at + k..])
  {
    hide GoodFront, UnitLength;
    if k > 0 { assert s[at..][k..] == s[at + k..]; }
  }

  lemma PrefixEnd(s: seq<Byte>)
    ensures ValidPrefix(s[|s|..]) == 0
  {
    assert s[|s|..] == [];
  }

  lemma StopsAtEnd(a: array<Byte>, n: nat, end: nat, at: nat)
    requires Covers(a, n, end) && at <= end && (at < n ==> at < a.Length && a[at] == 0)
    ensures at == end
  {
    hide NulFree;
    if at < end { NotNul(a[..end], at); }
  }

  lemma NotNul(s: seq<Byte>, i: nat)
    requires NulFree(s) && i < |s|
    ensures s[i] != 0
  {
  }
}
