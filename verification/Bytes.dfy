// Bytes, little-endian integers and C strings.
module Bytes {
  import opened Arithmetic

  type Byte = b: int | 0 <= b < 256

  // ----- Little-endian integers

  function LeBytes(v: nat, n: nat): (bs: seq<Byte>)
    ensures |bs| == n
  {
    if n == 0 then [] else [v % 256] + LeBytes(v / 256, n - 1)
  }

  function LeValue(bs: seq<Byte>): nat {
    if bs == [] then 0 else bs[0] + 256 * LeValue(bs[1..])
  }

  function Pow256(n: nat): (p: nat)
    ensures p >= 1
  {
    if n == 0 then 1 else 256 * Pow256(n - 1)
  }

  lemma {:induction false} LeRoundTrip(v: nat, n: nat)
    ensures LeValue(LeBytes(v, n)) == v % Pow256(n)
    decreases n
  {
    if n > 0 {
      LeRoundTrip(v / 256, n - 1);
      assert LeBytes(v, n)[1..] == LeBytes(v / 256, n - 1);
      TwoDigits(v, 256, Pow256(n - 1));
    }
  }

  lemma {:induction false} LeBound(bs: seq<Byte>)
    ensures LeValue(bs) < Pow256(|bs|)
  {
    if bs != [] { LeBound(bs[1..]); }
  }

  lemma Widths()
    ensures Pow256(4) == 0x1_0000_0000 && Pow256(8) == 0x1_0000_0000_0000_0000
  {
    assert Pow256(2) == 0x1_0000;
    assert Pow256(4) == 0x1_0000_0000;
    assert Pow256(6) == 0x1_0000_0000_0000;
  }

  // Two's complement: the upper half of the range stands for the negative numbers.
  function Signed(v: nat, half: nat): int { if v < half then v else v - 2 * half }

  // le_write32 and le_write64
  method LeWrite(v: nat, n: nat) returns (bs: seq<Byte>)
    ensures bs == LeBytes(v, n)
  {
    bs := [];
    var rest := v;
    for i := 0 to n
      invariant LeBytes(v, n) == bs + LeBytes(rest, n - i)
    {
      bs := bs + [rest % 256];
      rest := rest / 256;
    }
  }

  // le_read32 and le_read64: from the last byte to the first
  method LeRead(bs: seq<Byte>) returns (v: nat)
    ensures v == LeValue(bs)
  {
    v := 0;
    for i := |bs| downto 0
      invariant v == LeValue(bs[i..])
    {
      v := v * 256 + bs[i];
      assert bs[i..][1..] == bs[i + 1..];
    }
    assert bs[0..] == bs;
  }

  // ----- C strings

  predicate NulFree(s: seq<Byte>) { 0 !in s }

  // The bytes before the first NUL.
  function Text(s: seq<Byte>): (t: seq<Byte>)
    ensures t <= s && NulFree(t) && (|t| < |s| ==> s[|t|] == 0)
  {
    if s == [] || s[0] == 0 then [] else [s[0]] + Text(s[1..])
  }

  lemma TextNext(s: seq<Byte>)
    ensures s == [] || s[0] == 0 ==> Text(s) == []
    ensures s != [] && s[0] != 0 ==> Text(s) == [s[0]] + Text(s[1..])
  {
  }

  lemma {:induction false} TextUnique(s: seq<Byte>, t: seq<Byte>)
    requires t <= s && NulFree(t) && (t == s || s[|t|] == 0)
    ensures Text(s) == t
  {
    if t != [] {
      assert s[0] in t;
      assert t == [s[0]] + t[1..];
      TextUnique(s[1..], t[1..]);
    }
  }
}
