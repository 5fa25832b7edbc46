/**
 The wire format of registry/reg_ipc.c: what a message looks like in a pipe.

 A value is a type byte, eight bytes of integer, eight bytes of float, a counted string and a
 counted list of elements, each encoded the same way.  `Encode` and `Decode` are the format;
 class `Pipe` and the two methods on it are the program.
 */
module Wire {
  import opened Bytes
  import opened Wrappers

  type Int64 = i: int | -0x8000_0000_0000_0000 <= i < 0x8000_0000_0000_0000

  // ----- Values

  // A float is its eight bytes; strings are C strings, so they hold no zero byte.
  datatype Value =
    | Nil
    | Int(i: Int64)
    | Float(bits: seq<Byte>)
    | Str(s: seq<Byte>)
    | Arr(elems: seq<Value>)
    | Fn(idx: Int64, entry: nat)     // a built-in holds the address of its code, other functions 0
    | Err(code: int, msg: seq<Byte>)
    | Bool(b: bool)
    | Ref(s: seq<Byte>)
    | Ptr(s: seq<Byte>)

  const SLASH: seq<Byte> := [47]
  const ZERO8: seq<Byte> := [0, 0, 0, 0, 0, 0, 0, 0]

  predicate IsCString(s: seq<Byte>) { |s| < 0x1_0000_0000 && NulFree(s) }

  // What the runtime's constructors build, with every length below 2^32.
  predicate WellFormed(v: Value) {
    match v
    case Float(bits) => |bits| == 8
    case Str(s) => IsCString(s)
    case Arr(elems) => |elems| < 0x1_0000_0000 && forall e <- elems :: WellFormed(e)
    case Err(_, msg) => IsCString(msg)
    case Ref(s) => IsCString(s)
    case Ptr(s) => IsCString(s)
    case _ => true
  }

  function Tag(v: Value): Byte {
    match v
    case Nil => 0 case Int(_) => 1 case Float(_) => 2 case Str(_) => 3 case Arr(_) => 4
    case Fn(_, _) => 5 case Err(_, _) => 6 case Bool(_) => 7 case Ref(_) => 8 case Ptr(_) => 9
  }

  // The ival field, as an unsigned 64-bit number.  An error keeps its code elsewhere, so 0 is written.
  function IvalOf(v: Value): nat {
    match v
    case Int(i) => Unsigned(i)
    case Fn(i, _) => Unsigned(i)
    case Bool(b) => if b then 1 else 0
    case _ => 0
  }

  function Unsigned(i: Int64): nat { if i >= 0 then i else i + 0x1_0000_0000_0000_0000 }

  function StrOf(v: Value): seq<Byte> {
    match v
    case Str(s) => s
    case Ref(s) => s
    case Ptr(s) => s
    case Err(_, msg) => msg
    case _ => []
  }

  function ElemsOf(v: Value): seq<Value> {
    if v.Arr? then v.elems else []
  }

  function FloatOf(v: Value): seq<Byte> {
    if v.Float? then v.bits else ZERO8
  }

  // ----- The format

  function Header(v: Value): seq<Byte> {
    [Tag(v)] + LeBytes(IvalOf(v), 8) + FloatOf(v)
    + LeBytes(|StrOf(v)|, 4) + StrOf(v) + LeBytes(|ElemsOf(v)|, 4)
  }

  function Encode(v: Value): seq<Byte>
    decreases v, 1
  {
    Header(v) + if v.Arr? then EncodeAll(v.elems) else []
  }

  function EncodeAll(vs: seq<Value>): seq<Byte>
    decreases vs, 0
  {
    if vs == [] then [] else Encode(vs[0]) + EncodeAll(vs[1..])
  }

  // Five values byte by byte: type, integer, float, length and bytes of the string, number of elements, elements.
  lemma WireBytes()
    ensures Encode(Int(258)) == [1] + [2, 1, 0, 0, 0, 0, 0, 0] + ZERO8 + [0, 0, 0, 0] + [] + [0, 0, 0, 0] + []
    ensures Encode(Str([104, 105])) == [3] + ZERO8 + ZERO8 + [2, 0, 0, 0] + [104, 105] + [0, 0, 0, 0] + []
    ensures Encode(Bool(true)) == [7] + [1, 0, 0, 0, 0, 0, 0, 0] + ZERO8 + [0, 0, 0, 0] + [] + [0, 0, 0, 0] + []
    ensures Encode(Err(5, [104, 105])) == [6] + ZERO8 + ZERO8 + [2, 0, 0, 0] + [104, 105] + [0, 0, 0, 0] + []
    ensures Encode(Arr([Nil])) == [4] + ZERO8 + ZERO8 + [0, 0, 0, 0] + [] + [1, 0, 0, 0] + ([0] + ZERO8 + ZERO8 + [0, 0, 0, 0] + [] + [0, 0, 0, 0] + [])
  {
    hide LeBytes;
    SmallNumbers();
    assert [Nil][1..] == [];
    assert Encode(Nil) == [0] + ZERO8 + ZERO8 + [0, 0, 0, 0] + [] + [0, 0, 0, 0] + [];
    assert EncodeAll([Nil]) == Encode(Nil) + [];
  }

  lemma NegativeBytes()
    ensures Encode(Int(-2)) == [1] + [0xFE, 0xFF, 0xFF, 0xFF, 0xFF, 0xFF, 0xFF, 0xFF] + ZERO8 + [0, 0, 0, 0] + [] + [0, 0, 0, 0] + []
  {
    hide LeBytes;
    SmallNumbers();
    assert IvalOf(Int(-2)) == 0xFFFF_FFFF_FFFF_FFFE;
    AllOnes();
  }

  lemma AllOnes()
    ensures LeBytes(0xFFFF_FFFF_FFFF_FFFE, 8) == [0xFE, 0xFF, 0xFF, 0xFF, 0xFF, 0xFF, 0xFF, 0xFF]
  {
    assert LeBytes(0xFF, 1) == [0xFF];
    assert LeBytes(0xFFFF, 2) == [0xFF, 0xFF];
    assert LeBytes(0xFF_FFFF, 3) == [0xFF, 0xFF, 0xFF];
    assert LeBytes(0xFFFF_FFFF, 4) == [0xFF, 0xFF, 0xFF, 0xFF];
    assert LeBytes(0xFF_FFFF_FFFF, 5) == [0xFF, 0xFF, 0xFF, 0xFF, 0xFF];
    assert LeBytes(0xFFFF_FFFF_FFFF, 6) == [0xFF, 0xFF, 0xFF, 0xFF, 0xFF, 0xFF];
    assert LeBytes(0xFF_FFFF_FFFF_FFFF, 7) == [0xFF, 0xFF, 0xFF, 0xFF, 0xFF, 0xFF, 0xFF];
  }

  // The type byte of every kind of value.
  lemma TypeByte(v: Value)
    ensures Encode(v) != [] && Encode(v)[0] ==
      if v.Nil? then 0 else if v.Int? then 1 else if v.Float? then 2 else if v.Str? then 3 else if v.Arr? then 4
      else if v.Fn? then 5 else if v.Err? then 6 else if v.Bool? then 7 else if v.Ref? then 8 else 9
  {
    hide LeBytes;
  }

  lemma SmallNumbers()
    ensures LeBytes(0, 8) == ZERO8 && LeBytes(1, 8) == [1, 0, 0, 0, 0, 0, 0, 0] && LeBytes(258, 8) == [2, 1, 0, 0, 0, 0, 0, 0]
    ensures LeBytes(0, 4) == [0, 0, 0, 0] && LeBytes(1, 4) == [1, 0, 0, 0] && LeBytes(2, 4) == [2, 0, 0, 0]
  {
    assert LeBytes(0, 2) == [0, 0];
    assert LeBytes(0, 3) == [0, 0, 0];
    assert LeBytes(0, 4) == [0, 0, 0, 0];
    assert LeBytes(0, 5) == [0, 0, 0, 0, 0];
    assert LeBytes(0, 6) == [0, 0, 0, 0, 0, 0];
    assert LeBytes(0, 7) == [0, 0, 0, 0, 0, 0, 0];
    assert LeBytes(1, 7) == [1, 0, 0, 0, 0, 0, 0];
  }

  const READ_ERROR := Err(99, [])

  // The first n bytes and what follows; a short read consumes everything.
  function Split(bs: seq<Byte>, n: nat): (r: (bool, seq<Byte>, seq<Byte>))
    ensures r.0 ==> |r.1| == n && |r.1| + |r.2| == |bs|
    ensures !r.0 ==> |r.2| == 0
  {
    if n <= |bs| then (true, bs[..n], bs[n..]) else (false, [], [])
  }

  // The fields in front of the elements of a value.
  datatype Head = Head(tag: Byte, ival: nat, fval: seq<Byte>, s: seq<Byte>, count: nat)

  // The value that the fields and the elements stand for.
  function Build(h: Head, elems: seq<Value>): Value
    requires h.ival < 0x1_0000_0000_0000_0000
  {
    if h.tag == 0 then Nil
    else if h.tag == 1 then Int(Signed(h.ival, 0x8000_0000_0000_0000))
    else if h.tag == 2 then Float(h.fval)
    else if h.tag == 3 then Str(Text(h.s))
    else if h.tag == 4 then Arr(elems)
    else if h.tag == 5 then Fn(Signed(h.ival, 0x8000_0000_0000_0000), 0)
    else if h.tag == 6 then Err(Signed(h.ival % 0x1_0000_0000, 0x8000_0000), Text(h.s))
    else if h.tag == 7 then Bool(h.ival % 0x1_0000_0000 != 0)
    else if h.tag == 8 then Ref(if h.s == [] then SLASH else Text(h.s))
    else if h.tag == 9 then Ptr(if h.s == [] then SLASH else Text(h.s))
    else READ_ERROR
  }

  function DecodeHead(bs: seq<Byte>): (r: (Option<Head>, seq<Byte>))
    ensures r.0.Some? ==> |r.1| < |bs| && r.0.value.ival < 0x1_0000_0000_0000_0000
    ensures |r.1| <= |bs|
  {
    var (ok1, tag, bs1) := Split(bs, 1);
    if !ok1 then (None, bs1) else
    var (ok2, ibuf, bs2) := Split(bs1, 8);
    if !ok2 then (None, bs2) else
    var (ok3, fbuf, bs3) := Split(bs2, 8);
    if !ok3 then (None, bs3) else
    var (ok4, slbuf, bs4) := Split(bs3, 4);
    if !ok4 then (None, bs4) else
    var (ok5, s, bs5) := Split(bs4, LeValue(slbuf));
    if !ok5 then (None, bs5) else
    var (ok6, albuf, bs6) := Split(bs5, 4);
    if !ok6 then (None, bs6) else
    assert LeValue(ibuf) < 0x1_0000_0000_0000_0000 by { LeBound(ibuf); Widths(); }
    (Some(Head(tag[0], LeValue(ibuf), fbuf, s, LeValue(albuf))), bs6)
  }

  function Decode(bs: seq<Byte>): (r: (Value, seq<Byte>))
    ensures |r.1| <= |bs|
    decreases |bs|, 0
  {
    var (head, bs') := DecodeHead(bs);
    if head.None? then (READ_ERROR, bs')
    else if head.value.tag == 4 then
      var (elems, bs'') := DecodeMany(bs', head.value.count);
      (Build(head.value, elems), bs'')
    else (Build(head.value, []), bs')
  }

  function DecodeMany(bs: seq<Byte>, n: nat): (r: (seq<Value>, seq<Byte>))
    ensures |r.1| <= |bs|
    decreases |bs|, n + 1
  {
    if n == 0 then ([], bs) else
    var (v, bs1) := Decode(bs);
    var (vs, bs2) := DecodeMany(bs1, n - 1);
    ([v] + vs, bs2)
  }

  // ----- The format is self-delimiting

  // What a value becomes on the wire: an error loses its code and a built-in function its
  // address, an empty target becomes the root.
  function Normal(v: Value): Value {
    match v
    case Arr(elems) => Arr(seq(|elems|, i requires 0 <= i < |elems| => Normal(elems[i])))
    case Fn(i, _) => Fn(i, 0)
    case Err(_, msg) => Err(0, msg)
    case Ref(s) => if s == [] then Ref(SLASH) else v
    case Ptr(s) => if s == [] then Ptr(SLASH) else v
    case _ => v
  }

  function NormalAll(vs: seq<Value>): (r: seq<Value>)
    ensures |r| == |vs|
  {
    seq(|vs|, i requires 0 <= i < |vs| => Normal(vs[i]))
  }

  // The values the wire carries unchanged.
  predicate Clean(v: Value) {
    match v
    case Arr(elems) => forall e <- elems :: Clean(e)
    case Fn(_, entry) => entry == 0
    case Err(code, _) => code == 0
    case Ref(s) => s != []
    case Ptr(s) => s != []
    case _ => true
  }

  lemma {:induction false} NormalIffClean(v: Value)
    ensures Normal(v) == v <==> Clean(v)
    decreases v
  {
    if v.Arr? {
      forall i | 0 <= i < |v.elems| ensures Normal(v.elems[i]) == v.elems[i] <==> Clean(v.elems[i]) {
        NormalIffClean(v.elems[i]);
      }
    }
  }

  lemma SplitAppend(a: seq<Byte>, b: seq<Byte>, n: nat)
    requires n == |a|
    ensures Split(a + b, n) == (true, a, b)
  {
    assert (a + b)[..n] == a && (a + b)[n..] == b;
  }

  lemma Regroup(p: seq<Byte>, a: seq<Byte>, b: seq<Byte>, c: seq<Byte>, d: seq<Byte>, e: seq<Byte>, f: seq<Byte>, r: seq<Byte>)
    ensures p + a + b + c + d + e + f == p + (a + b + c + d + e + f)
    ensures (a + b + c + d + e + f) + r == a + (b + (c + (d + (e + (f + r)))))
  {
    assert p + a + b + c + d == p + (a + b + c + d);
    assert (a + b + c) + (d + (e + (f + r))) == a + (b + (c + (d + (e + (f + r)))));
  }

  lemma FieldSizes(v: Value)
    requires WellFormed(v)
    ensures |FloatOf(v)| == 8 && |StrOf(v)| < 0x1_0000_0000 && |ElemsOf(v)| < 0x1_0000_0000
    ensures IvalOf(v) < 0x1_0000_0000_0000_0000
  {
  }

  lemma DecodeFields(t: Byte, ibuf: seq<Byte>, fbuf: seq<Byte>, slbuf: seq<Byte>, s: seq<Byte>, albuf: seq<Byte>, rest: seq<Byte>)
    requires |ibuf| == 8 && |fbuf| == 8 && |slbuf| == 4 && LeValue(slbuf) == |s| && |albuf| == 4
    ensures DecodeHead([t] + (ibuf + (fbuf + (slbuf + (s + (albuf + rest))))))
         == (Some(Head(t, LeValue(ibuf), fbuf, s, LeValue(albuf))), rest)
  {
    hide LeValue, Split;
    var bs5 := albuf + rest;
    var bs4 := s + bs5;
    var bs3 := slbuf + bs4;
    var bs2 := fbuf + bs3;
    var bs1 := ibuf + bs2;
    SplitAppend(albuf, rest, 4);
    SplitAppend(s, bs5, |s|);
    SplitAppend(slbuf, bs4, 4);
    SplitAppend(fbuf, bs3, 8);
    SplitAppend(ibuf, bs2, 8);
    SplitAppend([t], bs1, 1);
  }

  // The fields of a value can be read back from its encoding.
  lemma DecodeHeader(v: Value, rest: seq<Byte>)
    requires WellFormed(v)
    ensures DecodeHead(Header(v) + rest) == (Some(Head(Tag(v), IvalOf(v), FloatOf(v), StrOf(v), |ElemsOf(v)|)), rest)
  {
    hide *;
    FieldSizes(v);
    var ibuf, fbuf, s := LeBytes(IvalOf(v), 8), FloatOf(v), StrOf(v);
    var slbuf, albuf := LeBytes(|s|, 4), LeBytes(|ElemsOf(v)|, 4);
    Widths();
    LeRoundTrip(|s|, 4);
    LeRoundTrip(|ElemsOf(v)|, 4);
    LeRoundTrip(IvalOf(v), 8);
    Regroup([], [Tag(v)], ibuf, fbuf, slbuf, s, albuf, rest);
    DecodeFields(Tag(v), ibuf, fbuf, slbuf, s, albuf, rest);
    HeaderFields(v);
  }

  lemma HeaderFields(v: Value)
    ensures Header(v) == [Tag(v)] + LeBytes(IvalOf(v), 8) + FloatOf(v)
                       + LeBytes(|StrOf(v)|, 4) + StrOf(v) + LeBytes(|ElemsOf(v)|, 4)
  {
  }

  lemma BuildNormal(v: Value)
    requires WellFormed(v)
    ensures Build(Head(Tag(v), IvalOf(v), FloatOf(v), StrOf(v), |ElemsOf(v)|), NormalAll(ElemsOf(v))) == Normal(v)
    ensures Tag(v) == 4 <==> v.Arr?
  {
    TextUnique(StrOf(v), StrOf(v));
  }

  // Decoding an encoded value followed by any bytes gives the value, as the wire carries it, and
  // leaves exactly those bytes.
  lemma {:induction false} DecodeEncode(v: Value, rest: seq<Byte>)
    requires WellFormed(v)
    ensures Decode(Encode(v) + rest) == (Normal(v), rest)
    decreases v, 1
  {
    var body := if v.Arr? then EncodeAll(v.elems) else [];
    assert Encode(v) + rest == Header(v) + (body + rest);
    DecodeHeader(v, body + rest);
    BuildNormal(v);
    if v.Arr? {
      DecodeManyEncode(v.elems, rest);
    } else {
      assert body + rest == rest && NormalAll(ElemsOf(v)) == [];
    }
    hide DecodeHead, Header, Encode, EncodeAll, Build, Normal, Tag, NormalAll, FloatOf, StrOf, IvalOf, WellFormed;
  }

  lemma {:induction false} DecodeManyEncode(vs: seq<Value>, rest: seq<Byte>)
    requires forall v <- vs :: WellFormed(v)
    ensures DecodeMany(EncodeAll(vs) + rest, |vs|) == (NormalAll(vs), rest)
    decreases vs, 0
  {
    hide Header, Build, DecodeHead;
    if vs == [] {
      assert EncodeAll(vs) + rest == rest;
    } else {
      var tail := EncodeAll(vs[1..]) + rest;
      assert EncodeAll(vs) + rest == Encode(vs[0]) + tail;
      DecodeEncode(vs[0], tail);
      DecodeManyEncode(vs[1..], rest);
      assert NormalAll(vs) == [Normal(vs[0])] + NormalAll(vs[1..]);
    }
  }

  // The round trip is exact for the values without error codes, built-in functions and empty targets.
  lemma CleanRoundTrip(v: Value, rest: seq<Byte>)
    requires WellFormed(v)
    ensures Decode(Encode(v) + rest) == (v, rest) <==> Clean(v)
  {
    DecodeEncode(v, rest);
    NormalIffClean(v);
  }

  // Three values that the wire changes: each stands for one of the excluded families.
  lemma UncleanExamples(rest: seq<Byte>)
    ensures Decode(Encode(Err(7, [])) + rest) == (Err(0, []), rest)
    ensures Decode(Encode(Fn(1, 0x1000)) + rest) == (Fn(1, 0), rest)
    ensures Decode(Encode(Ref([])) + rest) == (Ref(SLASH), rest)
  {
    hide Decode, Encode;
    DecodeEncode(Err(7, []), rest);
    DecodeEncode(Fn(1, 0x1000), rest);
    DecodeEncode(Ref([]), rest);
  }

  // No encoding is a proper prefix of another, and equal encodings mean equal values on the wire.
  lemma EncodePrefixFree(v: Value, w: Value, a: seq<Byte>, b: seq<Byte>)
    requires WellFormed(v) && WellFormed(w) && Encode(v) + a == Encode(w) + b
    ensures Normal(v) == Normal(w) && a == b
  {
    DecodeEncode(v, a);
    DecodeEncode(w, b);
  }

  lemma EncodeAllNone()
    ensures EncodeAll([]) == []
  {
  }

  lemma {:induction false} EncodeAllAppend(vs: seq<Value>, v: Value)
    ensures EncodeAll(vs + [v]) == EncodeAll(vs) + Encode(v)
    decreases vs
  {
    if vs == [] {
      assert vs + [v] == [v];
      assert EncodeAll([v]) == Encode(v) + EncodeAll([]);
    } else {
      assert (vs + [v])[1..] == vs[1..] + [v];
      EncodeAllAppend(vs[1..], v);
    }
  }

  // ----- The program

  // A pipe that neither blocks nor fails on writing; a read past the end fails.
  class Pipe {
    var bytes: seq<Byte>

    constructor ()
      ensures bytes == []
    {
      bytes := [];
    }

    method WriteAll(bs: seq<Byte>)
      modifies this
      ensures bytes == old(bytes) + bs
    {
      bytes := bytes + bs;
    }

    method ReadAll(n: nat) returns (ok: bool, bs: seq<Byte>)
      modifies this
      ensures (ok, bs, bytes) == Split(old(bytes), n)
    {
      if n <= |bytes| {
        ok, bs := true, bytes[..n];
        bytes := bytes[n..];
      } else {
        ok, bs := false, [];
        bytes := [];
      }
    }
  }

  lemma ElemsWellFormed(v: Value)
    requires WellFormed(v) && v.Arr?
    ensures forall e <- v.elems :: WellFormed(e)
  {
  }

  lemma EncodeParts(p: seq<Byte>, v: Value)
    ensures v.Arr? ==> p + Header(v) + EncodeAll(v.elems) == p + Encode(v)
    ensures !v.Arr? ==> p + Header(v) == p + Encode(v)
  {
    hide Header, EncodeAll;
  }

  // pipe_serialize_value
  method Serialize(pipe: Pipe, v: Value)
    requires WellFormed(v)
    modifies pipe
    ensures pipe.bytes == old(pipe.bytes) + Encode(v)
    decreases v, 1
  {
    hide *;
    SerializeHeader(pipe, v);
    EncodeParts(old(pipe.bytes), v);
    if v.Arr? {
      ElemsWellFormed(v);
      SerializeAll(pipe, v.elems);
    }
  }

  method SerializeAll(pipe: Pipe, vs: seq<Value>)
    requires forall v <- vs :: WellFormed(v)
    modifies pipe
    ensures pipe.bytes == old(pipe.bytes) + EncodeAll(vs)
    decreases vs, 0
  {
    hide EncodeAll, Encode;
    EncodeAllNone();
    assert vs[..0] == [];
    for i := 0 to |vs|
      invariant pipe.bytes == old(pipe.bytes) + EncodeAll(vs[..i])
    {
      Serialize(pipe, vs[i]);
      EncodeAllAppend(vs[..i], vs[i]);
      assert vs[..i + 1] == vs[..i] + [vs[i]];
    }
    assert vs[..|vs|] == vs;
  }

  method SerializeHeader(pipe: Pipe, v: Value)
    modifies pipe
    ensures pipe.bytes == old(pipe.bytes) + Header(v)
  {
    hide LeBytes, Tag, StrOf, FloatOf, IvalOf;
    pipe.WriteAll([Tag(v)]);
    var ibuf := LeWrite(IvalOf(v), 8);
    pipe.WriteAll(ibuf);
    pipe.WriteAll(FloatOf(v));
    var slbuf := LeWrite(|StrOf(v)|, 4);
    pipe.WriteAll(slbuf);
    if |StrOf(v)| > 0 {
      pipe.WriteAll(StrOf(v));
    } else {
      assert pipe.bytes == pipe.bytes + StrOf(v);
    }
    var albuf := LeWrite(|ElemsOf(v)|, 4);
    pipe.WriteAll(albuf);
    Regroup(old(pipe.bytes), [Tag(v)], ibuf, FloatOf(v), slbuf, StrOf(v), albuf, []);
  }

  // pipe_deserialize_value
  method Deserialize(pipe: Pipe) returns (v: Value)
    modifies pipe
    ensures (v, pipe.bytes) == Decode(old(pipe.bytes))
    decreases |pipe.bytes|, 0
  {
    var head := DeserializeHeader(pipe);
    hide DecodeHead, DecodeMany;
    if head.None? { return READ_ERROR; }
    var elems := [];
    if head.value.tag == 4 {
      elems := DeserializeMany(pipe, head.value.count);
    }
    v := Build(head.value, elems);
  }

  method DeserializeMany(pipe: Pipe, n: nat) returns (vs: seq<Value>)
    modifies pipe
    ensures (vs, pipe.bytes) == DecodeMany(old(pipe.bytes), n)
    decreases |pipe.bytes|, 1
  {
    hide Decode;
    vs := [];
    assert vs + DecodeMany(pipe.bytes, n).0 == DecodeMany(pipe.bytes, n).0;
    for i := 0 to n
      invariant |pipe.bytes| <= |old(pipe.bytes)|
      invariant DecodeMany(old(pipe.bytes), n) ==
                  (vs + DecodeMany(pipe.bytes, n - i).0, DecodeMany(pipe.bytes, n - i).1)
    {
      ghost var before := vs;
      var e := Deserialize(pipe);
      vs := vs + [e];
      assert before + ([e] + DecodeMany(pipe.bytes, n - i - 1).0) == vs + DecodeMany(pipe.bytes, n - i - 1).0;
    }
    assert vs + [] == vs;
  }

  method DeserializeHeader(pipe: Pipe) returns (r: Option<Head>)
    modifies pipe
    ensures (r, pipe.bytes) == DecodeHead(old(pipe.bytes))
  {
    hide LeValue, Pow256;
    var ok, tag, ibuf, fbuf, slbuf, s, albuf;
    ok, tag := pipe.ReadAll(1);
    if !ok { return None; }
    ok, ibuf := pipe.ReadAll(8);
    if !ok { return None; }
    var ival := LeRead(ibuf);
    ok, fbuf := pipe.ReadAll(8);
    if !ok { return None; }
    ok, slbuf := pipe.ReadAll(4);
    if !ok { return None; }
    var strLen := LeRead(slbuf);
    ok, s := pipe.ReadAll(strLen);
    if !ok { return None; }
    ok, albuf := pipe.ReadAll(4);
    if !ok { return None; }
    var arrLen := LeRead(albuf);
    return Some(Head(tag[0], ival, fbuf, s, arrLen));
  }
}
