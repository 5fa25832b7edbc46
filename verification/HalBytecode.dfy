/**
 The HAL bytecode of hal/bc/nexs_hal_bc.c: an assembler into a fixed buffer and a stack machine.

 `Decode` and `StepConf` say what the machine does with any bytes, jumps and faults included.
 `Interp` runs a list of assembler calls directly, without bytes.  Assembling a list of calls and
 running the bytes is proved to end, and to end with the same registers, stack, output, unread
 input and status as `Interp`.

 The console is a field for the bytes written and one for the results nexs_hal_getc is going to
 give.  No device function is registered, so CALL reads its operand and does nothing.
 */
module HalBytecode {
  import opened Bytes
  import opened Wrappers

  const MAX_REGS := 16
  const STACK_DEPTH := 64
  const MAX_PROG := 4096

  type Int32 = i: int | -0x8000_0000 <= i < 0x8000_0000

  // ----- Instructions and the machine

  datatype Instr =
    | Nop
    | Open(path: seq<Byte>, mode: Byte)
    | Close(reg: Byte)
    | Read(reg: Byte, len: Int32)
    | Write(reg: Byte, data: seq<Byte>)
    | Ctl(reg: Byte, cmd: seq<Byte>)
    | Push(v: Int32)
    | Pop
    | Call(idx: nat)
    | Jmp(off: int)
    | Jz(off: int)
    | Halt
    | Unknown                 // STAT, SEEK, MOUNT, UMOUNT and bytes that are no opcode

  datatype Reg = Reg(inUse: bool, path: seq<Byte>, offset: nat)
  datatype Val = Int(i: int) | Str(s: seq<Byte>)

  const NO_REG := Reg(false, [], 0)

  datatype Machine = Machine(regs: seq<Reg>, stack: seq<Val>, output: seq<Byte>, input: seq<int>, halted: bool, error: bool)

  predicate Sane(m: Machine) { |m.regs| == MAX_REGS && |m.stack| <= STACK_DEPTH }

  predicate Stopped(m: Machine) { m.halted || m.error }

  function Cut(s: seq<Byte>, n: nat): (c: seq<Byte>)
    ensures c <= s && |c| == if |s| <= n then |s| else n
  {
    if |s| <= n then s else s[..n]
  }

  function Pushed(m: Machine, v: Val): Machine {
    if |m.stack| >= STACK_DEPTH then m.(error := true) else m.(stack := m.stack + [v])
  }

  // The top of the stack, or zero and an error.
  function Popped(m: Machine): (Machine, Val) {
    if m.stack == [] then (m.(error := true), Int(0))
    else (m.(stack := m.stack[..|m.stack| - 1]), m.stack[|m.stack| - 1])
  }

  // The lowest unused register, or the number of registers.
  function FirstFree(regs: seq<Reg>): (k: nat)
    ensures k <= |regs| && (k < |regs| ==> !regs[k].inUse) && forall i :: 0 <= i < k ==> regs[i].inUse
  {
    if regs == [] || !regs[0].inUse then 0 else 1 + FirstFree(regs[1..])
  }

  // What a read of at most n characters takes: up to a newline or an answer below zero.
  function Line(input: seq<int>, n: int): (r: (seq<Byte>, seq<int>))
    ensures |r.0| <= if n > 0 then n else 0
    decreases |input|
  {
    if n <= 0 || input == [] then ([], input)
    else if input[0] < 0 then ([], input[1..])
    else if input[0] == 10 then ([10], input[1..])
    else var r := Line(input[1..], n - 1); ([input[0] % 256] + r.0, r.1)
  }

  function ReadLimit(len: Int32): int { if len < 127 then len else 127 }

  // One instruction other than a jump.
  function Exec(i: Instr, m: Machine): (r: Machine)
    requires Sane(m)
    ensures Sane(r)
  {
    match i
    case Open(path, _) =>
      var k := FirstFree(m.regs);
      if k == MAX_REGS then Pushed(m, Int(-1)) else Pushed(m.(regs := m.regs[k := Reg(true, Cut(path, 63), 0)]), Int(k))
    case Close(reg) => if reg < MAX_REGS then m.(regs := m.regs[reg := NO_REG]) else m
    case Read(_, len) =>
      var r := Line(m.input, ReadLimit(len));
      Pushed(m.(input := r.1), Str(Text(r.0)))
    case Write(_, data) => m.(output := m.output + Text(data))
    case Push(v) => Pushed(m, Int(v))
    case Pop => Popped(m).0
    case Halt => m.(halted := true)
    case Unknown => m.(error := true)
    case _ => m
  }

  // ----- Operands

  datatype Operand<+T> = Operand(value: T, size: nat)

  // A counted string, cut to fit a buffer of bufsz bytes with its NUL.
  function ReadStr(prog: seq<Byte>, ip: nat, bufsz: nat): (r: Option<Operand<seq<Byte>>>)
    requires bufsz >= 1
    ensures r.Some? ==> ip + r.value.size <= |prog| && r.value.size >= 1
  {
    if ip >= |prog| then None
    else if prog[ip] < 0x80 then StrBody(prog, ip, 1, prog[ip], bufsz)
    else if ip + 1 >= |prog| then None
    else StrBody(prog, ip, 2, Length2(prog[ip], prog[ip + 1]), bufsz)
  }

  function Length2(b0: int, b1: int): nat { b0 % 128 * 128 + b1 % 128 }

  function StrBody(prog: seq<Byte>, ip: nat, header: nat, len: nat, bufsz: nat): (r: Option<Operand<seq<Byte>>>)
    requires bufsz >= 1
    ensures r.Some? ==> ip + r.value.size <= |prog| && r.value.size >= header
  {
    if ip + header + len > |prog| then None
    else Some(Operand(Text(Cut(prog[ip + header..ip + header + len], bufsz - 1)), header + len))
  }

  function ReadInt(prog: seq<Byte>, ip: nat): (r: Option<Operand<Int32>>)
    ensures r.Some? ==> r.value.size == 5 && ip + 5 <= |prog|
  {
    if ip + 4 >= |prog| || prog[ip] != 0x80 then None
    else
      Word32(prog[ip + 1..ip + 5]);
      var v: Int32 := Signed(LeValue(prog[ip + 1..ip + 5]), 0x8000_0000);
      Some(Operand(v, 5))
  }

  lemma Word32(bs: seq<Byte>)
    requires |bs| == 4
    ensures LeValue(bs) < 0x1_0000_0000
  {
    LeBound(bs);
    Widths();
  }

  // A signed two-byte offset or an unsigned index.
  function Word16(prog: seq<Byte>, ip: nat): (r: Option<nat>)
    ensures r.Some? ==> r.value < 0x1_0000 && ip + 2 <= |prog|
  {
    if ip + 1 >= |prog| then None else Some(Wide(prog[ip], prog[ip + 1]))
  }

  function Wide(lo: int, hi: int): int { lo + 256 * hi }

  // ----- Fetching and executing one instruction

  datatype Fetch = Fetched(instr: Instr, next: nat) | Fault(next: nat)

  function Decode(prog: seq<Byte>, ip: nat): Fetch
    requires ip < |prog|
  {
    var op, at := prog[ip], ip + 1;
    if op == 0x00 then Fetched(Nop, at)
    else if op == 0x01 then
      var s := ReadStr(prog, at, 64);
      if s.None? then Fault(at)
      else if at + s.value.size >= |prog| then Fault(at + s.value.size)
      else Fetched(Open(s.value.value, prog[at + s.value.size]), at + s.value.size + 1)
    else if op == 0x02 then if at >= |prog| then Fault(at) else Fetched(Close(prog[at]), at + 1)
    else if op == 0x03 then
      if at >= |prog| then Fault(at)
      else
        var n := ReadInt(prog, at + 1);
        if n.Some? then Fetched(Read(prog[at], n.value.value), at + 1 + n.value.size) else Fetched(Read(prog[at], 64), at + 1)
    else if op == 0x04 then
      if at >= |prog| then Fault(at)
      else
        var s := ReadStr(prog, at + 1, 256);
        if s.None? then Fault(at + 1) else Fetched(Write(prog[at], s.value.value), at + 1 + s.value.size)
    else if op == 0x09 then
      if at >= |prog| then Fault(at)
      else
        var s := ReadStr(prog, at + 1, 64);
        if s.None? then Fault(at + 1) else Fetched(Ctl(prog[at], s.value.value), at + 1 + s.value.size)
    else if op == 0x0A then
      var n := ReadInt(prog, at);
      if n.None? then Fault(at) else Fetched(Push(n.value.value), at + n.value.size)
    else if op == 0x0B then Fetched(Pop, at)
    else if 0x0C <= op <= 0x0E then
      var v := Word16(prog, at);
      if v.None? then Fault(at)
      else if op == 0x0C then Fetched(Call(v.value), at + 2)
      else if op == 0x0D then Fetched(Jmp(Signed(v.value, 0x8000)), at + 2)
      else Fetched(Jz(Signed(v.value, 0x8000)), at + 2)
    else if op == 0xFF then Fetched(Halt, at)
    else Fetched(Unknown, at)
  }

  datatype Conf = Conf(ip: nat, m: Machine)

  // The instruction pointer has 32 bits.
  function Jump(ip: nat, off: int): nat { (ip + off) % 0x1_0000_0000 }

  function StepConf(prog: seq<Byte>, c: Conf): (r: Conf)
    requires Sane(c.m)
    ensures Sane(r.m)
  {
    if Stopped(c.m) then c
    else if c.ip >= |prog| then c.(m := c.m.(halted := true))
    else
      match Decode(prog, c.ip)
      case Fault(next) => Conf(next, c.m.(error := true))
      case Fetched(Jmp(off), next) => Conf(Jump(next, off), c.m)
      case Fetched(Jz(off), next) =>
        var (m, top) := Popped(c.m);
        Conf(if top == Int(0) then Jump(next, off) else next, m)
      case Fetched(i, next) => Conf(next, Exec(i, c.m))
  }

  // ----- The assembler's instructions

  // What the assembler can be asked for: strings are C strings.
  predicate Assembles(i: Instr) {
    match i
    case Open(path, _) => NulFree(path)
    case Write(_, data) => NulFree(data)
    case Ctl(_, cmd) => NulFree(cmd)
    case Close(_) => true
    case Read(_, _) => true
    case Halt => true
    case _ => false
  }

  function EncodeStr(s: seq<Byte>): (r: seq<Byte>) {
    if |s| < 128 then [|s|] + s else [0x80 + |s| / 128 % 128, |s| % 128] + s
  }

  function EncodeInt(v: Int32): (r: seq<Byte>)
    ensures |r| == 5
  {
    [0x80] + LeBytes(v % 0x1_0000_0000, 4)
  }

  function Encode(i: Instr): (r: seq<Byte>)
    requires Assembles(i)
    ensures r != []
  {
    match i
    case Open(path, mode) => [0x01] + EncodeStr(path) + [mode]
    case Close(reg) => [0x02, reg]
    case Read(reg, len) => [0x03, reg] + EncodeInt(len)
    case Write(reg, data) => [0x04, reg] + EncodeStr(data)
    case Ctl(reg, cmd) => [0x09, reg] + EncodeStr(cmd)
    case Halt => [0xFF]
  }

  predicate AllAssemble(code: seq<Instr>) { forall i :: 0 <= i < |code| ==> Assembles(code[i]) }

  function EncodeAll(code: seq<Instr>): seq<Byte>
    requires AllAssemble(code)
  {
    if code == [] then [] else Encode(code[0]) + EncodeAll(code[1..])
  }

  // The part of a string operand that reaches the machine.
  function Clip(i: Instr): Instr {
    match i
    case Open(path, mode) => Open(Cut(path, 63), mode)
    case Write(reg, data) => Write(reg, Cut(data, 255))
    case Ctl(reg, cmd) => Ctl(reg, Cut(cmd, 63))
    case _ => i
  }

  // Running the calls themselves; the end of the list halts.
  function Interp(code: seq<Instr>, m: Machine): (r: Machine)
    requires Sane(m)
    ensures Sane(r) && Stopped(r)
    decreases |code|
  {
    if Stopped(m) then m
    else if code == [] then m.(halted := true)
    else Interp(code[1..], Exec(Clip(code[0]), m))
  }

  // The values that the calls before the first halt push, and the bytes they write.
  function Pushes(code: seq<Instr>): nat {
    if code == [] || code[0].Halt? then 0
    else (if code[0].Open? || code[0].Read? then 1 else 0) + Pushes(code[1..])
  }

  function Writes(code: seq<Instr>): seq<Byte> {
    if code == [] || code[0].Halt? then []
    else (if code[0].Write? then Cut(code[0].data, 255) else []) + Writes(code[1..])
  }

  lemma ExecEffect(i: Instr, m: Machine)
    requires Assembles(i) && Sane(m) && !Stopped(m)
    ensures
      var r := Exec(Clip(i), m);
      var push := i.Open? || i.Read?;
      && r.halted == i.Halt?
      && (r.error <==> push && |m.stack| == STACK_DEPTH)
      && (!r.error ==> |r.stack| == |m.stack| + if push then 1 else 0)
      && r.output == m.output + if i.Write? then Cut(i.data, 255) else []
  {
    hide Line, Text, FirstFree;
    if i.Write? { CutText(i.data, 255); } else { assert m.output + [] == m.output; }
  }

  /**
   * A run fails exactly when the opens and reads before the first halt overflow the stack; a run
   * that does not fail has written the clipped data of every write before that halt, in order.
   */
  lemma {:induction false} RunStatus(code: seq<Instr>, m: Machine)
    requires AllAssemble(code) && Sane(m) && !Stopped(m)
    ensures Interp(code, m).error <==> |m.stack| + Pushes(code) > STACK_DEPTH
    ensures !Interp(code, m).error ==> Interp(code, m).output == m.output + Writes(code)
    decreases |code|
  {
    hide Exec, Clip;
    if code != [] {
      ExecEffect(code[0], m);
      var next := Exec(Clip(code[0]), m);
      if !Stopped(next) { RunStatus(code[1..], next); }
    }
  }

  // Sixty-five reads are one too many, whatever they read.
  lemma StackOverflows(m: Machine)
    requires Sane(m) && !Stopped(m)
    ensures
      var code := seq(65, _ => Read(0, 0));
      AllAssemble(code) && Interp(code, m).error
  {
    hide Interp;
    var code := seq(65, _ => Read(0, 0));
    PushesAll(code);
    RunStatus(code, m);
  }

  lemma {:induction false} PushesAll(code: seq<Instr>)
    requires forall i :: 0 <= i < |code| ==> code[i].Read?
    ensures Pushes(code) == |code|
  {
    if code != [] { PushesAll(code[1..]); }
  }

  // ----- Decoding undoes encoding

  lemma CutText(s: seq<Byte>, n: nat)
    requires NulFree(s)
    ensures Text(Cut(s, n)) == Cut(s, n)
  {
    hide Text;
    TextUnique(Cut(s, n), Cut(s, n));
  }

  // A string operand anywhere in a program, at most 2^14 - 1 bytes long.
  lemma StrRoundTrip(before: seq<Byte>, s: seq<Byte>, rest: seq<Byte>, bufsz: nat)
    requires NulFree(s) && |s| < 0x4000 && bufsz >= 1
    ensures ReadStr(before + EncodeStr(s) + rest, |before|, bufsz) == Some(Operand(Cut(s, bufsz - 1), |EncodeStr(s)|))
  {
    hide Text;
    var prog := before + EncodeStr(s) + rest;
    var header := if |s| < 128 then 1 else 2;
    assert prog[|before|..][..header] == EncodeStr(s)[..header];
    assert prog[|before| + header..|before| + header + |s|] == s;
    CutText(s, bufsz - 1);
    if |s| >= 128 { HeaderDigits(|s|); }
  }

  lemma HeaderDigits(n: nat)
    requires n < 0x4000
    ensures n / 128 % 128 == n / 128 && Length2(0x80 + n / 128, n % 128) == n
  {
  }

  lemma IntRoundTrip(before: seq<Byte>, v: Int32, rest: seq<Byte>)
    ensures ReadInt(before + EncodeInt(v) + rest, |before|) == Some(Operand(v, 5))
  {
    hide LeBytes, LeValue, Pow256;
    var u := v % 0x1_0000_0000;
    var prog := before + EncodeInt(v) + rest;
    assert prog[|before| + 1..|before| + 5] == LeBytes(u, 4);
    LeRoundTrip(u, 4);
    Widths();
  }

  lemma OpenDecodes(before: seq<Byte>, path: seq<Byte>, mode: Byte, rest: seq<Byte>)
    requires NulFree(path) && |path| < 0x4000
    ensures
      var code := [0x01] + EncodeStr(path) + [mode];
      Decode(before + code + rest, |before|) == Fetched(Open(Cut(path, 63), mode), |before| + |code|)
  {
    hide ReadStr, ReadInt, EncodeStr, Word16, Cut;
    var code := [0x01] + EncodeStr(path) + [mode];
    var prog := before + code + rest;
    var b := before + [0x01];
    assert prog[|before|] == 0x01;
    assert prog == b + EncodeStr(path) + ([mode] + rest);
    StrRoundTrip(b, path, [mode] + rest, 64);
  }

  lemma ReadDecodes(before: seq<Byte>, reg: Byte, len: Int32, rest: seq<Byte>)
    ensures
      var code := [0x03, reg] + EncodeInt(len);
      Decode(before + code + rest, |before|) == Fetched(Read(reg, len), |before| + |code|)
  {
    hide ReadStr, ReadInt, EncodeInt, Word16;
    var code := [0x03, reg] + EncodeInt(len);
    var prog := before + code + rest;
    var b := before + [0x03, reg];
    assert prog[|before|] == 0x03 && prog[|before| + 1] == reg;
    assert prog == b + EncodeInt(len) + rest;
    IntRoundTrip(b, len, rest);
  }

  lemma TextDecodes(before: seq<Byte>, op: Byte, reg: Byte, s: seq<Byte>, rest: seq<Byte>)
    requires NulFree(s) && |s| < 0x4000 && (op == 0x04 || op == 0x09)
    ensures
      var code := [op, reg] + EncodeStr(s);
      Decode(before + code + rest, |before|) ==
        Fetched(if op == 0x04 then Write(reg, Cut(s, 255)) else Ctl(reg, Cut(s, 63)), |before| + |code|)
  {
    hide ReadStr, ReadInt, EncodeStr, Word16, Cut;
    var code := [op, reg] + EncodeStr(s);
    var prog := before + code + rest;
    var b := before + [op, reg];
    assert prog[|before|] == op && prog[|before| + 1] == reg;
    assert prog == b + EncodeStr(s) + rest;
    StrRoundTrip(b, s, rest, if op == 0x04 then 256 else 64);
  }

  // Wherever an instruction stands in a program, the machine reads it as it was meant, clipped.
  lemma DecodeEncode(before: seq<Byte>, i: Instr, rest: seq<Byte>)
    requires Assembles(i) && |Encode(i)| < 0x4000
    ensures Decode(before + Encode(i) + rest, |before|) == Fetched(Clip(i), |before| + |Encode(i)|)
  {
    hide Decode, EncodeStr, EncodeInt, Cut;
    match i
    case Open(path, mode) =>
      EncodedLength(path);
      OpenDecodes(before, path, mode, rest);
    case Close(reg) => CloseDecodes(before, reg, rest);
    case Read(reg, len) =>
      ReadDecodes(before, reg, len, rest);
    case Write(reg, data) =>
      EncodedLength(data);
      TextDecodes(before, 0x04, reg, data, rest);
    case Ctl(reg, cmd) =>
      EncodedLength(cmd);
      TextDecodes(before, 0x09, reg, cmd, rest);
    case Halt => HaltDecodes(before, rest);
  }

  lemma CloseDecodes(before: seq<Byte>, reg: Byte, rest: seq<Byte>)
    ensures Decode(before + [0x02, reg] + rest, |before|) == Fetched(Close(reg), |before| + 2)
  {
    var prog := before + [0x02, reg] + rest;
    assert prog[|before|] == 0x02 && prog[|before| + 1] == reg;
  }

  lemma HaltDecodes(before: seq<Byte>, rest: seq<Byte>)
    ensures Decode(before + [0xFF] + rest, |before|) == Fetched(Halt, |before| + 1)
  {
    assert (before + [0xFF] + rest)[|before|] == 0xFF;
  }

  lemma EncodedLength(s: seq<Byte>)
    ensures |EncodeStr(s)| == |s| + if |s| < 128 then 1 else 2
  {
  }

  lemma {:induction false} EncodeAllSplit(code: seq<Instr>, k: nat)
    requires AllAssemble(code) && k <= |code|
    ensures AllAssemble(code[..k]) && AllAssemble(code[k..])
    ensures EncodeAll(code) == EncodeAll(code[..k]) + EncodeAll(code[k..])
  {
    hide Encode;
    if k == 0 {
      assert code[..0] == [] && code[0..] == code;
    } else {
      EncodeAllSplit(code[1..], k - 1);
      assert code[..k][1..] == code[1..][..k - 1] && code[1..][k - 1..] == code[k..];
    }
  }

  // ----- Programs

  // "HALB", version 1, the UTF-8 flag and the number of bytes that follow.
  function Header(n: nat): (h: seq<Byte>)
    ensures |h| == 8
  {
    [72, 65, 76, 66, 1, 1, n % 256, n / 256 % 256]
  }

  predicate HeaderOk(prog: seq<Byte>) { |prog| >= 8 && prog[..4] == [72, 65, 76, 66] && prog[4] == 1 }

  function Program(code: seq<Instr>): (prog: seq<Byte>)
    requires AllAssemble(code)
    ensures |prog| >= 8
  {
    Header(|EncodeAll(code)|) + EncodeAll(code)
  }

  // Where the k-th instruction starts.
  function Offset(code: seq<Instr>, k: nat): nat
    requires AllAssemble(code) && k <= |code|
  {
    8 + |EncodeAll(code[..k])|
  }

  lemma OffsetNext(code: seq<Instr>, k: nat)
    requires AllAssemble(code) && k < |code|
    ensures EncodeAll(code[..k + 1]) == EncodeAll(code[..k]) + Encode(code[k])
    ensures Offset(code, k + 1) == Offset(code, k) + |Encode(code[k])|
  {
    hide Encode;
    var c := code[..k + 1];
    EncodeAllSplit(c, k);
    assert c[..k] == code[..k] && c[k..] == [code[k]] && [code[k]][1..] == [];
  }

  // The bytes of a program around its k-th instruction.
  lemma ProgramAt(code: seq<Instr>, k: nat)
    requires AllAssemble(code) && k < |code|
    ensures
      var before := Header(|EncodeAll(code)|) + EncodeAll(code[..k]);
      Program(code) == before + Encode(code[k]) + EncodeAll(code[k + 1..]) && |before| == Offset(code, k)
  {
    hide Encode, Header, EncodeAll;
    EncodeAllSplit(code, k + 1);
    OffsetNext(code, k);
    Join(Header(|EncodeAll(code)|), EncodeAll(code[..k]), Encode(code[k]), EncodeAll(code[k + 1..]));
  }

  lemma ProgramStops(code: seq<Instr>)
    requires AllAssemble(code)
    ensures Offset(code, |code|) == |Program(code)| && Offset(code, 0) == 8 && HeaderOk(Program(code))
  {
    hide Encode;
    assert code[..|code|] == code && code[..0] == [];
    assert Program(code)[..4] == Header(|EncodeAll(code)|)[..4];
  }

  /**
   * One step of the machine on an assembled program is one call run directly, and it lands at the
   * next instruction; past the last one it halts.
   */
  lemma StepIsExec(code: seq<Instr>, k: nat, m: Machine)
    requires AllAssemble(code) && |Program(code)| <= MAX_PROG && k <= |code| && Sane(m) && !Stopped(m)
    ensures
      var c := StepConf(Program(code), Conf(Offset(code, k), m));
      if k == |code| then c.m == m.(halted := true) && Stopped(c.m)
      else c == Conf(Offset(code, k + 1), Exec(Clip(code[k]), m))
  {
    hide Decode, Encode, EncodeAll, Header, Exec;
    if k == |code| {
      ProgramStops(code);
    } else {
      ProgramAt(code, k);
      OffsetNext(code, k);
      var before := Header(|EncodeAll(code)|) + EncodeAll(code[..k]);
      DecodeEncode(before, code[k], EncodeAll(code[k + 1..]));
      assert !Clip(code[k]).Jmp? && !Clip(code[k]).Jz?;
    }
  }

  lemma Gather(w: seq<Byte>, op: Byte, reg: Byte, operand: seq<Byte>)
    ensures w + [op] + [reg] + operand == w + ([op, reg] + operand)
  {
    assert [op] + [reg] == [op, reg];
    Join(w, [op], [reg], operand);
  }

  lemma Join(w: seq<Byte>, a: seq<Byte>, b: seq<Byte>, c: seq<Byte>)
    ensures w + a + b + c == w + (a + b + c)
  {
  }

  // ----- Many steps

  ghost function Steps(prog: seq<Byte>, c: Conf, n: nat): (r: Conf)
    requires Sane(c.m)
    ensures Sane(r.m)
    decreases n
  {
    if n == 0 then c else Steps(prog, StepConf(prog, c), n - 1)
  }

  lemma {:induction false} StoppedStays(prog: seq<Byte>, c: Conf, n: nat)
    requires Sane(c.m) && Stopped(c.m)
    ensures Steps(prog, c, n) == c
  {
    if n > 0 { StoppedStays(prog, c, n - 1); }
  }

  /**
   * Running assembled bytecode is running the calls: one step for each, and one to find the end.
   * It therefore always ends.
   */
  lemma {:induction false} RunsAsInterpreted(code: seq<Instr>, k: nat, m: Machine)
    requires AllAssemble(code) && |Program(code)| <= MAX_PROG && k <= |code| && Sane(m)
    ensures Steps(Program(code), Conf(Offset(code, k), m), |code| - k + 1).m == Interp(code[k..], m)
    decreases |code| - k
  {
    hide StepConf, Exec, EncodeAll, Program;
    var prog, c := Program(code), Conf(Offset(code, k), m);
    if Stopped(m) {
      StoppedStays(prog, c, |code| - k + 1);
    } else {
      StepIsExec(code, k, m);
      if k < |code| {
        RunsAsInterpreted(code, k + 1, Exec(Clip(code[k]), m));
        assert code[k..][1..] == code[k + 1..];
      } else {
        assert Steps(prog, c, 1) == Steps(prog, StepConf(prog, c), 0);
      }
    }
  }

  // Bytecode in which no jump goes back, wherever one may be read.
  ghost predicate NoJumpBack(prog: seq<Byte>) {
    forall ip: nat {:trigger Decode(prog, ip)} | ip < |prog| ::
      match Decode(prog, ip)
      case Fetched(Jmp(off), _) => off >= 0
      case Fetched(Jz(off), _) => off >= 0
      case _ => true
  }

  lemma DecodeMovesOn(prog: seq<Byte>, ip: nat)
    requires ip < |prog|
    ensures ip < Decode(prog, ip).next <= |prog| + 1
    ensures
      match Decode(prog, ip)
      case Fetched(Jmp(off), _) => off < 0x8000
      case Fetched(Jz(off), _) => off < 0x8000
      case _ => true
  {
    hide LeValue, Text;
  }

  lemma StepMovesOn(prog: seq<Byte>, c: Conf)
    requires NoJumpBack(prog) && |prog| < 0x8000_0000 && Sane(c.m) && !Stopped(c.m) && c.ip < |prog|
    ensures Stopped(StepConf(prog, c).m) || StepConf(prog, c).ip > c.ip
  {
    hide Decode, Exec;
    DecodeMovesOn(prog, c.ip);
    match Decode(prog, c.ip)
    case Fault(_) =>
    case Fetched(Jmp(off), next) => assert Jump(next, off) == next + off;
    case Fetched(Jz(off), next) => assert Jump(next, off) == next + off;
    case Fetched(_, _) =>
  }

  // Bytecode without jumps back, well formed or not, stops within as many steps as it has bytes, and one.
  lemma {:induction false} ForwardStops(prog: seq<Byte>, c: Conf, n: nat)
    requires NoJumpBack(prog) && |prog| < 0x8000_0000 && Sane(c.m) && c.ip + n > |prog|
    ensures Stopped(Steps(prog, c, n).m) || n == 0
    decreases n
  {
    hide Decode, Exec, StepConf, NoJumpBack;
    if Stopped(c.m) {
      StoppedStays(prog, c, n);
    } else if n > 0 {
      if c.ip >= |prog| {
        EndHalts(prog, c);
        StoppedStays(prog, StepConf(prog, c), n - 1);
      } else {
        StepMovesOn(prog, c);
        if Stopped(StepConf(prog, c).m) {
          StoppedStays(prog, StepConf(prog, c), n - 1);
        } else {
          ForwardStops(prog, StepConf(prog, c), n - 1);
          assert n > 1;
        }
      }
    }
  }

  lemma EndHalts(prog: seq<Byte>, c: Conf)
    requires Sane(c.m) && c.ip >= |prog|
    ensures Stopped(StepConf(prog, c).m)
  {
  }

  // Bytecode that never stops: a jump to itself.
  lemma {:induction false} SelfJumpRuns(m: Machine, n: nat)
    requires Sane(m) && !Stopped(m)
    ensures Steps([0x0D, 0xFD, 0xFF], Conf(0, m), n) == Conf(0, m)
  {
    if n > 0 {
      var prog: seq<Byte> := [0x0D, 0xFD, 0xFF];
      assert Decode(prog, 0) == Fetched(Jmp(-3), 3);
      assert Jump(3, -3) == 0;
      SelfJumpRuns(m, n - 1);
    }
  }

  // ----- The program: assembling

  class Assembler {
    const buf: array<Byte>
    var pos: nat
    var error: bool
    ghost var wanted: seq<Byte>        // every byte asked for so far

    ghost predicate Valid() reads this, buf {
      && buf.Length == MAX_PROG && 8 <= pos <= MAX_PROG
      && (error <==> 8 + |wanted| > MAX_PROG)
      && (!error ==> pos == 8 + |wanted| && buf[8..pos] == wanted)
    }

    constructor ()
      ensures Valid() && fresh(buf) && wanted == []
    {
      buf := new Byte[MAX_PROG](_ => 0);
      pos, error, wanted := 8, false, [];
    }

    method Emit(b: Byte)
      requires Valid()
      modifies this, buf
      ensures Valid() && wanted == old(wanted) + [b]
    {
      wanted := wanted + [b];
      if error || pos >= MAX_PROG {
        error := true;
        return;
      }
      buf[pos] := b;
      pos := pos + 1;
    }

    // halbc_memcpy into the buffer
    method Copy(at: nat, bs: seq<Byte>)
      requires at + |bs| <= buf.Length
      modifies buf
      ensures buf[..] == old(buf[..at]) + bs + old(buf[at + |bs|..])
    {
      for i := 0 to |bs|
        invariant buf[..at] == old(buf[..at]) && buf[at..at + i] == bs[..i] && buf[at + i..] == old(buf[at + i..])
      {
        buf[at + i] := bs[i];
      }
      assert bs[..|bs|] == bs;
    }

    // The operand encoders write only what fits in the rest of the buffer.
    method EmitBytes(bs: seq<Byte>)
      requires Valid()
      modifies this, buf
      ensures Valid() && wanted == old(wanted) + bs
    {
      var room := MAX_PROG - pos;
      wanted := wanted + bs;
      if room < |bs| {
        error := true;
        return;
      }
      Copy(pos, bs);
      pos := pos + |bs|;
    }

    method EmitStr(s: seq<Byte>)
      requires Valid()
      modifies this, buf
      ensures Valid() && wanted == old(wanted) + EncodeStr(s)
    {
      if |s| < 128 {
        EmitBytes([|s|] + s);
      } else {
        EmitBytes([0x80 + |s| / 128 % 128, |s| % 128] + s);
      }
    }

    method EmitInt(v: Int32)
      requires Valid()
      modifies this, buf
      ensures Valid() && wanted == old(wanted) + EncodeInt(v)
    {
      var bytes := LeWrite(v % 0x1_0000_0000, 4);
      EmitBytes([0x80] + bytes);
    }

    method AsmOpen(path: seq<Byte>, mode: Byte)
      requires Valid() && NulFree(path)
      modifies this, buf
      ensures Valid() && wanted == old(wanted) + Encode(Open(path, mode))
    {
      hide EncodeStr;
      Emit(0x01);
      EmitStr(path);
      Emit(mode);
      Join(old(wanted), [0x01], EncodeStr(path), [mode]);
    }

    method AsmClose(reg: Byte)
      requires Valid()
      modifies this, buf
      ensures Valid() && wanted == old(wanted) + Encode(Close(reg))
    {
      Emit(0x02);
      Emit(reg);
    }

    method AsmRead(reg: Byte, len: Int32)
      requires Valid()
      modifies this, buf
      ensures Valid() && wanted == old(wanted) + Encode(Read(reg, len))
    {
      hide EncodeStr, EncodeInt;
      Emit(0x03);
      Emit(reg);
      EmitInt(len);
      Gather(old(wanted), 0x03, reg, EncodeInt(len));
    }

    method AsmWrite(reg: Byte, data: seq<Byte>)
      requires Valid() && NulFree(data)
      modifies this, buf
      ensures Valid() && wanted == old(wanted) + Encode(Write(reg, data))
    {
      hide EncodeStr, EncodeInt;
      Emit(0x04);
      Emit(reg);
      EmitStr(data);
      Gather(old(wanted), 0x04, reg, EncodeStr(data));
    }

    method AsmCtl(reg: Byte, cmd: seq<Byte>)
      requires Valid() && NulFree(cmd)
      modifies this, buf
      ensures Valid() && wanted == old(wanted) + Encode(Ctl(reg, cmd))
    {
      hide EncodeStr, EncodeInt;
      Emit(0x09);
      Emit(reg);
      EmitStr(cmd);
      Gather(old(wanted), 0x09, reg, EncodeStr(cmd));
    }

    method AsmHalt()
      requires Valid()
      modifies this, buf
      ensures Valid() && wanted == old(wanted) + Encode(Halt)
    {
      Emit(0xFF);
    }

    // The length of the program, or 0 when it did not fit.
    method Finish() returns (total: nat)
      requires Valid()
      modifies buf
      ensures Valid() && total == if 8 + |wanted| > MAX_PROG then 0 else 8 + |wanted|
      ensures total > 0 ==> buf[..total] == Header(|wanted|) + wanted
    {
      if error { return 0; }
      total := pos;
      Copy(0, [72, 65, 76, 66, 1, 1, (total - 8) % 256, (total - 8) / 256 % 256]);
      assert buf[8..total] == wanted;
      assert buf[..total] == buf[..8] + buf[8..total];
    }

    method Call(i: Instr)
      requires Valid() && Assembles(i)
      modifies this, buf
      ensures Valid() && wanted == old(wanted) + Encode(i)
    {
      match i
      case Open(path, mode) => AsmOpen(path, mode);
      case Close(reg) => AsmClose(reg);
      case Read(reg, len) => AsmRead(reg, len);
      case Write(reg, data) => AsmWrite(reg, data);
      case Ctl(reg, cmd) => AsmCtl(reg, cmd);
      case Halt => AsmHalt();
    }
  }

  /**
   * Any sequence of assembler calls.  It finishes without error exactly when the program fits, and
   * then leaves the program.
   */
  method Assemble(code: seq<Instr>) returns (prog: Option<seq<Byte>>)
    requires AllAssemble(code)
    ensures prog == if |Program(code)| <= MAX_PROG then Some(Program(code)) else None
  {
    hide Encode, Header;
    var a := new Assembler();
    assert code[..0] == [];
    for k := 0 to |code|
      invariant a.Valid() && fresh(a) && fresh(a.buf) && a.wanted == EncodeAll(code[..k])
    {
      OffsetNext(code, k);
      a.Call(code[k]);
    }
    assert code[..|code|] == code;
    var total := a.Finish();
    prog := if total > 0 then Some(a.buf[..total]) else None;
  }

  // One round of reading.
  lemma LineStops(input: seq<int>, n: int)
    ensures n <= 0 || input == [] ==> Line(input, n) == ([], input)
    ensures n > 0 && input != [] && input[0] < 0 ==> Line(input, n) == ([], input[1..])
    ensures n > 0 && input != [] && input[0] == 10 ==> Line(input, n) == ([10], input[1..])
    ensures n > 0 && input != [] && input[0] >= 0 && input[0] != 10 ==>
      var r := Line(input[1..], n - 1);
      Line(input, n) == ([input[0] % 256] + r.0, r.1)
  {
  }

  // ----- The program: running

  class Vm {
    var prog: seq<Byte>
    var ip: nat
    const regs: array<Reg>
    const stack: array<Val>
    var sp: nat
    var halted: bool
    var error: bool
    var output: seq<Byte>
    var input: seq<int>

    ghost predicate Valid() reads this, regs, stack {
      regs.Length == MAX_REGS && stack.Length == STACK_DEPTH && sp <= STACK_DEPTH
    }

    ghost function M(): (m: Machine)
      requires Valid()
      reads this, regs, stack
      ensures Sane(m)
    {
      Machine(regs[..], stack[..sp], output, input, halted, error)
    }

    constructor (answers: seq<int>)
      ensures Valid() && fresh(regs) && fresh(stack) && input == answers && output == []
    {
      regs := new Reg[MAX_REGS](_ => NO_REG);
      stack := new Val[STACK_DEPTH](_ => Int(0));
      prog, ip, sp, halted, error, output, input := [], 0, 0, false, false, [], answers;
    }

    method Init(p: seq<Byte>) returns (status: int)
      requires Valid()
      modifies this, regs
      ensures Valid() && status == if HeaderOk(p) then 0 else -1
      ensures M() == Machine(seq(MAX_REGS, _ => NO_REG), [], old(output), old(input), false, false)
      ensures if HeaderOk(p) then prog == p && ip == 8 else prog == [] && ip == 0
    {
      for i := 0 to MAX_REGS
        invariant forall j :: 0 <= j < i ==> regs[j] == NO_REG
        invariant output == old(output) && input == old(input)
      {
        regs[i] := NO_REG;
      }
      prog, ip, sp, halted, error := [], 0, 0, false, false;
      if |p| < 8 || p[..4] != [72, 65, 76, 66] || p[4] != 1 { return -1; }
      prog, ip := p, 8;
      return 0;
    }

    method PushVal(v: Val)
      requires Valid()
      modifies this`sp, this`error, stack
      ensures Valid() && M() == Pushed(old(M()), v)
    {
      if sp >= STACK_DEPTH {
        error := true;
        return;
      }
      stack[sp] := v;
      sp := sp + 1;
    }

    method PopVal() returns (v: Val)
      requires Valid()
      modifies this`sp, this`error
      ensures Valid() && (M(), v) == Popped(old(M()))
    {
      if sp == 0 {
        error := true;
        return Int(0);
      }
      sp := sp - 1;
      v := stack[sp];
      assert stack[..sp] == old(stack[..sp])[..sp];
    }

    method FindFree() returns (k: nat)
      requires Valid()
      ensures k == FirstFree(regs[..])
    {
      k := 0;
      while k < MAX_REGS && regs[k].inUse
        invariant k <= MAX_REGS && FirstFree(regs[..]) == k + FirstFree(regs[k..])
      {
        assert regs[k..][1..] == regs[k + 1..];
        k := k + 1;
      }
    }

    // The loop of hal_dev_read.
    method ReadChars(len: Int32) returns (buf: seq<Byte>)
      modifies this`input
      ensures buf == Line(old(input), ReadLimit(len)).0 && input == Line(old(input), ReadLimit(len)).1
    {
      hide Line;
      buf := [];
      LineStops(input, ReadLimit(len));
      while |buf| < len && |buf| < 127
        invariant |buf| <= 127 && (|buf| > 0 ==> |buf| <= len)
        invariant buf + Line(input, ReadLimit(len) - |buf|).0 == Line(old(input), ReadLimit(len)).0
        invariant Line(input, ReadLimit(len) - |buf|).1 == Line(old(input), ReadLimit(len)).1
        decreases 127 - |buf|
      {
        LineStops(input, ReadLimit(len) - |buf|);
        if input == [] { return; }
        var c := input[0];
        input := input[1..];
        if c < 0 { return; }
        buf := buf + [c % 256];
        if c == 10 { return; }
      }
      LineStops(input, ReadLimit(len) - |buf|);
    }

    // hal_dev_read
    method DevRead(len: Int32)
      requires Valid()
      modifies this`input, this`sp, this`error, stack
      ensures Valid() && M() == Exec(Read(0, len), old(M()))
    {
      hide Line, Text;
      var buf := ReadChars(len);
      PushVal(Str(Text(buf)));
    }

    // hal_dev_write: up to the NUL
    method DevWrite(data: seq<Byte>)
      requires Valid()
      modifies this`output
      ensures Valid() && M() == old(M()).(output := old(output) + Text(data))
    {
      hide Text;
      var p := 0;
      assert data[0..] == data;
      while p < |data| && data[p] != 0
        invariant p <= |data| && output + Text(data[p..]) == old(output) + Text(data)
      {
        TextNext(data[p..]);
        assert data[p..][1..] == data[p + 1..];
        output := output + [data[p]];
        p := p + 1;
      }
      TextNext(data[p..]);
    }

    // One instruction; false when the machine has stopped.
    method Step() returns (running: bool)
      requires Valid()
      modifies this`ip, this`sp, this`halted, this`error, this`output, this`input, regs, stack
      ensures Valid() && Conf(ip, M()) == StepConf(prog, old(Conf(ip, M())))
      ensures running == !Stopped(M())
    {
      hide Decode, Exec;
      if halted || error { return false; }
      if ip >= |prog| {
        halted := true;
        return false;
      }
      var f := Decode(prog, ip);
      ip := f.next;
      if f.Fault? {
        error := true;
        return false;
      }
      match f.instr {
        case Jmp(off) => ip := Jump(ip, off);
        case Jz(off) =>
          var top := PopVal();
          if top == Int(0) { ip := Jump(ip, off); }
        case _ => ExecInstr(f.instr);
      }
      return !halted && !error;
    }

    // The effect of an instruction that is no jump.
    method ExecInstr(i: Instr)
      requires Valid()
      modifies this`sp, this`halted, this`error, this`output, this`input, regs, stack
      ensures Valid() && M() == Exec(i, old(M()))
    {
      hide Line, Text, FirstFree;
      match i {
        case Open(path, _) => ExecOpen(path);
        case Close(reg) => if reg < MAX_REGS { regs[reg] := NO_REG; }
        case Read(_, len) => DevRead(len);
        case Write(_, data) => DevWrite(data);
        case Push(v) => PushVal(Int(v));
        case Pop => var _ := PopVal();
        case Halt => halted := true;
        case Unknown => error := true;
        case _ =>
      }
    }

    method ExecOpen(path: seq<Byte>)
      requires Valid()
      modifies this`sp, this`error, regs, stack
      ensures Valid() && M() == Exec(Open(path, 0), old(M()))
    {
      hide FirstFree;
      var k := FindFree();
      if k == MAX_REGS {
        PushVal(Int(-1));
      } else {
        regs[k] := Reg(true, Cut(path, 63), 0);
        PushVal(Int(k));
      }
    }

    /**
     * Run to the end, for any bytecode that comes to one: if n steps stop the machine, the loop ends
     * where they do.
     */
    method Run(ghost n: nat) returns (status: int)
      requires Valid() && Stopped(Steps(prog, Conf(ip, M()), n).m)
      modifies this`ip, this`sp, this`halted, this`error, this`output, this`input, regs, stack
      ensures Valid() && Conf(ip, M()) == Steps(prog, old(Conf(ip, M())), n) && Stopped(M())
      ensures status == if M().error then -1 else 0
    {
      hide StepConf;
      ghost var left := n;
      var running := !halted && !error;
      while running
        invariant Valid() && running == !Stopped(M()) && Steps(prog, Conf(ip, M()), left) == Steps(prog, old(Conf(ip, M())), n)
        decreases left, running
      {
        running := Step();
        left := left - 1;
      }
      StoppedStays(prog, Conf(ip, M()), left);
      status := if error then -1 else 0;
    }
  }

  // The machine as halbc_init leaves it.
  function Initial(answers: seq<int>): (m: Machine)
    ensures Sane(m)
  {
    Machine(seq(MAX_REGS, _ => NO_REG), [], [], answers, false, false)
  }

  // From the calls to the end of the run; None when the program does not fit.
  method AssembleAndRun(code: seq<Instr>, answers: seq<int>) returns (vm: Vm, status: Option<int>)
    requires AllAssemble(code)
    ensures fresh(vm) && vm.Valid()
    ensures status.None? <==> |Program(code)| > MAX_PROG
    ensures status.Some? ==>
      && vm.M() == Interp(code, Initial(answers))
      && status.value == (if Pushes(code) > STACK_DEPTH then -1 else 0)
      && (status.value == 0 ==> vm.output == Writes(code))
  {
    hide Interp, EncodeAll, Steps, StepConf;
    vm := new Vm(answers);
    var prog := Assemble(code);
    if prog.None? { return vm, None; }
    ProgramStops(code);
    var ready := vm.Init(prog.value);
    RunStatus(code, Initial(answers));
    RunsAsInterpreted(code, 0, Initial(answers));
    assert code[0..] == code;
    var end := vm.Run(|code| + 1);
    return vm, Some(end);
  }
}
