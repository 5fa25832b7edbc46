/**
 What a run of HAL bytecode leaves in the registers, on the stack and of the input (hal/bc/nexs_hal_bc.c),
 told by its calls: which call took a register and which gave it up, what each call pushed, and
 which answers each read used up.  The opcodes that the assembler does not emit follow, byte by byte.
 */
module BytecodeRuns {
  import opened Bytes
  import opened HalBytecode

  // ----- The machine before each call

  ghost function Before(code: seq<Instr>, m: Machine, j: nat): (r: Machine)
    requires j <= |code| && Sane(m)
    ensures Sane(r)
  {
    if j == 0 then m
    else
      var b := Before(code, m, j - 1);
      if Stopped(b) then b else Exec(Clip(code[j - 1]), b)
  }

  // A call is made as long as the machine has not stopped.
  ghost predicate Made(code: seq<Instr>, m: Machine, j: nat)
    requires Sane(m)
  {
    j < |code| && !Stopped(Before(code, m, j))
  }

  lemma {:induction false} InterpFrom(code: seq<Instr>, m: Machine, j: nat)
    requires Sane(m) && j <= |code|
    ensures Interp(code, m) == Interp(code[j..], Before(code, m, j))
    decreases j
  {
    hide Exec, Clip;
    if j == 0 {
      assert code[0..] == code;
    } else {
      InterpFrom(code, m, j - 1);
      assert code[j - 1..][0] == code[j - 1] && code[j - 1..][1..] == code[j..];
    }
  }

  // A run ends as its last call left the machine, halted if nothing else stopped it.
  lemma RunEnds(code: seq<Instr>, m: Machine)
    requires Sane(m)
    ensures
      var end := Before(code, m, |code|);
      Interp(code, m) == if Stopped(end) then end else end.(halted := true)
  {
    hide Exec, Clip;
    InterpFrom(code, m, |code|);
    assert code[|code|..] == [];
  }

  // ----- Registers

  ghost predicate LowestFree(regs: seq<Reg>, k: nat) {
    k < |regs| && !regs[k].inUse && forall i | 0 <= i < k :: regs[i].inUse
  }

  // Call j opens register k; call j closes it.
  ghost predicate Takes(code: seq<Instr>, m: Machine, j: nat, k: nat)
    requires Sane(m)
  {
    Made(code, m, j) && code[j].Open? && LowestFree(Before(code, m, j).regs, k)
  }

  ghost predicate Frees(code: seq<Instr>, m: Machine, j: nat, k: nat)
    requires Sane(m)
  {
    Made(code, m, j) && code[j].Close? && code[j].reg == k
  }

  // Register k as the open of call j left it.
  ghost function Opened(path: seq<Byte>): Reg { Reg(true, if |path| < 64 then path else path[..63], 0) }

  lemma ExecRegister(i: Instr, m: Machine, k: nat)
    requires Sane(m) && k < MAX_REGS
    ensures Exec(Clip(i), m).regs[k] ==
      if i.Open? && LowestFree(m.regs, k) then Opened(i.path)
      else if i.Close? && i.reg == k then NO_REG
      else m.regs[k]
  {
    hide Line, Text;
    if i.Open? { LowestIsFirst(m.regs, k); }
  }

  lemma LowestIsFirst(regs: seq<Reg>, k: nat)
    ensures LowestFree(regs, k) <==> k == FirstFree(regs) && k < |regs|
  {
    hide FirstFree;
  }

  /**
   * Register k after n calls: in use exactly when an open took it after the last close of it, or it
   * was in use at the start and has not been closed; then it holds the path of that open, cut to 63
   * bytes.
   */
  lemma {:induction false} RegisterInUse(code: seq<Instr>, m: Machine, n: nat, k: nat)
    requires Sane(m) && n <= |code| && k < MAX_REGS
    ensures Before(code, m, n).regs[k].inUse <==>
      || (exists j | 0 <= j < n :: Takes(code, m, j, k) && KeptOpen(code, m, j + 1, n, k))
      || (m.regs[k].inUse && KeptOpen(code, m, 0, n, k))
    ensures forall j | 0 <= j < n && Takes(code, m, j, k) && KeptOpen(code, m, j + 1, n, k) ::
              Before(code, m, n).regs[k] == Opened(code[j].path)
    decreases n
  {
    hide Exec, Clip, Before, LowestFree, Opened, Takes, Frees;
    if n == 0 {
      BeforeNone(code, m);
    } else {
      RegisterInUse(code, m, n - 1, k);
      RegisterStep(code, m, n, k);
      forall i: nat | i < n ensures KeptOpen(code, m, i, n, k) <==> KeptOpen(code, m, i, n - 1, k) && !Frees(code, m, n - 1, k) {
      }
      assert KeptOpen(code, m, n, n, k);
    }
  }

  // After a close that no open followed it is empty; a register that no call touched is as it was.
  lemma {:induction false} RegisterFree(code: seq<Instr>, m: Machine, n: nat, k: nat)
    requires Sane(m) && n <= |code| && k < MAX_REGS
    ensures forall j | 0 <= j < n && Frees(code, m, j, k) && LeftFree(code, m, j + 1, n, k) :: Before(code, m, n).regs[k] == NO_REG
    ensures KeptOpen(code, m, 0, n, k) && LeftFree(code, m, 0, n, k) ==> Before(code, m, n).regs[k] == m.regs[k]
    decreases n
  {
    hide Exec, Clip, Before, LowestFree, Opened, Takes, Frees;
    if n == 0 {
      BeforeNone(code, m);
    } else {
      RegisterFree(code, m, n - 1, k);
      RegisterStep(code, m, n, k);
    }
  }

  lemma BeforeNone(code: seq<Instr>, m: Machine)
    requires Sane(m)
    ensures Before(code, m, 0) == m
  {
  }

  lemma RegisterStep(code: seq<Instr>, m: Machine, n: nat, k: nat)
    requires Sane(m) && 0 < n <= |code| && k < MAX_REGS
    ensures Before(code, m, n).regs[k] ==
      if Takes(code, m, n - 1, k) then Opened(code[n - 1].path) else if Frees(code, m, n - 1, k) then NO_REG else Before(code, m, n - 1).regs[k]
    ensures Takes(code, m, n - 1, k) ==> !Before(code, m, n - 1).regs[k].inUse && Opened(code[n - 1].path).inUse
    ensures !(Takes(code, m, n - 1, k) && Frees(code, m, n - 1, k))
  {
    hide Exec, Clip;
    ExecRegister(code[n - 1], Before(code, m, n - 1), k);
  }

  // No call from number i to n closes register k, or takes it.
  ghost predicate KeptOpen(code: seq<Instr>, m: Machine, i: nat, n: nat, k: nat)
    requires Sane(m)
  {
    forall j | i <= j < n :: !Frees(code, m, j, k)
  }

  ghost predicate LeftFree(code: seq<Instr>, m: Machine, i: nat, n: nat, k: nat)
    requires Sane(m)
  {
    forall j | i <= j < n :: !Takes(code, m, j, k)
  }

  // Registers not in use are empty, in every run that starts so.
  ghost predicate Tidy(m: Machine) { forall k | 0 <= k < |m.regs| :: !m.regs[k].inUse ==> m.regs[k] == NO_REG }

  lemma ExecTidy(i: Instr, m: Machine)
    requires Sane(m) && Tidy(m)
    ensures Tidy(Exec(Clip(i), m))
  {
    hide Exec, Clip;
    forall k | 0 <= k < MAX_REGS ensures var r := Exec(Clip(i), m).regs[k]; !r.inUse ==> r == NO_REG {
      ExecRegister(i, m, k);
    }
  }

  lemma {:induction false} RunTidy(code: seq<Instr>, m: Machine, n: nat)
    requires Sane(m) && Tidy(m) && n <= |code|
    ensures Tidy(Before(code, m, n))
    decreases n
  {
    hide Exec, Clip, Tidy;
    if n > 0 {
      RunTidy(code, m, n - 1);
      if !Stopped(Before(code, m, n - 1)) { ExecTidy(code[n - 1], Before(code, m, n - 1)); }
    }
  }

  // Closing the register that an open has just taken restores all registers.
  lemma OpenThenClose(m: Machine, path: seq<Byte>, mode: Byte, k: nat)
    requires Sane(m) && Tidy(m) && k < MAX_REGS && LowestFree(m.regs, k)
    ensures Exec(Clip(Close(k)), Exec(Clip(Open(path, mode)), m)).regs == m.regs
  {
    hide Exec, Clip, LowestFree;
    var m1 := Exec(Clip(Open(path, mode)), m);
    var m2 := Exec(Clip(Close(k)), m1);
    forall i | 0 <= i < MAX_REGS ensures m2.regs[i] == m.regs[i] {
      ExecRegister(Open(path, mode), m, i);
      ExecRegister(Close(k), m1, i);
      OneLowest(m.regs, i, k);
    }
  }

  lemma OneLowest(regs: seq<Reg>, i: nat, k: nat)
    requires LowestFree(regs, k)
    ensures (LowestFree(regs, i) <==> i == k) && k < |regs| && !regs[k].inUse
  {
  }

  // ----- Reading

  /**
   * What a read of at most `limit` characters takes of the answers: characters up to the limit, the
   * first newline, which is kept, or the first answer below zero, which is used up.
   */
  ghost predicate TakesLine(input: seq<int>, limit: int, line: seq<Byte>, rest: seq<int>) {
    var t := |line|;
    && t <= |input| && (t == 0 || t <= limit)
    && (forall i | 0 <= i < t :: input[i] >= 0 && line[i] == input[i] % 256)
    && (forall i | 0 <= i < t - 1 :: input[i] != 10)
    && var full := t >= limit || t == |input| || (t > 0 && input[t - 1] == 10);
       if full then rest == input[t..] else input[t] < 0 && rest == input[t + 1..]
  }

  lemma {:induction false} LineTakes(input: seq<int>, limit: int)
    ensures TakesLine(input, limit, Line(input, limit).0, Line(input, limit).1)
    decreases |input|
  {
    hide TakesLine, Line;
    LineStops(input, limit);
    if limit > 0 && input != [] && input[0] >= 0 && input[0] != 10 {
      LineTakes(input[1..], limit - 1);
      var r := Line(input[1..], limit - 1);
      LineMore(input, limit, r.0, r.1);
    } else {
      LineEnds(input, limit);
    }
  }

  lemma LineMore(input: seq<int>, limit: int, line: seq<Byte>, rest: seq<int>)
    requires limit > 0 && input != [] && input[0] >= 0 && input[0] != 10 && TakesLine(input[1..], limit - 1, line, rest)
    ensures TakesLine(input, limit, [input[0] % 256] + line, rest)
  {
    var t := |line|;
    assert input[1..][t..] == input[t + 1..];
    if t < |input[1..]| { assert input[1..][t + 1..] == input[t + 2..] && input[1..][t] == input[t + 1]; }
    if t > 0 { assert input[1..][t - 1] == input[t]; }
  }

  lemma LineEnds(input: seq<int>, limit: int)
    ensures limit <= 0 || input == [] ==> TakesLine(input, limit, [], input)
    ensures limit > 0 && input != [] && input[0] < 0 ==> TakesLine(input, limit, [], input[1..])
    ensures limit > 0 && input != [] && input[0] == 10 ==> TakesLine(input, limit, [10], input[1..])
  {
  }

  lemma LineUnique(input: seq<int>, limit: int, a: seq<Byte>, restA: seq<int>, b: seq<Byte>, restB: seq<int>)
    requires TakesLine(input, limit, a, restA) && TakesLine(input, limit, b, restB)
    ensures a == b && restA == restB
  {
    if |a| < |b| { LineLength(input, limit, a, restA, b, restB); }
    if |b| < |a| { LineLength(input, limit, b, restB, a, restA); }
  }

  lemma LineLength(input: seq<int>, limit: int, a: seq<Byte>, restA: seq<int>, b: seq<Byte>, restB: seq<int>)
    requires TakesLine(input, limit, a, restA) && TakesLine(input, limit, b, restB)
    ensures |a| >= |b|
  {
  }

  // A read takes at most 127 characters and pushes what stands before the first NUL among them.
  lemma ReadPushes(m: Machine, reg: Byte, len: Int32) returns (line: seq<Byte>)
    requires Sane(m)
    ensures
      var r := Exec(Clip(Read(reg, len)), m);
      && TakesLine(m.input, if len < 127 then len else 127, line, r.input)
      && r.regs == m.regs && r.output == m.output
      && (|m.stack| < 64 ==> r.stack == m.stack + [Str(Text(line))])
  {
    hide Line, Text, TakesLine;
    LineTakes(m.input, ReadLimit(len));
    line := Line(m.input, ReadLimit(len)).0;
  }

  // An open pushes the register it took, or -1 when all sixteen are in use, and reads nothing.
  lemma OpenPushes(m: Machine, path: seq<Byte>, mode: Byte)
    requires Sane(m) && |m.stack| < 64
    ensures
      var r := Exec(Clip(Open(path, mode)), m);
      && r.input == m.input && r.output == m.output
      && (forall k: nat | LowestFree(m.regs, k) :: r.stack == m.stack + [Int(k)])
      && ((forall k | 0 <= k < 16 :: m.regs[k].inUse) ==> r.stack == m.stack + [Int(-1)] && r.regs == m.regs)
  {
    hide FirstFree;
    forall k: nat | LowestFree(m.regs, k) ensures k == FirstFree(m.regs) { LowestIsFirst(m.regs, k); }
  }

  // ----- The stack and the input over a run

  // What call i pushes on the machine m.
  ghost function Answer(i: Instr, m: Machine): seq<Val> {
    match i
    case Open(_, _) => [Int(if FirstFree(m.regs) < |m.regs| then FirstFree(m.regs) else -1)]
    case Read(_, len) => [Str(Text(Line(m.input, ReadLimit(len)).0))]
    case _ => []
  }

  ghost function Answers(code: seq<Instr>, m: Machine, n: nat): seq<Val>
    requires Sane(m) && n <= |code|
  {
    if n == 0 then [] else Answers(code, m, n - 1) + if Made(code, m, n - 1) then Answer(code[n - 1], Before(code, m, n - 1)) else []
  }

  lemma ExecPushes(i: Instr, m: Machine)
    requires Sane(m) && Assembles(i)
    ensures !Exec(Clip(i), m).error ==> Exec(Clip(i), m).stack == m.stack + Answer(i, m)
    ensures m.error ==> Exec(Clip(i), m).error
    ensures !i.Read? ==> Exec(Clip(i), m).input == m.input
  {
    hide Line, Text, FirstFree;
    assert m.stack + [] == m.stack;
  }

  // A run without error leaves, above what was there, what its calls pushed, in order.
  lemma {:induction false} StackHistory(code: seq<Instr>, m: Machine, n: nat)
    requires Sane(m) && AllAssemble(code) && n <= |code|
    ensures !Before(code, m, n).error ==> Before(code, m, n).stack == m.stack + Answers(code, m, n)
    decreases n
  {
    hide Exec, Clip, Answer;
    if n == 0 {
      assert m.stack + [] == m.stack;
    } else {
      StackHistory(code, m, n - 1);
      var b := Before(code, m, n - 1);
      ExecPushes(code[n - 1], b);
      if !Stopped(b) {
        assert m.stack + (Answers(code, m, n - 1) + Answer(code[n - 1], b)) == (m.stack + Answers(code, m, n - 1)) + Answer(code[n - 1], b);
      } else {
        assert Answers(code, m, n - 1) + [] == Answers(code, m, n - 1);
      }
    }
  }

  // Open, close and open again: both opens get register 0.
  lemma RegisterReused(answers: seq<int>)
    ensures
      var code := [Open([47], 0), Close(0), Open([47], 0)];
      Interp(code, Initial(answers)).stack == [Int(0), Int(0)]
  {
    hide Exec, Clip, Interp, Before;
    var code := [Open([47], 0), Close(0), Open([47], 0)];
    var m0 := Initial(answers);
    BeforeNone(code, m0);
    BeforeNext(code, m0, 0);
    BeforeNext(code, m0, 1);
    BeforeNext(code, m0, 2);
    var m1 := Exec(Clip(code[0]), m0);
    OpenPushes(m0, [47], 0);
    assert LowestFree(m0.regs, 0);
    ExecEffect(code[0], m0);
    ExecEffect(code[1], m1);
    var m2 := Exec(Clip(code[1]), m1);
    ExecPushes(code[1], m1);
    assert m1.stack + [] == m1.stack;
    ExecRegister(code[1], m1, 0);
    assert LowestFree(m2.regs, 0);
    OpenPushes(m2, [47], 0);
    ExecEffect(code[2], m2);
    RunEnds(code, m0);
  }

  lemma BeforeNext(code: seq<Instr>, m: Machine, j: nat)
    requires Sane(m) && j < |code|
    ensures Before(code, m, j + 1) == if Stopped(Before(code, m, j)) then Before(code, m, j) else Exec(Clip(code[j]), Before(code, m, j))
  {
    hide Exec, Clip;
  }

  // ----- The opcodes that the assembler does not emit

  ghost predicate At(prog: seq<Byte>, c: Conf, bytes: seq<Byte>) {
    !Stopped(c.m) && c.ip + |bytes| <= |prog| && prog[c.ip..c.ip + |bytes|] == bytes
  }

  // Two bytes as a signed offset, from the byte behind the instruction, in 32 bits.
  function Target(ip: nat, lo: Byte, hi: Byte): nat {
    (ip + 3 + lo + 256 * hi - (if hi >= 128 then 0x1_0000 else 0)) % 0x1_0000_0000
  }

  lemma BytesAt(prog: seq<Byte>, c: Conf, bytes: seq<Byte>)
    requires At(prog, c, bytes)
    ensures forall i | 0 <= i < |bytes| :: prog[c.ip + i] == bytes[i]
  {
    forall i | 0 <= i < |bytes| ensures prog[c.ip + i] == bytes[i] {
      assert prog[c.ip..c.ip + |bytes|][i] == bytes[i];
    }
  }

  // JMP jumps; JZ pops and jumps exactly when the integer zero is popped, or nothing is there, which is an error.
  lemma Jumps(prog: seq<Byte>, c: Conf, lo: Byte, hi: Byte)
    requires Sane(c.m)
    ensures At(prog, c, [0x0D, lo, hi]) ==> StepConf(prog, c) == Conf(Target(c.ip, lo, hi), c.m)
    ensures At(prog, c, [0x0E, lo, hi]) && c.m.stack != [] ==>
      var top := |c.m.stack| - 1;
      StepConf(prog, c) == Conf(if c.m.stack[top] == Int(0) then Target(c.ip, lo, hi) else c.ip + 3, c.m.(stack := c.m.stack[..top]))
    ensures At(prog, c, [0x0E, lo, hi]) && c.m.stack == [] ==>
      StepConf(prog, c) == Conf(Target(c.ip, lo, hi), c.m.(error := true))
  {
    hide Exec, ReadStr, ReadInt;
    if At(prog, c, [0x0D, lo, hi]) { BytesAt(prog, c, [0x0D, lo, hi]); }
    if At(prog, c, [0x0E, lo, hi]) { BytesAt(prog, c, [0x0E, lo, hi]); }
  }

  // NOP and CALL move on; POP takes the top away or fails; the four opcodes that are not implemented fail.
  lemma Others(prog: seq<Byte>, c: Conf, lo: Byte, hi: Byte, op: Byte)
    requires Sane(c.m)
    ensures At(prog, c, [0x00]) ==> StepConf(prog, c) == Conf(c.ip + 1, c.m)
    ensures At(prog, c, [0x0C, lo, hi]) ==> StepConf(prog, c) == Conf(c.ip + 3, c.m)
    ensures At(prog, c, [0x0B]) && c.m.stack != [] ==>
      StepConf(prog, c) == Conf(c.ip + 1, c.m.(stack := c.m.stack[..|c.m.stack| - 1]))
    ensures At(prog, c, [0x0B]) && c.m.stack == [] ==> StepConf(prog, c).m == c.m.(error := true)
    ensures At(prog, c, [op]) && (0x05 <= op <= 0x08 || 0x0F <= op < 0xFF) ==> StepConf(prog, c).m == c.m.(error := true)
  {
    hide ReadStr, ReadInt;
    if At(prog, c, [0x00]) { BytesAt(prog, c, [0x00]); }
    if At(prog, c, [0x0B]) { BytesAt(prog, c, [0x0B]); }
    if At(prog, c, [0x0C, lo, hi]) { BytesAt(prog, c, [0x0C, lo, hi]); }
    if At(prog, c, [op]) { BytesAt(prog, c, [op]); }
  }

  // PUSH pushes the number its operand was made from.
  lemma PushSteps(prog: seq<Byte>, c: Conf, v: Int32)
    requires Sane(c.m) && At(prog, c, [0x0A] + EncodeInt(v)) && |c.m.stack| < 64
    ensures StepConf(prog, c) == Conf(c.ip + 6, c.m.(stack := c.m.stack + [Int(v)]))
  {
    hide ReadStr, ReadInt, EncodeInt;
    BytesAt(prog, c, [0x0A] + EncodeInt(v));
    assert prog[c.ip] == 0x0A;
    var before, rest := prog[..c.ip + 1], prog[c.ip + 6..];
    assert prog == before + EncodeInt(v) + rest by {
      assert prog[c.ip + 1..c.ip + 6] == prog[c.ip..c.ip + 6][1..] == EncodeInt(v);
    }
    IntRoundTrip(before, v, rest);
  }

  // ----- The bytes of a program

  // The calls of a program byte by byte: opcode, then operands; from 128 bytes on a string has a length of two bytes.
  lemma CallBytes(reg: Byte, mode: Byte, s: seq<Byte>)
    requires NulFree(s)
    ensures Encode(Close(reg)) == [0x02, reg] && Encode(Halt) == [0xFF]
    ensures |s| == 2 ==> Encode(Open(s, mode)) == [0x01, 2, s[0], s[1], mode]
    ensures |s| == 2 ==> Encode(Write(reg, s)) == [0x04, reg, 2, s[0], s[1]] && Encode(Ctl(reg, s)) == [0x09, reg, 2, s[0], s[1]]
    ensures |s| == 200 ==> Encode(Write(reg, s)) == [0x04, reg, 0x81, 72] + s
  {
    hide NulFree, EncodeStr;
    TextBytes(s);
    if |s| == 2 {
      assert [0x01] + [2, s[0], s[1]] + [mode] == [0x01, 2, s[0], s[1], mode];
      assert [0x04, reg] + [2, s[0], s[1]] == [0x04, reg, 2, s[0], s[1]];
      assert [0x09, reg] + [2, s[0], s[1]] == [0x09, reg, 2, s[0], s[1]];
    } else if |s| == 200 {
      assert [0x04, reg] + ([0x81, 72] + s) == [0x04, reg, 0x81, 72] + s;
    }
  }

  lemma TextBytes(s: seq<Byte>)
    ensures |s| == 2 ==> EncodeStr(s) == [2, s[0], s[1]]
    ensures |s| == 200 ==> EncodeStr(s) == [0x81, 72] + s
  {
  }

  lemma ReadBytes(reg: Byte)
    ensures Encode(Read(reg, -2)) == [0x03, reg, 0x80, 0xFE, 0xFF, 0xFF, 0xFF]
  {
    hide LeBytes;
    MinusTwo();
  }

  // Open, write and halt, with the header in front.
  lemma ProgramBytes()
    ensures
      var code := [Open([47, 120], 1), Write(0, [104, 105]), Halt];
      AllAssemble(code) &&
      Program(code) == [72, 65, 76, 66, 1, 1, 11, 0] + ([0x01, 2, 47, 120, 1] + ([0x04, 0, 2, 104, 105] + [0xFF]))
  {
    hide Encode;
    var code := [Open([47, 120], 1), Write(0, [104, 105]), Halt];
    CallBytes(0, 1, [47, 120]);
    CallBytes(0, 1, [104, 105]);
    assert code[1..][1..] == [Halt] && [Halt][1..] == [];
    assert EncodeAll([Halt]) == [0xFF];
    assert EncodeAll(code[1..]) == [0x04, 0, 2, 104, 105] + [0xFF];
  }

  lemma MinusTwo()
    ensures LeBytes(-2 % 0x1_0000_0000, 4) == [0xFE, 0xFF, 0xFF, 0xFF]
  {
    assert -2 % 0x1_0000_0000 == 0xFFFF_FFFE;
    assert LeBytes(0xFF, 1) == [0xFF];
    assert LeBytes(0xFFFF, 2) == [0xFF, 0xFF];
    assert LeBytes(0xFF_FFFF, 3) == [0xFF, 0xFF, 0xFF];
  }
}
