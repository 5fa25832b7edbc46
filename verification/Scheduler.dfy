/**
 The scheduler of kernel/sched.c: eight singly linked queues with tail pointers, one per priority
 level.  Picking takes the head of the best level whose head is ready and moves it to the tail.

 Class `Sched` holds the memory the processes live in, as a map from addresses to process records,
 and the head, tail and count arrays.  The ghost field `queues` lists the processes of each level;
 `IsSched` says that the pointers follow it.
 */
module Scheduler {
  import opened Arithmetic

  const SCHED_LEVELS := 8

  type Ref = nat
  const NULL: Ref := 0

  datatype ProcState = Running | Ready | Blocked | Zombie

  // The priority is a byte; 0 is the highest.
  datatype Proc = Proc(priority: nat, state: ProcState, waitPath: string, next: Ref)

  type Memory = map<Ref, Proc>
  type Queue = seq<Ref>

  // prio_level
  function Level(p: Proc): nat { p.priority * SCHED_LEVELS / 256 }

  // ----- Lists

  ghost predicate Distinct(q: Queue) {
    forall i, j | 0 <= i < j < |q| :: q[i] != q[j]
  }

  // The processes are distinct and linked in this order, from head to tail.
  ghost predicate IsList(mem: Memory, q: Queue, head: Ref, tail: Ref) {
    && Distinct(q) && (forall i | 0 <= i < |q| :: q[i] in mem && q[i] != NULL)
    && (forall i | 0 <= i < |q| - 1 :: mem[q[i]].next == q[i + 1])
    && (if q == [] then head == tail == NULL
        else head == q[0] && tail == q[|q| - 1] && mem[q[|q| - 1]].next == NULL)
  }

  function Rotate(q: Queue): (r: Queue)
    ensures |r| == |q| && multiset(r) == multiset(q)
  {
    if q == [] then []
    else
      assert q == [q[0]] + q[1..];
      q[1..] + [q[0]]
  }

  // The queue with the first occurrence of x left out.
  function Without(q: Queue, x: Ref): Queue {
    if q == [] then [] else if q[0] == x then q[1..] else [q[0]] + Without(q[1..], x)
  }

  lemma {:induction false} WithoutAt(q: Queue, i: nat)
    requires i < |q| && q[i] !in q[..i]
    ensures Without(q, q[i]) == q[..i] + q[i + 1..]
    decreases |q|
  {
    if i > 0 {
      assert q[0] in q[..i] && q[1..][..i - 1] == q[..i][1..];
      WithoutAt(q[1..], i - 1);
      assert q[..i] == [q[0]] + q[1..][..i - 1];
    } else {
      assert q[..0] + q[1..] == q[1..];
    }
  }

  // The lists of other processes do not see a write.
  lemma ListFrame(mem: Memory, mem': Memory, q: Queue, head: Ref, tail: Ref)
    requires IsList(mem, q, head, tail) && forall i | 0 <= i < |q| :: q[i] in mem' && mem'[q[i]].next == mem[q[i]].next
    ensures IsList(mem', q, head, tail)
  {
  }

  // Linking p behind the tail.
  ghost function AppendMem(mem: Memory, tail: Ref, p: Ref): Memory
    requires p in mem && (tail == NULL || tail in mem)
  {
    var m := mem[p := mem[p].(next := NULL)];
    if tail == NULL then m else m[tail := m[tail].(next := p)]
  }

  lemma AppendList(mem: Memory, q: Queue, head: Ref, tail: Ref, p: Ref)
    requires IsList(mem, q, head, tail) && p in mem && p != NULL && p !in q
    ensures tail == NULL || tail in mem
    ensures IsList(AppendMem(mem, tail, p), q + [p], if tail == NULL then p else head, p)
  {
  }

  lemma PopList(mem: Memory, q: Queue, head: Ref, tail: Ref)
    requires IsList(mem, q, head, tail) && q != []
    ensures var rest := mem[head].next;
      IsList(mem[head := mem[head].(next := NULL)], q[1..], rest, if rest == NULL then NULL else tail)
    ensures head == q[0] && head !in q[1..]
  {
  }

  // Taking the i-th process out of a list.
  ghost function UnlinkMem(mem: Memory, p: Ref, prev: Ref): Memory
    requires p in mem && (prev == NULL || prev in mem)
  {
    var m := if prev == NULL then mem else mem[prev := mem[prev].(next := mem[p].next)];
    m[p := m[p].(next := NULL)]
  }

  lemma UnlinkList(mem: Memory, q: Queue, head: Ref, tail: Ref, i: nat)
    requires IsList(mem, q, head, tail) && i < |q|
    ensures var p, prev := q[i], if i == 0 then NULL else q[i - 1];
      && p in mem && (prev == NULL || prev in mem)
      && IsList(UnlinkMem(mem, p, prev), q[..i] + q[i + 1..],
                if prev == NULL then mem[p].next else head, if tail == p then prev else tail)
  {
    var q' := q[..i] + q[i + 1..];
    assert forall j | 0 <= j < |q'| :: q'[j] == q[if j < i then j else j + 1];
  }

  // ----- All levels

  ghost function Total(queues: seq<Queue>): nat {
    if queues == [] then 0 else |queues[0]| + Total(queues[1..])
  }

  lemma {:induction false} TotalUpdate(queues: seq<Queue>, l: nat, q: Queue)
    requires l < |queues|
    ensures Total(queues[l := q]) == Total(queues) - |queues[l]| + |q|
    decreases |queues|
  {
    if l > 0 {
      TotalUpdate(queues[1..], l - 1, q);
      assert queues[l := q][1..] == queues[1..][l - 1 := q];
    } else {
      assert queues[0 := q][1..] == queues[1..];
    }
  }

  ghost predicate LevelOk(mem: Memory, q: Queue, head: Ref, tail: Ref, count: nat, l: nat) {
    IsList(mem, q, head, tail) && count == |q| && forall r <- q :: r in mem && Level(mem[r]) == l
  }

  ghost predicate IsSched(mem: Memory, heads: Queue, tails: Queue, counts: seq<nat>, total: nat, current: Ref, queues: seq<Queue>) {
    && |heads| == |tails| == |counts| == |queues| == SCHED_LEVELS
    && (forall l | 0 <= l < SCHED_LEVELS :: LevelOk(mem, queues[l], heads[l], tails[l], counts[l], l))
    && total == Total(queues)
    && NULL !in mem && (current == NULL || current in mem)
    && (forall r <- mem :: mem[r].state == Running ==> r == current)
  }

  ghost predicate Queued(queues: seq<Queue>, r: Ref) {
    exists l :: 0 <= l < |queues| && r in queues[l]
  }

  // mem' differs from mem only in the pointers of the processes of level l, and in states.
  ghost predicate OnlyLevel(mem: Memory, mem': Memory, l: nat) {
    && mem'.Keys == mem.Keys
    && forall r <- mem :: mem'[r].priority == mem[r].priority && (Level(mem[r]) != l ==> mem'[r].next == mem[r].next)
  }

  // A change to one level, seen from all of them.
  lemma ChangeLevel(mem: Memory, mem': Memory, heads: Queue, tails: Queue, counts: seq<nat>, total: nat, current: Ref, queues: seq<Queue>,
                    l: nat, q: Queue, head: Ref, tail: Ref, current': Ref)
    requires IsSched(mem, heads, tails, counts, total, current, queues) && l < SCHED_LEVELS && OnlyLevel(mem, mem', l)
    requires LevelOk(mem', q, head, tail, |q|, l)
    requires current' == NULL || current' in mem
    requires forall r <- mem' :: mem'[r].state == Running ==> r == current'
    ensures total + |q| >= |queues[l]|
    ensures IsSched(mem', heads[l := head], tails[l := tail], counts[l := |q|], total + |q| - |queues[l]|, current', queues[l := q])
  {
    hide IsList;
    TotalUpdate(queues, l, q);
    forall k | 0 <= k < SCHED_LEVELS && k != l
      ensures LevelOk(mem', queues[k], heads[k], tails[k], counts[k], k)
    {
      assert LevelOk(mem, queues[k], heads[k], tails[k], counts[k], k);
      assert forall i | 0 <= i < |queues[k]| :: queues[k][i] in queues[k];
      ListFrame(mem, mem', queues[k], heads[k], tails[k]);
    }
  }

  // A process is queued at the level of its priority or not at all.
  lemma QueuedAtLevel(mem: Memory, heads: Queue, tails: Queue, counts: seq<nat>, total: nat, current: Ref, queues: seq<Queue>, r: Ref)
    requires IsSched(mem, heads, tails, counts, total, current, queues) && r in mem
    ensures Queued(queues, r) <==> Level(mem[r]) < SCHED_LEVELS && r in queues[Level(mem[r])]
    ensures forall l | 0 <= l < SCHED_LEVELS && r in queues[l] :: l == Level(mem[r]) && exists i :: 0 <= i < |queues[l]| && queues[l][i] == r && r !in queues[l][..i] && r !in queues[l][i + 1..]
  {
    forall l | 0 <= l < SCHED_LEVELS && r in queues[l]
      ensures l == Level(mem[r]) && exists i :: 0 <= i < |queues[l]| && queues[l][i] == r && r !in queues[l][..i] && r !in queues[l][i + 1..]
    {
      assert LevelOk(mem, queues[l], heads[l], tails[l], counts[l], l);
      var i :| 0 <= i < |queues[l]| && queues[l][i] == r;
      assert r !in queues[l][..i] && r !in queues[l][i + 1..];
    }
  }

  lemma GetLevel(mem: Memory, heads: Queue, tails: Queue, counts: seq<nat>, total: nat, current: Ref, queues: seq<Queue>, l: nat)
    requires IsSched(mem, heads, tails, counts, total, current, queues) && l < SCHED_LEVELS
    ensures |heads| == |tails| == |counts| == |queues| == SCHED_LEVELS && NULL !in mem
    ensures LevelOk(mem, queues[l], heads[l], tails[l], counts[l], l) && counts[l] == |queues[l]|
    ensures forall r <- queues[l] :: r in mem && Level(mem[r]) == l
    ensures queues[l] == [] <==> heads[l] == NULL
    ensures queues[l] != [] ==> heads[l] == queues[l][0] && heads[l] in mem
    ensures tails[l] != NULL ==> tails[l] in queues[l] && tails[l] in mem
    ensures forall r <- mem :: mem[r].state == Running ==> r == current
    ensures current == NULL || current in mem
    ensures |queues[l]| <= total
  {
    hide Total;
    assert LevelOk(mem, queues[l], heads[l], tails[l], counts[l], l);
    TotalUpdate(queues, l, []);
  }

  lemma AppendLevel(mem: Memory, m: Memory, q: Queue, head: Ref, tail: Ref, p: Ref, l: nat)
    requires LevelOk(mem, q, head, tail, |q|, l) && p in mem && p != NULL && p !in q && Level(mem[p]) == l
    requires tail == NULL || tail in mem
    requires m == AppendMem(mem, tail, p)[p := AppendMem(mem, tail, p)[p].(state := Ready)]
    ensures OnlyLevel(mem, m, l) && LevelOk(m, q + [p], if tail == NULL then p else head, p, |q| + 1, l)
  {
    hide IsList;
    AppendList(mem, q, head, tail, p);
    TailInQueue(mem, q, head, tail);
    ListFrame(AppendMem(mem, tail, p), m, q + [p], if tail == NULL then p else head, p);
  }

  lemma UnlinkLevel(mem: Memory, q: Queue, head: Ref, tail: Ref, i: nat, l: nat)
    requires LevelOk(mem, q, head, tail, |q|, l) && i < |q|
    ensures var p, prev := q[i], if i == 0 then NULL else q[i - 1];
      && p in mem && (prev == NULL || prev in mem) && (i > 0 ==> prev != NULL)
      && OnlyLevel(mem, UnlinkMem(mem, p, prev), l)
      && LevelOk(UnlinkMem(mem, p, prev), q[..i] + q[i + 1..],
                 if prev == NULL then mem[p].next else head, if tail == p then prev else tail, |q| - 1, l)
      && forall r <- mem :: UnlinkMem(mem, p, prev)[r].state == mem[r].state
  {
    UnlinkList(mem, q, head, tail, i);
    assert q[i] in q && (i > 0 ==> q[i - 1] in q);
    assert forall r <- q[..i] + q[i + 1..] :: r in q;
  }

  lemma RotateList(mem: Memory, q: Queue, p: Ref, tail: Ref, l: nat)
    requires LevelOk(mem, q, p, tail, |q|, l) && q != [] && p in mem
    ensures var h := mem[p].next;
      var t, m := if h == NULL then NULL else tail, mem[p := mem[p].(next := NULL)];
      var m' := if t != NULL then m[t := m[t].(next := p)] else m;
      && p == q[0] && (t != NULL ==> t in m)
      && OnlyLevel(mem, m', l) && LevelOk(m', q[1..] + [p], if t == NULL then p else h, p, |q|, l)
      && forall r <- mem :: m'[r].state == mem[r].state
  {
    hide IsList;
    PopList(mem, q, p, tail);
    ListHead(mem, q, p, tail);
    var h := mem[p].next;
    var t, m := if h == NULL then NULL else tail, mem[p := mem[p].(next := NULL)];
    AppendList(m, q[1..], h, t, p);
    TailInQueue(m, q[1..], h, t);
    assert forall r <- q[1..] :: r in q;
    assert m[p := m[p].(next := NULL)] == m;
  }

  // ----- The scheduler

  // A pick takes from the first level whose head is ready.
  ghost predicate HeadReady(mem: Memory, q: Queue) { q != [] && q[0] in mem && mem[q[0]].state == Ready }

  ghost predicate PicksFrom(mem: Memory, queues: seq<Queue>, l: nat) {
    l < |queues| && HeadReady(mem, queues[l]) && forall k | 0 <= k < l :: !HeadReady(mem, queues[k])
  }

  ghost predicate SamePriorities(mem: Memory, mem': Memory) {
    mem'.Keys == mem.Keys && forall r <- mem :: mem'[r].priority == mem[r].priority
  }

  // What a caller sees between two calls.
  datatype State = State(mem: Memory, queues: seq<Queue>, current: Ref)

  // What one tick does: nothing, or a switch to the head of the level picked from, which moves to its tail.
  ghost predicate Ticks(a: State, b: State) { TickStep(a.mem, b.mem, a.queues, b.queues, a.current, b.current) }

  ghost predicate TickStep(mem: Memory, mem': Memory, queues: seq<Queue>, queues': seq<Queue>, current: Ref, current': Ref) {
    if exists l: nat :: PicksFrom(mem, queues, l) then
      exists l: nat :: PicksFrom(mem, queues, l) && queues' == queues[l := Rotate(queues[l])] && mem'.Keys == mem.Keys &&
        var next := queues[l][0];
        && current' == next
        && forall r <- mem :: mem'[r].state == if next == current then mem[r].state
                                               else if r == next then Running else if r == current then Ready else mem[r].state
    else mem' == mem && queues' == queues && current' == current
  }

  class Sched {
    var mem: Memory
    var heads: Queue
    var tails: Queue
    var counts: seq<nat>
    var total: nat
    var tick: nat
    var current: Ref            // g_current_proc
    ghost var queues: seq<Queue>

    ghost predicate Valid()
      reads this
    {
      IsSched(mem, heads, tails, counts, total, current, queues)
    }

    constructor (mem: Memory)
      requires NULL !in mem && forall r <- mem :: mem[r].state != Running
      ensures Valid() && this.mem == mem && total == 0 && current == NULL && forall r :: !Queued(queues, r)
    {
      this.mem := mem;
      heads, tails, counts := seq(SCHED_LEVELS, _ => NULL), seq(SCHED_LEVELS, _ => NULL), seq(SCHED_LEVELS, _ => 0);
      total, tick, current, queues := 0, 0, NULL, seq(SCHED_LEVELS, _ => []);
      new;
      EmptyTotal(queues);
    }

    // sched_add, of a process that is not queued
    method Add(p: Ref)
      requires Valid() && p in mem && mem[p].priority < 256 && !Queued(queues, p)
      modifies this`mem, this`heads, this`tails, this`counts, this`total, this`queues
      ensures Valid() && mem.Keys == old(mem).Keys
      ensures queues == old(queues)[Level(old(mem)[p]) := old(queues)[Level(old(mem)[p])] + [p]]
      ensures forall r <- mem :: mem[r].priority == old(mem)[r].priority && mem[r].state == if r == p then Ready else old(mem)[r].state
    {
      hide IsSched, IsList, LevelOk, OnlyLevel;
      var l := Level(mem[p]);
      GetLevel(mem, heads, tails, counts, total, current, queues, l);
      ghost var q := queues[l];
      var m := mem[p := mem[p].(next := NULL)];
      var t := tails[l];
      if t != NULL {
        m := m[t := m[t].(next := p)];
      }
      var h := if t == NULL then p else heads[l];
      m := m[p := m[p].(state := Ready)];
      assert p !in q by { assert !Queued(queues, p); }
      AppendLevel(mem, m, q, heads[l], t, p, l);
      ChangeLevel(mem, m, heads, tails, counts, total, current, queues, l, q + [p], h, p, current);
      mem, heads, tails := m, heads[l := h], tails[l := p];
      counts, total := counts[l := counts[l] + 1], total + 1;
      queues := queues[l := q + [p]];
    }

    // sched_remove
    method Remove(p: Ref)
      requires Valid() && p in mem && mem[p].priority < 256
      modifies this`mem, this`heads, this`tails, this`counts, this`total, this`queues
      ensures Valid() && mem.Keys == old(mem).Keys
      ensures queues == old(queues)[Level(old(mem)[p]) := Without(old(queues)[Level(old(mem)[p])], p)]
      ensures !Queued(queues, p)
      ensures forall r <- mem :: mem[r].priority == old(mem)[r].priority && mem[r].state == old(mem)[r].state
    {
      hide IsSched, IsList, LevelOk;
      var l := Level(mem[p]);
      GetLevel(mem, heads, tails, counts, total, current, queues, l);
      QueuedAtLevel(mem, heads, tails, counts, total, current, queues, p);
      var found, prev;
      ghost var i;
      found, prev, i := FindInLevel(l, p);
      if found {
        WithoutAt(queues[l], i);
        Unlink(l, p, prev, i);
        NotQueuedNow(old(mem), old(heads), old(tails), old(counts), old(total), current, old(queues), p, i);
      } else {
        WithoutAbsent(queues[l], p);
        assert queues[l := queues[l]] == queues;
      }
    }

    // The walk in sched_remove: whether p is in the list of level l, and the process before it.
    method FindInLevel(l: nat, p: Ref) returns (found: bool, prev: Ref, ghost i: nat)
      requires Valid() && l < SCHED_LEVELS && p != NULL
      ensures |queues| == SCHED_LEVELS && (found <==> p in queues[l])
      ensures found ==> i < |queues[l]| && queues[l][i] == p && p !in queues[l][..i] && prev == if i == 0 then NULL else queues[l][i - 1]
    {
      hide IsSched, IsList, LevelOk;
      GetLevel(mem, heads, tails, counts, total, current, queues, l);
      ghost var q := queues[l];
      var cur := heads[l];
      prev, i := NULL, 0;
      while cur != NULL
        invariant i <= |q| && cur == (if i < |q| then q[i] else NULL)
        invariant prev == (if i == 0 then NULL else q[i - 1]) && p !in q[..i]
        decreases |q| - i
      {
        NextInLevel(mem, q, heads[l], tails[l], counts[l], l, i);
        if cur == p { return true, prev, i; }
        PrefixNext(q, i);
        prev, cur, i := cur, mem[cur].next, i + 1;
      }
      assert q[..i] == q;
      return false, prev, i;
    }

    // The relinking in sched_remove, once the process has been found as number i of its list.
    method Unlink(l: nat, p: Ref, prev: Ref, ghost i: nat)
      requires Valid() && p in mem && l == Level(mem[p]) && l < SCHED_LEVELS
      requires i < |queues[l]| && queues[l][i] == p && prev == if i == 0 then NULL else queues[l][i - 1]
      modifies this`mem, this`heads, this`tails, this`counts, this`total, this`queues
      ensures Valid() && mem.Keys == old(mem).Keys
      ensures queues == old(queues)[l := old(queues)[l][..i] + old(queues)[l][i + 1..]]
      ensures forall r <- mem :: mem[r].priority == old(mem)[r].priority && mem[r].state == old(mem)[r].state
    {
      hide IsSched, IsList, LevelOk, OnlyLevel;
      GetLevel(mem, heads, tails, counts, total, current, queues, l);
      ghost var q := queues[l];
      UnlinkLevel(mem, q, heads[l], tails[l], i, l);
      var h := if prev != NULL then heads[l] else mem[p].next;
      var m := if prev != NULL then mem[prev := mem[prev].(next := mem[p].next)] else mem;
      var t := if tails[l] == p then prev else tails[l];
      m := m[p := m[p].(next := NULL)];
      ChangeLevel(mem, m, heads, tails, counts, total, current, queues, l, q[..i] + q[i + 1..], h, t, current);
      mem, heads, tails := m, heads[l := h], tails[l := t];
      counts, total := counts[l := counts[l] - 1], total - 1;
      queues := queues[l := q[..i] + q[i + 1..]];
    }

    // sched_pick_next
    method PickNext() returns (picked: Ref)
      requires Valid()
      modifies this`mem, this`heads, this`tails, this`queues
      ensures Valid() && mem.Keys == old(mem).Keys
      ensures forall r <- mem :: mem[r].priority == old(mem)[r].priority && mem[r].state == old(mem)[r].state
      ensures picked == NULL ==> mem == old(mem) && queues == old(queues) && forall l: nat :: !PicksFrom(mem, queues, l)
      ensures picked != NULL ==> exists l: nat :: PicksFrom(old(mem), old(queues), l) && picked == old(queues)[l][0]
                                          && queues == old(queues)[l := Rotate(old(queues)[l])]
    {
      hide IsSched, IsList, LevelOk;
      GetLevel(mem, heads, tails, counts, total, current, queues, 0);
      for l := 0 to SCHED_LEVELS
        invariant Valid() && mem == old(mem) && queues == old(queues) && heads == old(heads) && tails == old(tails)
        invariant forall k | 0 <= k < l :: !HeadReady(mem, queues[k])
      {
        GetLevel(mem, heads, tails, counts, total, current, queues, l);
        if heads[l] != NULL && mem[heads[l]].state == Ready {
          assert PicksFrom(mem, queues, l);
          picked := RotateLevel(l);
          return;
        }
      }
      return NULL;
    }

    method RotateLevel(l: nat) returns (p: Ref)
      requires Valid() && l < SCHED_LEVELS && queues[l] != []
      modifies this`mem, this`heads, this`tails, this`queues
      ensures Valid() && mem.Keys == old(mem).Keys && p == old(queues)[l][0] && p != NULL
      ensures queues == old(queues)[l := Rotate(old(queues)[l])]
      ensures forall r <- mem :: mem[r].priority == old(mem)[r].priority && mem[r].state == old(mem)[r].state
    {
      hide IsSched, IsList, LevelOk, OnlyLevel;
      GetLevel(mem, heads, tails, counts, total, current, queues, l);
      ghost var q := queues[l];
      p := heads[l];
      var h := mem[p].next;
      var t := if h == NULL then NULL else tails[l];
      var m := mem[p := mem[p].(next := NULL)];
      RotateList(mem, q, p, tails[l], l);
      if t != NULL {
        m := m[t := m[t].(next := p)];
      } else {
        h := p;
      }
      ChangeLevel(mem, m, heads, tails, counts, total, current, queues, l, q[1..] + [p], h, p, current);
      assert counts[l := |q|] == counts;
      mem, heads, tails := m, heads[l := h], tails[l := p];
      queues := queues[l := q[1..] + [q[0]]];
    }

    // sched_tick, without the publication to the registry and the context switch
    method Tick()
      requires Valid()
      modifies this`mem, this`heads, this`tails, this`queues, this`tick, this`current
      ensures Valid() && tick == old(tick) + 1 && SamePriorities(old(mem), mem)
      ensures TickStep(old(mem), mem, old(queues), queues, old(current), current)
      ensures current != old(current) ==>
        && current in mem && mem[current].state == Running && old(mem)[current].state == Ready
        && (old(current) != NULL ==> mem[old(current)].state == Ready)
      ensures forall r <- mem :: mem[r].state == Running ==> r == current
    {
      hide IsList, LevelOk, IsSched;
      GetLevel(mem, heads, tails, counts, total, current, queues, 0);
      tick := tick + 1;
      var next := PickNext();
      PickUnique(old(mem), old(queues));
      GetLevel(mem, heads, tails, counts, total, current, queues, 0);
      if next == NULL || next == current { return; }
      var prev := current;
      var m := mem[next := mem[next].(state := Running)];
      if prev != NULL {
        m := m[prev := m[prev].(state := Ready)];
      }
      StatesOnly(mem, m, heads, tails, counts, total, current, queues, next);
      current, mem := next, m;
    }

    ghost function Now(): State
      reads this
    {
      State(mem, queues, current)
    }

    // As many ticks as asked for, with the process current after each of them.
    method TickMany(n: nat) returns (dispatched: seq<Ref>, ghost states: seq<State>)
      requires Valid()
      modifies this`mem, this`heads, this`tails, this`queues, this`tick, this`current
      ensures Valid() && tick == old(tick) + n && |dispatched| == n
      ensures |states| == n + 1 && states[0] == old(Now()) && states[n] == Now() && TickTrace(states)
      ensures forall k | 0 <= k < n :: dispatched[k] == states[k + 1].current
    {
      hide IsSched, TickStep, SamePriorities;
      dispatched, states := [], [Now()];
      for k := 0 to n
        invariant Valid() && tick == old(tick) + k && |dispatched| == k
        invariant |states| == k + 1 && states[0] == old(Now()) && states[k] == Now() && TickTrace(states)
        invariant forall i | 0 <= i < k :: dispatched[i] == states[i + 1].current
      {
        Tick();
        assert Ticks(states[k], Now());
        dispatched, states := dispatched + [current], states + [Now()];
      }
    }

    // One round: as many ticks as the best non-empty level has processes, none of which is blocked.
    method Round(l: nat) returns (dispatched: seq<Ref>, ghost states: seq<State>)
      requires Valid() && InRotation(mem, queues, current, l)
      modifies this`mem, this`heads, this`tails, this`queues, this`tick, this`current
      ensures Valid() && tick == old(tick) + |dispatched|
      ensures |states| == |dispatched| + 1 && states[0] == old(Now()) && states[|dispatched|] == Now() && TickTrace(states)
      ensures forall k | 0 <= k < |dispatched| :: dispatched[k] == states[k + 1].current
      ensures dispatched == old(queues)[l] && queues == old(queues) && InRotation(mem, queues, current, l)
    {
      hide IsSched, IsList, LevelOk, InRotation, TickTrace;
      GetLevel(mem, heads, tails, counts, total, current, queues, 0);
      RotationLevel(mem, queues, current, l);
      GetLevel(mem, heads, tails, counts, total, current, queues, l);
      dispatched, states := TickMany(counts[l]);
      RoundOf(states, l, dispatched);
    }

    // sched_unblock_waiting
    method UnblockWaiting(path: string)
      requires Valid()
      modifies this`mem
      ensures Valid() && mem.Keys == old(mem).Keys
      ensures forall r <- mem :: mem[r] == if Queued(queues, r) then Woken(old(mem)[r], path) else old(mem)[r]
      ensures forall r <- mem ::
                var wakes := Queued(queues, r) && old(mem)[r].state == Blocked && old(mem)[r].waitPath == path;
                mem[r].state == (if wakes then Ready else old(mem)[r].state) && mem[r].waitPath == if wakes then "" else old(mem)[r].waitPath
    {
      hide IsSched, IsList, LevelOk;
      GetLevel(mem, heads, tails, counts, total, current, queues, 0);
      for l := 0 to SCHED_LEVELS
        invariant Valid() && mem.Keys == old(mem).Keys
        invariant forall r <- mem :: mem[r] == if Queued(queues[..l], r) then Woken(old(mem)[r], path) else old(mem)[r]
      {
        GetLevel(mem, heads, tails, counts, total, current, queues, l);
        WakeLevel(l, path);
        forall r | r in mem ensures Queued(queues[..l + 1], r) <==> Queued(queues[..l], r) || r in queues[l] {
          QueuedNext(queues, l, r);
        }
      }
      assert queues[..SCHED_LEVELS] == queues;
    }

    // The inner loop of sched_unblock_waiting.
    method WakeLevel(l: nat, path: string)
      requires Valid() && l < SCHED_LEVELS
      modifies this`mem
      ensures Valid() && mem.Keys == old(mem).Keys
      ensures forall r <- mem :: mem[r] == if l < |queues| && r in queues[l] then Woken(old(mem)[r], path) else old(mem)[r]
    {
      hide IsSched, IsList, LevelOk, Level, WokenIn;
      GetLevel(mem, heads, tails, counts, total, current, queues, l);
      WakeNone(mem, path);
      ghost var q, i := queues[l], 0;
      var p := heads[l];
      while p != NULL
        invariant Valid() && mem.Keys == old(mem).Keys
        invariant i <= |q| && p == (if i < |q| then q[i] else NULL)
        invariant WokenIn(old(mem), mem, q[..i], path)
        decreases |q| - i
      {
        GetLevel(mem, heads, tails, counts, total, current, queues, l);
        NextInLevel(mem, q, heads[l], tails[l], counts[l], l, i);
        var m := if mem[p].state == Blocked && mem[p].waitPath == path
                 then mem[p := mem[p].(state := Ready, waitPath := "")] else mem;
        WakeOne(old(mem), mem, m, q, i, path);
        StatesOnly(mem, m, heads, tails, counts, total, current, queues, current);
        mem := m;
        p := mem[p].next;
        i := i + 1;
      }
      assert q[..i] == q;
      WakeAll(old(mem), mem, q, path);
    }
  }

  lemma WakeNone(mem: Memory, path: string)
    ensures forall q: Queue :: WokenIn(mem, mem, q[..0], path)
  {
  }

  lemma WakeAll(mem0: Memory, mem: Memory, q: Queue, path: string)
    requires WokenIn(mem0, mem, q, path)
    ensures forall r <- mem :: r in mem0 && mem[r] == if r in q then Woken(mem0[r], path) else mem0[r]
  {
  }

  // Exactly the processes of q have been looked at.
  ghost predicate WokenIn(mem0: Memory, mem: Memory, q: Queue, path: string) {
    mem.Keys == mem0.Keys && forall r <- mem :: mem[r] == if r in q then Woken(mem0[r], path) else mem0[r]
  }

  lemma WakeOne(mem0: Memory, mem: Memory, m: Memory, q: Queue, i: nat, path: string)
    requires i < |q| && WokenIn(mem0, mem, q[..i], path) && q[i] in mem && q[i] !in q[..i]
    requires m == if mem[q[i]].state == Blocked && mem[q[i]].waitPath == path
                  then mem[q[i] := mem[q[i]].(state := Ready, waitPath := "")] else mem
    ensures WokenIn(mem0, m, q[..i + 1], path)
    ensures m.Keys == mem.Keys && m[q[i]].next == mem[q[i]].next
    ensures forall r <- mem :: m[r].priority == mem[r].priority && m[r].next == mem[r].next
    ensures forall r <- m :: m[r].state == Running ==> mem[r].state == Running
  {
    PrefixNext(q, i);
  }

  lemma PrefixNext(q: Queue, i: nat)
    requires i < |q|
    ensures forall r :: r in q[..i + 1] <==> r in q[..i] || r == q[i]
  {
    assert q[..i + 1] == q[..i] + [q[i]];
  }

  // What unblocking does to a queued process.
  function Woken(p: Proc, path: string): Proc {
    if p.state == Blocked && p.waitPath == path then p.(state := Ready, waitPath := "") else p
  }

  lemma QueuedNext(queues: seq<Queue>, l: nat, r: Ref)
    requires l < |queues|
    ensures Queued(queues[..l + 1], r) <==> Queued(queues[..l], r) || r in queues[l]
  {
    if Queued(queues[..l], r) {
      var k :| 0 <= k < l && r in queues[..l][k];
      assert r in queues[..l + 1][k];
    }
    if r in queues[l] {
      assert r in queues[..l + 1][l];
    }
    if Queued(queues[..l + 1], r) && r !in queues[l] {
      var k :| 0 <= k < l + 1 && r in queues[..l + 1][k];
      assert r in queues[..l][k];
    }
  }

  lemma NextInLevel(mem: Memory, q: Queue, head: Ref, tail: Ref, count: nat, l: nat, i: nat)
    requires LevelOk(mem, q, head, tail, count, l) && i < |q|
    ensures q[i] in mem && q[i] !in q[..i] && mem[q[i]].next == if i + 1 < |q| then q[i + 1] else NULL
    ensures forall j | 0 <= j < |q| :: q[j] != NULL
  {
  }

  // The situation in which level l takes turns: it is the best non-empty level, it has at least two
  // processes, none of them is blocked, and the running process is not at its head.
  ghost predicate InRotation(mem: Memory, queues: seq<Queue>, current: Ref, l: nat) {
    && l < |queues| && |queues[l]| >= 2 && (forall k | 0 <= k < l :: queues[k] == [])
    && queues[l][0] != current
    && (forall r <- queues[l] :: r in mem && (mem[r].state == Ready || r == current))
    && (forall i, j | 0 <= i < j < |queues[l]| :: queues[l][i] != queues[l][j])
  }

  // In rotation, a tick switches to the head of the level and leaves the level in rotation.
  lemma RotationStep(mem: Memory, mem': Memory, queues: seq<Queue>, queues': seq<Queue>, current: Ref, current': Ref, l: nat)
    requires InRotation(mem, queues, current, l) && TickStep(mem, mem', queues, queues', current, current')
    ensures current' == queues[l][0] && queues' == queues[l := Rotate(queues[l])] && InRotation(mem', queues', current', l)
  {
    PickUnique(mem, queues);
    assert queues[l][0] in queues[l];
    assert PicksFrom(mem, queues, l);
    var q := queues[l];
    assert Rotate(q) == q[1..] + [q[0]];
    forall r | r in Rotate(q) ensures r in q { assert multiset(q)[r] > 0; }
  }

  lemma RotationLevel(mem: Memory, queues: seq<Queue>, current: Ref, l: nat)
    requires InRotation(mem, queues, current, l)
    ensures l < |queues| && queues[l] != []
  {
  }

  // Every next state is one tick after the state before it.
  ghost predicate TickTrace(states: seq<State>) {
    forall k {:trigger Ticks(states[k], states[k + 1])} | 0 <= k < |states| - 1 :: Ticks(states[k], states[k + 1])
  }

  // The queue with its first k % |q| processes moved to the end.
  function Turned(q: Queue, k: nat): Queue
    requires q != []
  {
    q[k % |q|..] + q[..k % |q|]
  }

  lemma TurnedOnce(q: Queue, k: nat)
    requires q != []
    ensures Rotate(Turned(q, k)) == Turned(q, k + 1) && Turned(q, k)[0] == q[k % |q|]
  {
    var n, i := |q|, k % |q|;
    TurnAt(q, i);
    if i + 1 < n { DivModUnique(k + 1, n, k / n, i + 1); } else { DivModUnique(k + 1, n, k / n + 1, 0); }
  }

  lemma TurnAt(q: Queue, i: nat)
    requires i < |q|
    ensures (q[i..] + q[..i])[0] == q[i]
    ensures Rotate(q[i..] + q[..i]) == if i + 1 < |q| then q[i + 1..] + q[..i + 1] else q[0..] + q[..0]
  {
    var t := q[i..] + q[..i];
    assert t[0] == q[i] && t[1..] == q[i + 1..] + q[..i];
    assert q[..i] + [q[i]] == q[..i + 1];
  }

  lemma TurnedWhole(q: Queue)
    requires q != []
    ensures Turned(q, 0) == q && Turned(q, |q|) == q && forall k | 0 <= k < |q| :: k % |q| == k
  {
    DivModUnique(|q|, |q|, 1, 0);
    forall k | 0 <= k < |q| ensures k % |q| == k { DivModUnique(k, |q|, 0, k); }
  }

  /**
   * While nothing blocks, ticks go round the best non-empty level for ever: the process current
   * after tick k + 1 is number k of the level, counted modulo its length, and no other level moves.
   */
  lemma {:induction false} RotationTrace(states: seq<State>, l: nat, k: nat)
    requires 0 < |states| && k < |states| && TickTrace(states) && InRotation(states[0].mem, states[0].queues, states[0].current, l)
    ensures l < |states[0].queues| && states[0].queues[l] != []
    ensures
      var q := states[0].queues[l];
      && states[k].queues == states[0].queues[l := Turned(q, k)]
      && InRotation(states[k].mem, states[k].queues, states[k].current, l)
      && (k > 0 ==> states[k].current == q[(k - 1) % |q|])
  {
    hide Turned, TickStep, Rotate, InRotation;
    RotationLevel(states[0].mem, states[0].queues, states[0].current, l);
    var q := states[0].queues[l];
    TurnedWhole(q);
    if k == 0 {
      assert states[0].queues[l := q] == states[0].queues;
    } else {
      var i := k - 1;
      RotationTrace(states, l, i);
      var a, b := states[i], states[i + 1];
      assert Ticks(states[i], states[i + 1]);
      RotationStep(a.mem, b.mem, a.queues, b.queues, a.current, b.current, l);
      TurnedOnce(q, k - 1);
    }
  }

  // As many ticks as the level has processes.
  lemma RoundOf(states: seq<State>, l: nat, dispatched: seq<Ref>)
    requires 0 < |states| && TickTrace(states) && InRotation(states[0].mem, states[0].queues, states[0].current, l)
    requires l < |states[0].queues| && |dispatched| == |states[0].queues[l]| == |states| - 1
    requires forall k | 0 <= k < |dispatched| :: dispatched[k] == states[k + 1].current
    ensures
      var end := states[|dispatched|];
      dispatched == states[0].queues[l] && end.queues == states[0].queues && InRotation(end.mem, end.queues, end.current, l)
  {
    hide TickTrace, Rotate, Turned, InRotation;
    var q := states[0].queues[l];
    RotationLevel(states[0].mem, states[0].queues, states[0].current, l);
    TurnedWhole(q);
    forall k | 0 <= k < |q| ensures dispatched[k] == q[k] {
      RotationTrace(states, l, k + 1);
    }
    RotationTrace(states, l, |q|);
    assert states[0].queues[l := q] == states[0].queues;
  }

  /**
   * Fair turns: in any n consecutive ticks, wherever they begin, every process of a level of n is
   * dispatched exactly once.
   */
  lemma EveryWindowDispatchesAll(states: seq<State>, l: nat, start: nat, i: nat)
    requires 0 < |states| && TickTrace(states) && InRotation(states[0].mem, states[0].queues, states[0].current, l)
    requires l < |states[0].queues| && i < |states[0].queues[l]| && start + |states[0].queues[l]| < |states|
    ensures exists k :: start < k <= start + |states[0].queues[l]| && states[k].current == states[0].queues[l][i]
    ensures forall j, k | start < j < k <= start + |states[0].queues[l]| :: states[j].current != states[k].current
  {
    hide TickTrace, TickStep, Rotate;
    var q := states[0].queues[l];
    var n := |q|;
    var k := SlotInWindow(n, start, i);
    RotationTrace(states, l, k + 1);
    assert states[k + 1].current == q[i];
    forall j, m | start < j < m <= start + n ensures states[j].current != states[m].current {
      RotationTrace(states, l, j);
      RotationTrace(states, l, m);
      DifferentSlots(n, j - 1, m - 1);
    }
  }

  lemma SlotInWindow(n: nat, start: nat, i: nat) returns (k: nat)
    requires i < n
    ensures start <= k < start + n && k % n == i
  {
    var r := start % n;
    k := if i >= r then start + i - r else start + n + i - r;
    DivModUnique(k, n, if i >= r then start / n else start / n + 1, i);
  }

  lemma DifferentSlots(n: nat, j: nat, k: nat)
    requires n > 0 && j < k < j + n
    ensures j % n != k % n
  {
    if j % n == k % n {
      assert k - j == n * (k / n - j / n);
      MulBound(n, k / n - j / n);
    }
  }

  lemma {:induction false} EmptyTotal(queues: seq<Queue>)
    requires forall i | 0 <= i < |queues| :: queues[i] == []
    ensures Total(queues) == 0
    decreases |queues|
  {
    if queues != [] {
      EmptyTotal(queues[1..]);
    }
  }

  lemma {:induction false} WithoutAbsent(q: Queue, x: Ref)
    requires x !in q
    ensures Without(q, x) == q
    decreases |q|
  {
    if q != [] {
      WithoutAbsent(q[1..], x);
    }
  }

  lemma TailInQueue(mem: Memory, q: Queue, head: Ref, tail: Ref)
    requires IsList(mem, q, head, tail)
    ensures tail != NULL ==> tail in q
  {
  }

  lemma ListHead(mem: Memory, q: Queue, head: Ref, tail: Ref)
    requires IsList(mem, q, head, tail)
    ensures q == [] <==> head == NULL
    ensures q != [] ==> head == q[0] && head in mem
  {
  }

  lemma NotQueuedNow(mem: Memory, heads: Queue, tails: Queue, counts: seq<nat>, total: nat, current: Ref, queues: seq<Queue>, p: Ref, i: nat)
    requires IsSched(mem, heads, tails, counts, total, current, queues) && p in mem
    requires var l := Level(mem[p]); l < SCHED_LEVELS && i < |queues[l]| && queues[l][i] == p
    ensures var l := Level(mem[p]); !Queued(queues[l := queues[l][..i] + queues[l][i + 1..]], p)
  {
    var l := Level(mem[p]);
    assert LevelOk(mem, queues[l], heads[l], tails[l], counts[l], l);
    QueuedAtLevel(mem, heads, tails, counts, total, current, queues, p);
  }

  lemma PickUnique(mem: Memory, queues: seq<Queue>)
    ensures forall k: nat, l: nat | PicksFrom(mem, queues, k) && PicksFrom(mem, queues, l) :: k == l
  {
  }

  // Changing states and the current process keeps the queues.
  lemma StatesOnly(mem: Memory, mem': Memory, heads: Queue, tails: Queue, counts: seq<nat>, total: nat, current: Ref, queues: seq<Queue>, current': Ref)
    requires IsSched(mem, heads, tails, counts, total, current, queues)
    requires mem'.Keys == mem.Keys && forall r <- mem :: mem'[r].priority == mem[r].priority && mem'[r].next == mem[r].next
    requires current' == NULL || current' in mem
    requires forall r <- mem' :: mem'[r].state == Running ==> r == current'
    ensures IsSched(mem', heads, tails, counts, total, current', queues)
  {
    hide IsList;
    forall k | 0 <= k < SCHED_LEVELS ensures LevelOk(mem', queues[k], heads[k], tails[k], counts[k], k) {
      assert LevelOk(mem, queues[k], heads[k], tails[k], counts[k], k);
      assert forall i | 0 <= i < |queues[k]| :: queues[k][i] in queues[k];
      ListFrame(mem, mem', queues[k], heads[k], tails[k]);
    }
  }
}
