/**
 Whole runs of the scheduler: any sequence of adding unqueued processes, removing, picking, ticking
 and unblocking.  No process is lost or queued twice, and the total counts the queued ones.
 */
module SchedulerRuns {
  import opened Scheduler

  datatype Op = Add(p: Ref) | Remove(p: Ref) | Pick | Tick | Unblock(path: string)

  ghost function Members(st: State): set<Ref> { QueuedIn(st.mem, st.queues) }

  ghost predicate SameStates(a: State, b: State) {
    b.mem.Keys == a.mem.Keys && forall r <- a.mem :: b.mem[r].priority == a.mem[r].priority && b.mem[r].state == a.mem[r].state
  }

  // A pick takes the head of the first level whose head is ready and rotates that level by one; it
  // finds nothing, and changes nothing, exactly when no head is ready.
  ghost predicate PickStep(a: State, picked: Ref, b: State) {
    && SameStates(a, b) && b.current == a.current
    && if picked == NULL then b == a && forall l: nat :: !PicksFrom(a.mem, a.queues, l)
       else exists l: nat :: PicksFrom(a.mem, a.queues, l) && picked == a.queues[l][0] && b.queues == a.queues[l := Rotate(a.queues[l])]
  }

  // One call, on queues as plain sequences; only a pick returns a process.
  ghost predicate Step(a: State, op: Op, picked: Ref, b: State) {
    SamePriorities(a.mem, b.mem) && (!op.Pick? ==> picked == NULL) &&
    match op
    case Add(p) =>
      && p in a.mem && Level(a.mem[p]) < |a.queues| && b.current == a.current
      && b.queues == a.queues[Level(a.mem[p]) := a.queues[Level(a.mem[p])] + [p]]
      && forall r <- a.mem :: b.mem[r].state == if r == p then Ready else a.mem[r].state
    case Remove(p) =>
      && p in a.mem && Level(a.mem[p]) < |a.queues| && SameStates(a, b) && b.current == a.current
      && b.queues == a.queues[Level(a.mem[p]) := Without(a.queues[Level(a.mem[p])], p)] && !Queued(b.queues, p)
    case Pick => PickStep(a, picked, b)
    case Tick => Ticks(a, b)
    case Unblock(path) =>
      && b.queues == a.queues && b.current == a.current
      && forall r <- a.mem :: b.mem[r] == if Queued(a.queues, r) then Woken(a.mem[r], path) else a.mem[r]
  }

  // The queued processes after one call.
  ghost function After(queued: set<Ref>, op: Op): set<Ref> {
    match op
    case Add(p) => queued + {p}
    case Remove(p) => queued - {p}
    case _ => queued
  }

  ghost function AfterAll(queued: set<Ref>, ops: seq<Op>): set<Ref> {
    if ops == [] then queued else After(AfterAll(queued, ops[..|ops| - 1]), ops[|ops| - 1])
  }

  // Known processes, and nothing is added that is queued already.
  ghost predicate Admissible(procs: set<Ref>, queued: set<Ref>, op: Op) {
    match op
    case Add(p) => p in procs && p !in queued
    case Remove(p) => p in procs
    case _ => true
  }

  // ----- Which processes are queued

  lemma SameMembers(queues: seq<Queue>, l: nat, q: Queue, r: Ref)
    requires l < |queues| && (r in q <==> r in queues[l])
    ensures Queued(queues[l := q], r) <==> Queued(queues, r)
  {
    var queues' := queues[l := q];
    if Queued(queues, r) {
      var k :| 0 <= k < |queues| && r in queues[k];
      assert r in queues'[k];
    }
    if Queued(queues', r) {
      var k :| 0 <= k < |queues'| && r in queues'[k];
      assert r in queues[k];
    }
  }

  lemma {:induction false} WithoutOthers(q: Queue, p: Ref, r: Ref)
    requires r != p
    ensures r in Without(q, p) <==> r in q
  {
    if q != [] && q[0] != p { WithoutOthers(q[1..], p, r); }
  }

  lemma RotateMembers(q: Queue, r: Ref)
    ensures r in Rotate(q) <==> r in q
  {
    hide Rotate;
    assert multiset(Rotate(q))[r] == multiset(q)[r];
  }

  lemma StepMembers(a: State, op: Op, picked: Ref, b: State, r: Ref)
    requires Step(a, op, picked, b) && r in a.mem
    ensures Queued(b.queues, r) <==> r in After(Members(a), op)
  {
    hide Rotate, Without, Level, Queued, PicksFrom, Woken;
    match op
    case Add(p) =>
      var l := Level(a.mem[p]);
      if r == p { AddedIsQueued(a.queues, l, p); } else { SameMembers(a.queues, l, a.queues[l] + [p], r); }
    case Remove(p) =>
      var l := Level(a.mem[p]);
      if r != p {
        WithoutOthers(a.queues[l], p, r);
        SameMembers(a.queues, l, Without(a.queues[l], p), r);
      }
    case Pick => RotatedMembers(a.mem, a.queues, b.queues, r);
    case Tick => RotatedMembers(a.mem, a.queues, b.queues, r);
    case Unblock(_) =>
  }

  lemma AddedIsQueued(queues: seq<Queue>, l: nat, p: Ref)
    requires l < |queues|
    ensures Queued(queues[l := queues[l] + [p]], p)
  {
    assert p in queues[l := queues[l] + [p]][l];
  }

  lemma RotatedMembers(mem: Memory, queues: seq<Queue>, queues': seq<Queue>, r: Ref)
    requires queues' == queues || exists l: nat :: PicksFrom(mem, queues, l) && queues' == queues[l := Rotate(queues[l])]
    ensures Queued(queues', r) <==> Queued(queues, r)
  {
    hide Rotate, Queued;
    if queues' != queues {
      var l: nat :| PicksFrom(mem, queues, l) && queues' == queues[l := Rotate(queues[l])];
      RotateMembers(queues[l], r);
      SameMembers(queues, l, Rotate(queues[l]), r);
    }
  }

  // ----- The total is the number of queued processes

  lemma {:induction false} TotalLast(queues: seq<Queue>)
    requires queues != []
    ensures Total(queues) == Total(queues[..|queues| - 1]) + |queues[|queues| - 1]|
  {
    if |queues| > 1 {
      TotalLast(queues[1..]);
      assert queues[1..][..|queues| - 2] == queues[..|queues| - 1][1..];
    } else {
      assert queues[..0] == [];
    }
  }

  ghost function Elements(q: Queue): set<Ref> { set r | r in q }

  lemma {:induction false} DistinctCount(q: Queue)
    requires Distinct(q)
    ensures |Elements(q)| == |q|
  {
    if q != [] {
      var n := |q| - 1;
      DistinctCount(q[..n]);
      assert q[n] !in q[..n];
      assert Elements(q) == Elements(q[..n]) + {q[n]};
    }
  }

  ghost function QueuedIn(mem: Memory, queues: seq<Queue>): set<Ref> { set r | r in mem && Queued(queues, r) }

  // Every level is a list of distinct processes of that level.
  ghost predicate Sorted(mem: Memory, queues: seq<Queue>) {
    forall l | 0 <= l < |queues| :: Distinct(queues[l]) && forall r <- queues[l] :: r in mem && Level(mem[r]) == l
  }

  lemma {:induction false} CountLevels(mem: Memory, queues: seq<Queue>)
    requires Sorted(mem, queues)
    ensures |QueuedIn(mem, queues)| == Total(queues)
  {
    if queues == [] {
      assert QueuedIn(mem, queues) == {};
    } else {
      var n := |queues| - 1;
      TotalLast(queues);
      LowerLevels(mem, queues);
      CountLevels(mem, queues[..n]);
      DistinctCount(queues[n]);
    }
  }

  // The best levels and the last one share no process.
  lemma LowerLevels(mem: Memory, queues: seq<Queue>)
    requires Sorted(mem, queues) && queues != []
    ensures
      var n := |queues| - 1;
      var last := Elements(queues[n]);
      && Sorted(mem, queues[..n]) && Distinct(queues[n])
      && QueuedIn(mem, queues) == QueuedIn(mem, queues[..n]) + last && QueuedIn(mem, queues[..n]) !! last
  {
    hide Level, Queued;
    var n := |queues| - 1;
    assert queues[..n + 1] == queues;
    forall r ensures Queued(queues, r) <==> Queued(queues[..n], r) || r in queues[n] { QueuedNext(queues, n, r); }
    forall r | Queued(queues[..n], r) ensures r !in queues[n] { LowerLevel(mem, queues, n, r); }
  }

  lemma LowerLevel(mem: Memory, queues: seq<Queue>, n: nat, r: Ref)
    requires n < |queues| && Queued(queues[..n], r) && Sorted(mem, queues)
    ensures r !in queues[n]
  {
    hide Level;
    var k :| 0 <= k < n && r in queues[..n][k];
    assert r in queues[k];
  }

  lemma TotalCounts(s: Sched)
    requires s.Valid()
    ensures s.total == |Members(s.Now())|
  {
    hide Level;
    forall l | 0 <= l < |s.queues|
      ensures Distinct(s.queues[l]) && forall r <- s.queues[l] :: r in s.mem && Level(s.mem[r]) == l
    {
      assert LevelOk(s.mem, s.queues[l], s.heads[l], s.tails[l], s.counts[l], l);
    }
    CountLevels(s.mem, s.queues);
  }

  // ----- Runs

  method Perform(s: Sched, op: Op) returns (picked: Ref)
    requires s.Valid() && (forall r <- s.mem :: s.mem[r].priority < 256) && Admissible(s.mem.Keys, Members(s.Now()), op)
    modifies s
    ensures s.Valid() && (forall r <- s.mem :: s.mem[r].priority < 256)
    ensures Step(old(s.Now()), op, picked, s.Now())
  {
    hide IsSched, Queued, TickStep, Rotate, Without, PicksFrom;
    LevelsThere(s);
    picked := NULL;
    match op {
      case Add(p) => s.Add(p);
      case Remove(p) => s.Remove(p);
      case Pick => picked := s.PickNext();
      case Tick => s.Tick();
      case Unblock(path) => s.UnblockWaiting(path);
    }
  }

  lemma LevelsThere(s: Sched)
    requires s.Valid()
    ensures |s.queues| == SCHED_LEVELS
  {
  }

  // A run: every state on the way follows from the one before it.
  ghost predicate IsRun(states: seq<State>, ops: seq<Op>, picks: seq<Ref>) {
    && |states| == |ops| + 1 && |picks| == |ops|
    && forall k {:trigger Step(states[k], ops[k], picks[k], states[k + 1])} | 0 <= k < |ops| ::
         Step(states[k], ops[k], picks[k], states[k + 1])
  }

  /**
   * Every run keeps the queues sound, does call by call what the calls do on plain sequences, and
   * ends with exactly the processes queued that were added and not removed; total counts them.
   */
  method Run(s: Sched, ops: seq<Op>) returns (picks: seq<Ref>, ghost states: seq<State>)
    requires s.Valid() && forall r <- s.mem :: s.mem[r].priority < 256
    requires forall k | 0 <= k < |ops| :: Admissible(s.mem.Keys, AfterAll(Members(s.Now()), ops[..k]), ops[k])
    modifies s
    ensures s.Valid() && IsRun(states, ops, picks) && states[0] == old(s.Now()) && states[|ops|] == s.Now()
    ensures Members(s.Now()) == AfterAll(old(Members(s.Now())), ops)
    ensures s.total == |AfterAll(old(Members(s.Now())), ops)|
  {
    hide IsSched, Step, Members, Admissible, Queued;
    picks, states := [], [s.Now()];
    ghost var queued := Members(s.Now());
    for k := 0 to |ops|
      invariant s.Valid() && (forall r <- s.mem :: s.mem[r].priority < 256) && s.mem.Keys == old(s.mem).Keys
      invariant IsRun(states, ops[..k], picks) && states[0] == old(s.Now()) && states[k] == s.Now()
      invariant Members(s.Now()) == AfterAll(queued, ops[..k])
    {
      ghost var a := s.Now();
      assert ops[..k + 1][..k] == ops[..k];
      var picked := Perform(s, ops[k]);
      MembersAfter(a, ops[k], picked, s.Now());
      picks, states := picks + [picked], states + [s.Now()];
    }
    assert ops[..|ops|] == ops;
    TotalCounts(s);
  }

  lemma MembersAfter(a: State, op: Op, picked: Ref, b: State)
    requires Step(a, op, picked, b) && Admissible(a.mem.Keys, Members(a), op)
    ensures Members(b) == After(Members(a), op) && b.mem.Keys == a.mem.Keys
  {
    hide Step, Queued;
    StepKeys(a, op, picked, b);
    forall r | r in a.mem ensures Queued(b.queues, r) <==> r in After(Members(a), op) { StepMembers(a, op, picked, b, r); }
  }

  lemma StepKeys(a: State, op: Op, picked: Ref, b: State)
    requires Step(a, op, picked, b)
    ensures b.mem.Keys == a.mem.Keys
  {
  }
}
