/**
 The order in which processes are chosen, over whole runs of the scheduler and in terms of
 priorities: a pick takes the process that has waited longest in the best class of priorities whose
 longest waiting process is ready.  The classes are the priorities 0 to 31, 32 to 63 and so on, the
 lowest numbers first.

 A process waits from the call that put it at the end of its queue: the last add of it, or the last
 pick or tick that chose it.
 */
module SchedulerOrder {
  import opened Scheduler
  import opened SchedulerRuns

  // The eight queues hold classes of 32 priorities each.
  lemma LevelIsClass(p: Proc)
    ensures Level(p) == p.priority / 32
  {
  }

  ghost predicate Sound(st: State) {
    |st.queues| == SCHED_LEVELS && NULL !in st.mem && Sorted(st.mem, st.queues)
  }

  // The process that a call puts at the end of a queue.
  ghost function Moved(a: State, op: Op, picked: Ref, b: State): Ref {
    match op
    case Add(p) => p
    case Pick => picked
    case Tick => if exists l: nat :: PicksFrom(a.mem, a.queues, l) then b.current else NULL
    case _ => NULL
  }

  // The number of the last call before call k that put r at the end of its queue; `start` orders
  // the processes that were queued before the run.
  ghost function Since(states: seq<State>, ops: seq<Op>, picks: seq<Ref>, start: Ref -> int, k: nat, r: Ref): int
    requires k <= |ops| == |picks| && |states| == |ops| + 1
  {
    if k == 0 then start(r)
    else if r != NULL && r == Moved(states[k - 1], ops[k - 1], picks[k - 1], states[k]) then k
    else Since(states, ops, picks, start, k - 1, r)
  }

  ghost function Waiting(states: seq<State>, ops: seq<Op>, picks: seq<Ref>, start: Ref -> int, k: nat): Ref -> int
    requires k <= |ops| == |picks| && |states| == |ops| + 1
  {
    (r: Ref) => Since(states, ops, picks, start, k, r)
  }

  // Every queue is in the order of waiting.
  ghost predicate InOrder(queues: seq<Queue>, since: Ref -> int) {
    forall l, i, j | 0 <= l < |queues| && 0 <= i < j < |queues[l]| :: since(queues[l][i]) < since(queues[l][j])
  }

  ghost predicate AllAdmissible(states: seq<State>, ops: seq<Op>)
    requires |states| == |ops| + 1
  {
    forall k | 0 <= k < |ops| :: Admissible(states[k].mem.Keys, Members(states[k]), ops[k])
  }

  // ----- One call

  lemma {:induction false} WithoutAll(q: Queue, p: Ref)
    requires p !in q
    ensures Without(q, p) == q
  {
    if q != [] { WithoutAll(q[1..], p); }
  }

  // Changing one queue, seen from all of them.
  lemma OneQueue(a: State, b: State, l: nat, q: Queue)
    requires Sound(a) && l < SCHED_LEVELS && b.queues == a.queues[l := q] && SamePriorities(a.mem, b.mem)
    requires Distinct(q) && forall r <- q :: r in a.mem && Level(a.mem[r]) == l
    ensures Sound(b)
  {
    hide Level, Distinct;
    forall k | 0 <= k < |b.queues|
      ensures Distinct(b.queues[k]) && forall r <- b.queues[k] :: r in b.mem && Level(b.mem[r]) == k
    {
      if k != l { assert b.queues[k] == a.queues[k]; }
      forall r | r in b.queues[k] ensures r in b.mem && Level(b.mem[r]) == k {
        SameLevel(a.mem[r], b.mem[r]);
      }
    }
  }

  lemma SameLevel(p: Proc, p': Proc)
    requires p'.priority == p.priority
    ensures Level(p') == Level(p)
  {
  }

  // A process is in no queue but that of its class.
  lemma OnlyThere(st: State, l: nat, k: nat, r: Ref)
    requires Sound(st) && l < SCHED_LEVELS && k < SCHED_LEVELS && r in st.queues[l] && r in st.queues[k]
    ensures l == k && r != NULL
  {
    hide Level;
    assert Level(st.mem[r]) == l && Level(st.mem[r]) == k;
  }

  ghost function Stamped(since: Ref -> int, moved: Ref, now: int): Ref -> int {
    (r: Ref) => if r == moved then now else since(r)
  }

  // A queue that gets a process at its end, the last of all to be put anywhere.
  lemma AppendInOrder(queues: seq<Queue>, since: Ref -> int, l: nat, q: Queue, p: Ref, now: int)
    requires InOrder(queues, since) && l < |queues| && (forall r :: since(r) < now)
    requires forall k | 0 <= k < |queues| && k != l :: p !in queues[k]
    requires p !in q && forall i, j | 0 <= i < j < |q| :: since(q[i]) < since(q[j])
    ensures InOrder(queues[l := q + [p]], Stamped(since, p, now))
  {
    var queues', since' := queues[l := q + [p]], Stamped(since, p, now);
    forall k, i, j | 0 <= k < |queues'| && 0 <= i < j < |queues'[k]| ensures since'(queues'[k][i]) < since'(queues'[k][j]) {
      if k == l {
        assert queues'[k] == q + [p];
        assert q[i] in q;
        if j < |q| { assert q[j] in q; }
      } else {
        assert queues'[k] == queues[k] && queues[k][i] in queues[k] && queues[k][j] in queues[k];
      }
    }
  }

  lemma SublistInOrder(queues: seq<Queue>, since: Ref -> int, l: nat, i: nat)
    requires InOrder(queues, since) && l < |queues| && i < |queues[l]|
    ensures InOrder(queues[l := queues[l][..i] + queues[l][i + 1..]], since)
  {
    var q := queues[l];
    var q' := q[..i] + q[i + 1..];
    assert forall m | 0 <= m < |q'| :: q'[m] == q[if m < i then m else m + 1];
  }

  // One call keeps the queues sound and in order.
  lemma StepInOrder(a: State, op: Op, picked: Ref, b: State, since: Ref -> int, now: int)
    requires Sound(a) && Step(a, op, picked, b) && Admissible(a.mem.Keys, Members(a), op)
    requires InOrder(a.queues, since) && forall r :: since(r) < now
    ensures Sound(b)
    ensures
      var moved := Moved(a, op, picked, b);
      InOrder(b.queues, if moved == NULL then since else Stamped(since, moved, now))
  {
    hide Level, Sound, InOrder, Without, Rotate;
    SoundFacts(a);
    match op
    case Add(p) =>
      var l := Level(a.mem[p]);
      AddFresh(a, p);
      OneQueue(a, b, l, a.queues[l] + [p]);
      LevelOrder(a.queues, since, l);
      AppendInOrder(a.queues, since, l, a.queues[l], p, now);
    case Remove(p) =>
      var l := Level(a.mem[p]);
      if p in a.queues[l] {
        var i :| 0 <= i < |a.queues[l]| && a.queues[l][i] == p;
        SublistFacts(a, l, i);
        OneQueue(a, b, l, a.queues[l][..i] + a.queues[l][i + 1..]);
        SublistInOrder(a.queues, since, l, i);
      } else {
        WithoutAll(a.queues[l], p);
        assert b.queues == a.queues;
        Unchanged(a, b);
      }
    case Pick =>
      if picked == NULL { Unchanged(a, b); } else {
        var l: nat :| PicksFrom(a.mem, a.queues, l) && picked == a.queues[l][0] && b.queues == a.queues[l := Rotate(a.queues[l])];
        TurnInOrder(a, b, since, now, l);
      }
    case Tick =>
      if exists l: nat :: PicksFrom(a.mem, a.queues, l) {
        var l: nat :| PicksFrom(a.mem, a.queues, l) && b.queues == a.queues[l := Rotate(a.queues[l])] && b.current == a.queues[l][0];
        TurnInOrder(a, b, since, now, l);
      } else { Unchanged(a, b); }
    case Unblock(_) => Unchanged(a, b);
  }

  lemma SoundFacts(st: State)
    requires Sound(st)
    ensures |st.queues| == SCHED_LEVELS && NULL !in st.mem
    ensures forall l | 0 <= l < SCHED_LEVELS :: Distinct(st.queues[l]) && forall r <- st.queues[l] :: r in st.mem && Level(st.mem[r]) == l
  {
    hide Level;
  }

  lemma Unchanged(a: State, b: State)
    requires Sound(a) && b.queues == a.queues && SamePriorities(a.mem, b.mem)
    ensures Sound(b)
  {
    hide Level;
    SoundFacts(a);
    assert a.queues[0 := a.queues[0]] == a.queues;
    OneQueue(a, b, 0, a.queues[0]);
  }

  lemma AddFresh(a: State, p: Ref)
    requires Sound(a) && p in a.mem && p !in Members(a) && Level(a.mem[p]) < SCHED_LEVELS
    ensures
      var q := a.queues[Level(a.mem[p])];
      p !in q && Distinct(q + [p]) && forall k | 0 <= k < |a.queues| :: p !in a.queues[k]
  {
    hide Level;
    assert !Queued(a.queues, p);
  }

  lemma LevelOrder(queues: seq<Queue>, since: Ref -> int, l: nat)
    requires InOrder(queues, since) && l < |queues|
    ensures forall i, j | 0 <= i < j < |queues[l]| :: since(queues[l][i]) < since(queues[l][j])
  {
  }

  lemma SublistFacts(a: State, l: nat, i: nat)
    requires Sound(a) && l < SCHED_LEVELS && i < |a.queues[l]|
    ensures
      var q := a.queues[l][..i] + a.queues[l][i + 1..];
      Distinct(q) && (forall r <- q :: r in a.mem && Level(a.mem[r]) == l) && Without(a.queues[l], a.queues[l][i]) == q
  {
    hide Level;
    var q := a.queues[l];
    WithoutAt(q, i);
    var q' := q[..i] + q[i + 1..];
    assert forall m | 0 <= m < |q'| :: q'[m] == q[if m < i then m else m + 1];
    forall r | r in q' ensures r in q {
    }
  }

  // The head of a queue goes to its end.
  lemma TurnInOrder(a: State, b: State, since: Ref -> int, now: int, l: nat)
    requires Sound(a) && InOrder(a.queues, since) && (forall r :: since(r) < now) && l < SCHED_LEVELS && a.queues[l] != []
    requires b.queues == a.queues[l := Rotate(a.queues[l])] && SamePriorities(a.mem, b.mem)
    ensures Sound(b) && a.queues[l][0] != NULL && InOrder(b.queues, Stamped(since, a.queues[l][0], now))
  {
    hide Level, Sound;
    SoundFacts(a);
    var q := a.queues[l];
    assert q[0] in q;
    assert Rotate(q) == q[1..] + [q[0]];
    assert Distinct(q[1..] + [q[0]]);
    forall r | r in Rotate(q) ensures r in q { RotateMembers(q, r); }
    OneQueue(a, b, l, Rotate(q));
    forall k | 0 <= k < |a.queues| && k != l ensures q[0] !in a.queues[k] {
      if q[0] in a.queues[k] { OnlyThere(a, l, k, q[0]); }
    }
    AppendInOrder(a.queues, since, l, q[1..], q[0], now);
  }

  // ----- Whole runs

  // The queues of every state of a run are in the order of waiting.
  lemma {:induction false} WaitingOrder(states: seq<State>, ops: seq<Op>, picks: seq<Ref>, start: Ref -> int, k: nat)
    requires IsRun(states, ops, picks) && AllAdmissible(states, ops) && k <= |ops|
    requires Sound(states[0]) && InOrder(states[0].queues, start) && forall r :: start(r) <= 0
    ensures Sound(states[k]) && InOrder(states[k].queues, Waiting(states, ops, picks, start, k))
    ensures forall r :: Since(states, ops, picks, start, k, r) <= k
    decreases k
  {
    hide Sound, Step, Admissible, Moved;
    if k == 0 {
      SameOrder(states[0].queues, start, Waiting(states, ops, picks, start, 0));
    } else {
      var before := Waiting(states, ops, picks, start, k - 1);
      WaitingOrder(states, ops, picks, start, k - 1);
      var i := k - 1;
      var a, b, op, picked := states[i], states[i + 1], ops[i], picks[i];
      assert Step(a, op, picked, b);
      StepInOrder(a, op, picked, b, before, k);
      var moved := Moved(a, op, picked, b);
      SameOrder(b.queues, if moved == NULL then before else Stamped(before, moved, k), Waiting(states, ops, picks, start, k));
    }
  }

  lemma SameOrder(queues: seq<Queue>, f: Ref -> int, g: Ref -> int)
    requires InOrder(queues, f) && forall r :: g(r) == f(r)
    ensures InOrder(queues, g)
  {
  }

  // Of the queued processes of its class, s has waited longest.
  ghost predicate Front(st: State, since: Ref -> int, s: Ref) {
    && s in st.mem && Queued(st.queues, s)
    && forall t | t in st.mem && Queued(st.queues, t) && t != s && st.mem[t].priority / 32 == st.mem[s].priority / 32 :: since(s) < since(t)
  }

  // The longest waiting process of a class is the head of its queue.
  lemma FrontIsHead(st: State, since: Ref -> int, s: Ref)
    requires Sound(st) && InOrder(st.queues, since) && s in st.mem
    ensures Front(st, since, s) <==> st.mem[s].priority / 32 < SCHED_LEVELS && var q := st.queues[st.mem[s].priority / 32]; q != [] && q[0] == s
  {
    hide Level, InOrder;
    SoundFacts(st);
    var c := st.mem[s].priority / 32;
    forall t | t in st.mem ensures Queued(st.queues, t) <==> st.mem[t].priority / 32 < SCHED_LEVELS && t in st.queues[st.mem[t].priority / 32] {
      LevelIsClass(st.mem[t]);
    }
    if c < SCHED_LEVELS && st.queues[c] != [] {
      var q := st.queues[c];
      LevelOrder(st.queues, since, c);
      assert q[0] in q;
      LevelIsClass(st.mem[q[0]]);
    }
  }

  // Two queued processes share a queue exactly when their priorities are of the same class.
  lemma SameQueueIffSameClass(st: State, r: Ref, s: Ref)
    requires Sound(st) && r in st.mem && s in st.mem && Queued(st.queues, r) && Queued(st.queues, s)
    ensures (exists l :: 0 <= l < |st.queues| && r in st.queues[l] && s in st.queues[l]) <==> st.mem[r].priority / 32 == st.mem[s].priority / 32
  {
    hide Level;
    SoundFacts(st);
    LevelIsClass(st.mem[r]);
    LevelIsClass(st.mem[s]);
  }

  // What one pick or tick chooses, by priorities and waiting.
  ghost predicate Chooses(st: State, since: Ref -> int, chosen: Ref) {
    if chosen == NULL then forall s | Front(st, since, s) :: st.mem[s].state != Ready
    else
      && Front(st, since, chosen) && st.mem[chosen].state == Ready
      && forall s | Front(st, since, s) && st.mem[s].priority / 32 < st.mem[chosen].priority / 32 :: st.mem[s].state != Ready
  }

  lemma HeadChosen(st: State, since: Ref -> int, chosen: Ref)
    requires Sound(st) && InOrder(st.queues, since)
    requires if chosen == NULL then forall l: nat :: !PicksFrom(st.mem, st.queues, l)
             else exists l: nat :: PicksFrom(st.mem, st.queues, l) && chosen == st.queues[l][0]
    ensures Chooses(st, since, chosen)
  {
    hide Level, InOrder, Sound, Front;
    SoundFacts(st);
    forall s | s in st.mem
      ensures Front(st, since, s) <==> st.mem[s].priority / 32 < SCHED_LEVELS && var q := st.queues[st.mem[s].priority / 32]; q != [] && q[0] == s
    {
      FrontIsHead(st, since, s);
    }
    if chosen != NULL {
      var l: nat :| PicksFrom(st.mem, st.queues, l) && chosen == st.queues[l][0];
      assert chosen in st.queues[l];
      LevelIsClass(st.mem[chosen]);
    } else {
      NoHeadReady(st);
    }
    FrontQueued(st, since);
  }

  lemma FrontQueued(st: State, since: Ref -> int)
    ensures forall s | Front(st, since, s) :: s in st.mem
  {
  }

  lemma NoHeadReady(st: State)
    requires |st.queues| == SCHED_LEVELS && forall l: nat :: !PicksFrom(st.mem, st.queues, l)
    ensures forall l | 0 <= l < SCHED_LEVELS :: !HeadReady(st.mem, st.queues[l])
  {
    for l := 0 to SCHED_LEVELS
      invariant forall k | 0 <= k < l :: !HeadReady(st.mem, st.queues[k])
    {
      assert !PicksFrom(st.mem, st.queues, l);
    }
  }

  /**
   * In every run, each pick and each tick chooses the ready process that has waited longest in its
   * class, of the best class whose longest waiting process is ready; or none if there is no such class.
   */
  lemma EveryChoice(states: seq<State>, ops: seq<Op>, picks: seq<Ref>, start: Ref -> int, k: nat)
    requires IsRun(states, ops, picks) && AllAdmissible(states, ops) && k < |ops| && (ops[k].Pick? || ops[k].Tick?)
    requires Sound(states[0]) && InOrder(states[0].queues, start) && forall r :: start(r) <= 0
    ensures Chooses(states[k], Waiting(states, ops, picks, start, k), Moved(states[k], ops[k], picks[k], states[k + 1]))
  {
    hide Level, InOrder, Sound, Since, Chooses, Admissible;
    WaitingOrder(states, ops, picks, start, k);
    var a, b := states[k], states[k + 1];
    assert Step(a, ops[k], picks[k], b);
    ChosenIsHead(a, ops[k], picks[k], b);
    HeadChosen(a, Waiting(states, ops, picks, start, k), Moved(a, ops[k], picks[k], b));
  }

  lemma ChosenIsHead(a: State, op: Op, picked: Ref, b: State)
    requires Sound(a) && Step(a, op, picked, b) && (op.Pick? || op.Tick?)
    ensures
      var chosen := Moved(a, op, picked, b);
      if chosen == NULL then forall l: nat :: !PicksFrom(a.mem, a.queues, l)
      else exists l: nat :: PicksFrom(a.mem, a.queues, l) && chosen == a.queues[l][0]
  {
    hide Level, Rotate;
    if op.Tick? && exists l: nat :: PicksFrom(a.mem, a.queues, l) {
      var l: nat :| PicksFrom(a.mem, a.queues, l) && b.current == a.queues[l][0];
      assert b.current in a.mem;
    }
  }

  // When every queued process is ready, the choice is the first by class and then by waiting.
  lemma ReadyChoice(st: State, since: Ref -> int, chosen: Ref)
    requires Sound(st) && InOrder(st.queues, since) && Chooses(st, since, chosen)
    requires forall r | r in st.mem && Queued(st.queues, r) :: st.mem[r].state == Ready
    ensures chosen == NULL <==> forall r | r in st.mem :: !Queued(st.queues, r)
    ensures chosen != NULL ==> chosen in st.mem
    ensures chosen != NULL ==>
      forall s | s in st.mem && Queued(st.queues, s) && s != chosen ::
        || st.mem[chosen].priority / 32 < st.mem[s].priority / 32
        || (st.mem[chosen].priority / 32 == st.mem[s].priority / 32 && since(chosen) < since(s))
  {
    hide Level, InOrder, Sound;
    SoundFacts(st);
    forall s | s in st.mem && Queued(st.queues, s)
      ensures chosen != NULL && chosen in st.mem
      ensures st.mem[chosen].priority / 32 <= st.mem[s].priority / 32
    {
      var f := FrontOf(st, since, s);
    }
    if chosen != NULL { assert Front(st, since, chosen); }
  }

  // The longest waiting process of the class of s.
  lemma FrontOf(st: State, since: Ref -> int, s: Ref) returns (f: Ref)
    requires Sound(st) && InOrder(st.queues, since) && s in st.mem && Queued(st.queues, s)
    ensures f in st.mem && Front(st, since, f) && st.mem[f].priority / 32 == st.mem[s].priority / 32
  {
    hide Level, InOrder;
    SoundFacts(st);
    var l :| 0 <= l < |st.queues| && s in st.queues[l];
    f := st.queues[l][0];
    assert f in st.queues[l];
    LevelIsClass(st.mem[s]);
    LevelIsClass(st.mem[f]);
    FrontIsHead(st, since, f);
  }

  // ----- The program

  lemma ValidIsSound(s: Sched)
    requires s.Valid()
    ensures Sound(s.Now())
  {
    hide Level;
    forall l | 0 <= l < |s.queues|
      ensures Distinct(s.queues[l]) && forall r <- s.queues[l] :: r in s.mem && Level(s.mem[r]) == l
    {
      assert LevelOk(s.mem, s.queues[l], s.heads[l], s.tails[l], s.counts[l], l);
    }
  }

  lemma {:induction false} RunMembers(states: seq<State>, ops: seq<Op>, picks: seq<Ref>, k: nat)
    requires IsRun(states, ops, picks) && k <= |ops|
    requires forall i | 0 <= i < |ops| :: Admissible(states[0].mem.Keys, AfterAll(Members(states[0]), ops[..i]), ops[i])
    ensures Members(states[k]) == AfterAll(Members(states[0]), ops[..k]) && states[k].mem.Keys == states[0].mem.Keys
    decreases k
  {
    hide Step, Members, Admissible;
    if k > 0 {
      var i := k - 1;
      RunMembers(states, ops, picks, i);
      assert ops[..k][..i] == ops[..i] && ops[..k][i] == ops[i];
      assert Step(states[i], ops[i], picks[i], states[i + 1]);
      MembersAfter(states[i], ops[i], picks[i], states[i + 1]);
    }
  }

  // A run of the scheduler, and what each pick and tick of it chooses.
  method RunInOrder(s: Sched, ops: seq<Op>, ghost start: Ref -> int) returns (picks: seq<Ref>, ghost states: seq<State>)
    requires s.Valid() && forall r <- s.mem :: s.mem[r].priority < 256
    requires forall k | 0 <= k < |ops| :: Admissible(s.mem.Keys, AfterAll(Members(s.Now()), ops[..k]), ops[k])
    requires InOrder(s.queues, start) && forall r :: start(r) <= 0
    modifies s
    ensures s.Valid() && IsRun(states, ops, picks) && states[0] == old(s.Now()) && states[|ops|] == s.Now()
    ensures forall k | 0 <= k < |ops| && (ops[k].Pick? || ops[k].Tick?) ::
              Chooses(states[k], Waiting(states, ops, picks, start, k), Moved(states[k], ops[k], picks[k], states[k + 1]))
  {
    hide Sched.Valid, Step, Members, Admissible, InOrder, Chooses, Sound, Moved, Waiting;
    ValidIsSound(s);
    picks, states := Run(s, ops);
    forall k | 0 <= k < |ops| ensures Admissible(states[k].mem.Keys, Members(states[k]), ops[k]) {
      RunMembers(states, ops, picks, k);
    }
    forall k | 0 <= k < |ops| && (ops[k].Pick? || ops[k].Tick?)
      ensures Chooses(states[k], Waiting(states, ops, picks, start, k), Moved(states[k], ops[k], picks[k], states[k + 1]))
    {
      EveryChoice(states, ops, picks, start, k);
    }
  }

  // Two processes of priorities 0 and 255, both ready: whichever was added first, the pick takes the first.
  lemma ZeroBeforeLast(st: State, since: Ref -> int, a: Ref, z: Ref, chosen: Ref)
    requires Sound(st) && InOrder(st.queues, since) && Chooses(st, since, chosen)
    requires a in st.mem && z in st.mem && Queued(st.queues, a) && Queued(st.queues, z)
    requires st.mem[a].priority == 0 && st.mem[z].priority == 255
    requires forall r | r in st.mem && Queued(st.queues, r) :: r == a || r == z
    requires st.mem[a].state == Ready && st.mem[z].state == Ready
    ensures chosen == a
  {
    hide Sound, InOrder, Chooses;
    ReadyChoice(st, since, chosen);
    ChosenQueued(st, since, chosen);
  }

  lemma ChosenQueued(st: State, since: Ref -> int, chosen: Ref)
    requires Chooses(st, since, chosen) && chosen != NULL
    ensures chosen in st.mem && Queued(st.queues, chosen)
  {
  }
}
