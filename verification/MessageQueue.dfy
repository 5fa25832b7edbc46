/**
 The message queue of one registry key (registry/reg_ipc.c): a bounded linked list that can be
 switched, once and with messages in it, to a pipe carrying the wire format.
 */
module MessageQueue {
  import opened Wire
  import opened Wrappers

  const MSG_QUEUE_SIZE := 64

  class MsgNode {
    var msg: Value
    var next: MsgNode?

    constructor (msg: Value)
      ensures this.msg == msg && next == null
    {
      this.msg, next := msg, null;
    }
  }

  // `created` says whether the system call that makes the pipe succeeds.
  datatype Op = Send(msg: Value) | Recv | Poll | EnablePipe(created: bool)

  // What a call returns: accepted or not, the message, the count, nothing.
  datatype Outcome = Accepted(ok: bool) | Received(msg: Option<Value>) | Counted(n: nat) | Quiet

  // The nodes are distinct and linked in this order, from head to tail.
  ghost predicate IsList(nodes: seq<MsgNode>, head: MsgNode?, tail: MsgNode?)
    reads nodes
  {
    && (forall i, j | 0 <= i < j < |nodes| :: nodes[i] != nodes[j])
    && (forall i | 0 <= i < |nodes| - 1 :: nodes[i].next == nodes[i + 1])
    && (if nodes == [] then head == tail == null
        else head == nodes[0] && tail == nodes[|nodes| - 1] && nodes[|nodes| - 1].next == null)
  }

  lemma PopList(nodes: seq<MsgNode>, head: MsgNode?, tail: MsgNode?)
    requires IsList(nodes, head, tail) && nodes != []
    ensures IsList(nodes[1..], nodes[0].next, if nodes[0].next == null then null else tail)
  {
  }

  lemma ListEnds(nodes: seq<MsgNode>, head: MsgNode?, tail: MsgNode?)
    requires IsList(nodes, head, tail)
    ensures nodes == [] <==> head == null
    ensures nodes != [] ==> head == nodes[0]
  {
  }

  lemma TailFacts(vs: seq<Value>)
    requires vs != []
    ensures forall v <- vs[1..] :: v in vs
    ensures NormalAll(vs)[0] == Normal(vs[0]) && NormalAll(vs[1..]) == NormalAll(vs)[1..]
  {
  }

  class Queue {
    var head: MsgNode?
    var tail: MsgNode?
    var count: nat
    const maxCount: nat
    var pipe: Pipe?              // null until the pipe is created
    ghost var Repr: set<object>
    ghost var nodes: seq<MsgNode>
    ghost var contents: seq<Value>   // the messages waiting, as they were sent

    ghost predicate Valid()
      reads this, Repr
      ensures Valid() ==> this in Repr
    {
      && this in Repr && (forall n <- nodes :: n in Repr) && (pipe != null ==> pipe in Repr)
      && maxCount > 0
      && (forall v <- contents :: WellFormed(v))
      && IsList(nodes, head, tail) && count == |nodes| <= maxCount
      && (pipe == null ==> |contents| == |nodes| && forall i | 0 <= i < |nodes| :: nodes[i].msg == contents[i])
      && (pipe != null ==> nodes == [] && pipe.bytes == EncodeAll(contents))
    }

    // The messages waiting, oldest first, as they will be delivered.
    ghost function Pending(): seq<Value>
      reads this
    {
      if pipe != null then NormalAll(contents) else contents
    }

    // max_count <= 0 stands for the default size.
    constructor (maxCount: int)
      ensures Valid() && fresh(Repr) && Pending() == [] && pipe == null
      ensures this.maxCount == if maxCount > 0 then maxCount else MSG_QUEUE_SIZE
    {
      head, tail, count := null, null, 0;
      this.maxCount := if maxCount > 0 then maxCount else MSG_QUEUE_SIZE;
      pipe, nodes, contents, Repr := null, [], [], {this};
    }

    // reg_ipc_send, from the point where the queue has been found
    method Send(msg: Value) returns (ok: bool)
      requires Valid() && WellFormed(msg)
      modifies Repr
      ensures Valid() && fresh(Repr - old(Repr)) && pipe == old(pipe)
      ensures ok == (pipe != null || |old(Pending())| < maxCount)
      ensures Pending() == if !ok then old(Pending())
                           else old(Pending()) + [if pipe != null then Normal(msg) else msg]
    {
      hide EncodeAll, Encode, Normal, NormalAll, WellFormed;
      if pipe != null {
        SendOnPipe(msg);
        return true;
      }
      if count >= maxCount { return false; }
      var node := new MsgNode(msg);
      if tail == null {
        head, tail := node, node;
      } else {
        assert tail == nodes[|nodes| - 1] && tail in nodes;
        tail.next := node;
        tail := node;
      }
      nodes, contents, Repr := nodes + [node], contents + [msg], Repr + {node};
      count := count + 1;
      return true;
    }

    // The pipe transport of reg_ipc_send.
    method SendOnPipe(msg: Value)
      requires Valid() && WellFormed(msg) && pipe != null
      modifies this`contents, pipe
      ensures Valid() && Repr == old(Repr) && Pending() == old(Pending()) + [Normal(msg)]
    {
      hide EncodeAll, Encode, Normal, WellFormed, IsList;
      Serialize(pipe, msg);
      EncodeAllAppend(contents, msg);
      NormalAppend(contents, [msg]);
      contents := contents + [msg];
    }

    // reg_ipc_recv, from the point where the queue has been found
    method Recv() returns (msg: Option<Value>)
      requires Valid()
      modifies Repr
      ensures Valid() && Repr == old(Repr) && pipe == old(pipe)
      ensures if old(Pending()) == [] then msg == None && Pending() == []
              else msg == Some(old(Pending())[0]) && Pending() == old(Pending())[1..]
    {
      hide EncodeAll, Encode, Decode, Normal, WellFormed, IsList;
      if pipe != null {
        EmptyWire(contents);
        if pipe.bytes == [] { return None; }
        FirstOnWire(contents);
        var v := Deserialize(pipe);
        contents := contents[1..];
        TailFacts(old(contents));
        if v.Err? && v.code == 99 { return None; }
        return Some(v);
      }
      ListEnds(nodes, head, tail);
      if head == null || count == 0 { return None; }
      var node := head;
      PopList(nodes, head, tail);
      head := node.next;
      if head == null { tail := null; }
      count := count - 1;
      nodes, contents := nodes[1..], contents[1..];
      assert forall n <- nodes :: n in old(nodes);
      TailFacts(old(contents));
      return Some(node.msg);
    }

    // reg_ipc_pending: exact for the list, 0 or 1 for the pipe
    method PendingCount() returns (n: nat)
      requires Valid()
      ensures n == if pipe != null && Pending() != [] then 1 else |Pending()|
    {
      if pipe != null {
        EmptyWire(contents);
        n := if pipe.bytes != [] then 1 else 0;
        return;
      }
      return count;
    }

    // The upgrade in walk_and_enable_pipes: everything waiting moves into a new pipe, in order.  A queue
    // that has its pipe, or cannot get one, is left as it is.
    method Enable(created: bool)
      requires Valid()
      modifies Repr
      ensures Valid() && fresh(Repr - old(Repr)) && (pipe != null <==> old(pipe) != null || created)
      ensures Pending() == if old(pipe) == null && created then NormalAll(old(Pending())) else old(Pending())
    {
      hide EncodeAll, Encode, Normal, NormalAll, WellFormed;
      if pipe != null || !created { return; }
      var p := new Pipe();
      Drain(p);
      head, tail, count, nodes := null, null, 0, [];
      pipe, Repr := p, Repr + {p};
    }

    // The loop of the upgrade: every message of the list goes into the pipe.
    method Drain(p: Pipe)
      requires Valid() && pipe == null && p !in Repr && p.bytes == []
      modifies p
      ensures p.bytes == EncodeAll(contents)
    {
      hide EncodeAll, Encode, WellFormed;
      ghost var i := 0;
      var m := head;
      EncodeAllNone();
      assert contents[..0] == [];
      while m != null
        invariant 0 <= i <= |nodes| && m == if i < |nodes| then nodes[i] else null
        invariant p.bytes == EncodeAll(contents[..i])
        decreases |nodes| - i
      {
        assert m == nodes[i];
        Serialize(p, m.msg);
        EncodeAllAppend(contents[..i], contents[i]);
        assert contents[..i + 1] == contents[..i] + [contents[i]];
        m, i := m.next, i + 1;
      }
      assert contents[..|contents|] == contents;
    }

    lemma ListBound()
      requires Valid()
      ensures pipe != null || |Pending()| <= maxCount
    {
    }

    // The queue as a caller knows it.
    ghost function State(): Plain
      reads this
    {
      Plain(Pending(), pipe != null)
    }

    method Perform(op: Op) returns (outcome: Outcome)
      requires Valid() && (op.Send? ==> WellFormed(op.msg))
      modifies Repr
      ensures Valid() && fresh(Repr - old(Repr))
      ensures (State(), outcome) == PlainStep(maxCount, old(State()), op)
    {
      hide NormalAll, Normal, WellFormed, IsList, EncodeAll;
      match op {
        case Send(msg) =>
          var ok := Send(msg);
          outcome := Accepted(ok);
        case Recv =>
          var r := Recv();
          outcome := Received(r);
        case Poll =>
          var n := PendingCount();
          outcome := Counted(n);
        case EnablePipe(created) =>
          Enable(created);
          outcome := Quiet;
      }
    }

    /**
     * Every run returns, call by call, what the plain queue returns, and is one FIFO: what waited at
     * the start followed by every message accepted is every message delivered followed by what waits.
     * As long as it is a list it never holds more than its maximum.
     */
    method Run(ops: seq<Op>) returns (outcomes: seq<Outcome>)
      requires Valid() && forall op <- ops :: op.Send? ==> WellFormed(op.msg)
      modifies Repr
      ensures Valid() && fresh(Repr - old(Repr))
      ensures outcomes == PlainRun(maxCount, old(State()), ops).1 && State() == PlainRun(maxCount, old(State()), ops).0
      ensures |outcomes| == |ops| && Fifo(old(Pending()) + Sent(ops, outcomes), Delivered(outcomes), Pending())
      ensures forall k | 0 <= k <= |ops| ::
                var q := PlainRun(maxCount, old(State()), ops[..k]).0;
                q.piped || |q.pending| <= maxCount
    {
      hide Queue.Valid, Queue.Pending, PlainStep, Fifo, WellFormed, PlainRun;
      assert pipe != null || |Pending()| <= maxCount by { ListBound(); }
      outcomes := [];
      PlainRunStep(maxCount, State(), []);
      for i := 0 to |ops|
        invariant Valid() && fresh(Repr - old(Repr))
        invariant (State(), outcomes) == PlainRun(maxCount, old(State()), ops[..i])
      {
        assert ops[i] in ops;
        assert ops[..i + 1][..i] == ops[..i];
        PlainRunStep(maxCount, old(State()), ops[..i + 1]);
        var outcome := Perform(ops[i]);
        outcomes := outcomes + [outcome];
      }
      assert ops[..|ops|] == ops;
      PlainRunIsFifo(maxCount, old(State()), ops);
      forall k | 0 <= k <= |ops|
        ensures var q := PlainRun(maxCount, old(State()), ops[..k]).0; q.piped || |q.pending| <= maxCount
      {
        PlainRunBounded(maxCount, old(State()), ops[..k]);
      }
    }
  }

  // ----- The plain queue

  // The messages waiting, and whether they wait in a pipe.
  datatype Plain = Plain(pending: seq<Value>, piped: bool)

  // A list has a bound and keeps messages as they are; a pipe has neither property and counts to one.
  ghost function PlainStep(max: nat, q: Plain, op: Op): (Plain, Outcome) {
    match op
    case Send(msg) =>
      if q.piped then (q.(pending := q.pending + [Normal(msg)]), Accepted(true))
      else if |q.pending| < max then (q.(pending := q.pending + [msg]), Accepted(true))
      else (q, Accepted(false))
    case Recv =>
      if q.pending == [] then (q, Received(None)) else (q.(pending := q.pending[1..]), Received(Some(q.pending[0])))
    case Poll => (q, Counted(if q.piped && q.pending != [] then 1 else |q.pending|))
    case EnablePipe(created) => (if q.piped || !created then q else Plain(NormalAll(q.pending), true), Quiet)
  }

  ghost function PlainRun(max: nat, q: Plain, ops: seq<Op>): (r: (Plain, seq<Outcome>))
    ensures |r.1| == |ops|
  {
    if ops == [] then (q, [])
    else
      var (p, outcomes) := PlainRun(max, q, ops[..|ops| - 1]);
      var (p', outcome) := PlainStep(max, p, ops[|ops| - 1]);
      (p', outcomes + [outcome])
  }

  lemma PlainRunStep(max: nat, q: Plain, ops: seq<Op>)
    ensures ops == [] ==> PlainRun(max, q, ops) == (q, [])
    ensures ops != [] ==>
      var (p, outcomes) := PlainRun(max, q, ops[..|ops| - 1]);
      var (p', outcome) := PlainStep(max, p, ops[|ops| - 1]);
      PlainRun(max, q, ops) == (p', outcomes + [outcome])
  {
  }

  // The messages of the accepted sends, in order.
  ghost function Sent(ops: seq<Op>, outcomes: seq<Outcome>): seq<Value>
    requires |ops| == |outcomes|
  {
    if ops == [] then []
    else
      var n := |ops| - 1;
      Sent(ops[..n], outcomes[..n]) + if ops[n].Send? && outcomes[n] == Accepted(true) then [ops[n].msg] else []
  }

  // The messages received, in order.
  ghost function Delivered(outcomes: seq<Outcome>): seq<Value> {
    if outcomes == [] then []
    else
      var n := |outcomes| - 1;
      Delivered(outcomes[..n]) + if outcomes[n].Received? && outcomes[n].msg.Some? then [outcomes[n].msg.value] else []
  }

  // One FIFO over every run of the plain queue.
  lemma {:induction false} PlainRunIsFifo(max: nat, q: Plain, ops: seq<Op>)
    ensures
      var (p, outcomes) := PlainRun(max, q, ops);
      Fifo(q.pending + Sent(ops, outcomes), Delivered(outcomes), p.pending)
  {
    hide Fifo, PlainStep, PlainRun;
    PlainRunStep(max, q, ops);
    if ops == [] {
      FifoStart(q.pending);
      assert q.pending + [] == q.pending;
    } else {
      var n := |ops| - 1;
      PlainRunIsFifo(max, q, ops[..n]);
      var (p, before) := PlainRun(max, q, ops[..n]);
      var (p', outcome) := PlainStep(max, p, ops[n]);
      var outcomes := before + [outcome];
      assert outcomes[..n] == before;
      StepKeepsFifo(max, p, ops[n], q.pending + Sent(ops[..n], before), Delivered(before));
      assert q.pending + Sent(ops, outcomes) == (q.pending + Sent(ops[..n], before)) +
        if ops[n].Send? && outcome == Accepted(true) then [ops[n].msg] else [];
    }
  }

  lemma StepKeepsFifo(max: nat, q: Plain, op: Op, sent: seq<Value>, delivered: seq<Value>)
    requires Fifo(sent, delivered, q.pending)
    ensures
      var (p, outcome) := PlainStep(max, q, op);
      Fifo(sent + (if op.Send? && outcome == Accepted(true) then [op.msg] else []),
           delivered + (if outcome.Received? && outcome.msg.Some? then [outcome.msg.value] else []), p.pending)
  {
    hide Fifo, NormalAll, Normal;
    assert sent + [] == sent && delivered + [] == delivered;
    match op
    case Send(msg) =>
      if q.piped {
        SendKeepsFifo(sent, delivered, q.pending, q.pending + [Normal(msg)], msg);
      } else if |q.pending| < max {
        SendKeepsFifo(sent, delivered, q.pending, q.pending + [msg], msg);
      }
    case Recv =>
      if q.pending != [] { RecvKeepsFifo(sent, delivered, q.pending); }
    case Poll =>
    case EnablePipe(_) => EnableKeepsFifo(sent, delivered, q.pending);
  }

  // While it is a list the queue stays within its bound.
  lemma {:induction false} PlainRunBounded(max: nat, q: Plain, ops: seq<Op>)
    requires !q.piped ==> |q.pending| <= max
    ensures !PlainRun(max, q, ops).0.piped ==> |PlainRun(max, q, ops).0.pending| <= max
  {
    hide NormalAll, Normal;
    if ops != [] { PlainRunBounded(max, q, ops[..|ops| - 1]); }
  }

  // The messages accepted are those delivered followed by those waiting: exactly so when the wire
  // carries all of them unchanged, and otherwise up to what the wire does to a value.
  ghost predicate Fifo(sent: seq<Value>, delivered: seq<Value>, pending: seq<Value>) {
    && NormalAll(sent) == NormalAll(delivered + pending)
    && ((forall v <- sent :: Clean(v)) ==> sent == delivered + pending)
  }

  lemma FifoStart(pending: seq<Value>)
    ensures Fifo(pending, [], pending)
  {
    assert [] + pending == pending;
  }

  lemma RecvKeepsFifo(sent: seq<Value>, delivered: seq<Value>, before: seq<Value>)
    requires before != [] && Fifo(sent, delivered, before)
    ensures Fifo(sent, delivered + [before[0]], before[1..])
  {
    assert delivered + before == (delivered + [before[0]]) + before[1..];
  }

  lemma NormalAppend(a: seq<Value>, b: seq<Value>)
    ensures NormalAll(a + b) == NormalAll(a) + NormalAll(b)
  {
  }

  // Accepting one message keeps the FIFO, whether it is stored as it is or as the wire carries it.
  lemma SendKeepsFifo(sent: seq<Value>, delivered: seq<Value>, before: seq<Value>, after: seq<Value>, msg: Value)
    requires after == before + [msg] || after == before + [Normal(msg)]
    requires Fifo(sent, delivered, before)
    ensures Fifo(sent + [msg], delivered, after)
  {
    hide Normal, Clean;
    NormalIdempotent(msg);
    NormalIffClean(msg);
    var last := after[|after| - 1];
    NormalAppend(sent, [msg]);
    NormalAppend(delivered + before, [last]);
    assert delivered + after == (delivered + before) + [last];
    assert forall v <- sent :: v in sent + [msg];
    assert msg in sent + [msg];
  }

  lemma EnableKeepsFifo(sent: seq<Value>, delivered: seq<Value>, before: seq<Value>)
    requires Fifo(sent, delivered, before)
    ensures Fifo(sent, delivered, NormalAll(before))
  {
    hide Normal, Clean;
    NormalAppend(delivered, before);
    NormalAppend(delivered, NormalAll(before));
    NormalTwice(before);
    if forall v <- sent :: Clean(v) {
      forall i | 0 <= i < |before| ensures Normal(before[i]) == before[i] {
        assert before[i] == sent[|delivered| + i];
        NormalIffClean(before[i]);
      }
    }
  }

  lemma NormalTwice(vs: seq<Value>)
    ensures NormalAll(NormalAll(vs)) == NormalAll(vs)
  {
    forall i | 0 <= i < |vs| ensures Normal(Normal(vs[i])) == Normal(vs[i]) {
      NormalIdempotent(vs[i]);
    }
  }

  lemma {:induction false} NormalIdempotent(v: Value)
    ensures Normal(Normal(v)) == Normal(v)
    decreases v
  {
    if v.Arr? {
      forall i | 0 <= i < |v.elems| ensures Normal(Normal(v.elems[i])) == Normal(v.elems[i]) {
        NormalIdempotent(v.elems[i]);
      }
    }
  }

  lemma FirstOnWire(wire: seq<Value>)
    requires wire != [] && forall v <- wire :: WellFormed(v)
    ensures Decode(EncodeAll(wire)) == (Normal(wire[0]), EncodeAll(wire[1..]))
    ensures !(Normal(wire[0]).Err? && Normal(wire[0]).code == 99)
  {
    hide Decode, Encode;
    DecodeEncode(wire[0], EncodeAll(wire[1..]));
  }

  lemma EmptyWire(wire: seq<Value>)
    ensures EncodeAll(wire) == [] <==> wire == []
  {
    if wire != [] {
      assert |Encode(wire[0])| >= 1;
    }
  }
}
