/** Interrupts that arrive while software waits for something else are kept in a ring
    (legacy-trunk/src/c-antikernel/RPCInterruptHelpers.c, legacy-trunk/src/c-antikernel/RPCFunctionHelpers.c). */
module Interrupts {
  import opened Collections
  import opened Options

  const INTERRUPT_QUEUE_SIZE := 32

  datatype RpcType = CALL | RETURN_SUCCESS | RETURN_FAIL | RETURN_RETRY | INTERRUPT | Other(code: nat)

  datatype Message = Message(src: nat, dst: nat, callnum: nat, kind: RpcType, data: seq<nat>)

  /** The interrupts of a stream, in order. */
  function InterruptsIn(stream: seq<Message>): seq<Message> {
    if |stream| == 0 then []
    else InterruptsIn(stream[..|stream| - 1])
         + if stream[|stream| - 1].kind == INTERRUPT then [stream[|stream| - 1]] else []
  }

  /** What happens to a queue of interrupts: one arrives, or one is read. */
  datatype Moment = Arrive(m: Message) | Read

  /** A queue, and what has been read from it. */
  datatype Replayed = Replayed(queue: seq<Message>, got: seq<Message>)

  /** A queue of 32: an arrival is kept if and only if fewer are queued, a read takes the oldest. */
  function Replay(queue: seq<Message>, trace: seq<Moment>): Replayed {
    if |trace| == 0 then Replayed(queue, []) else After(Replay(queue, trace[..|trace| - 1]), trace[|trace| - 1])
  }

  function After(r: Replayed, moment: Moment): Replayed {
    match moment
    case Arrive(m) => if |r.queue| < INTERRUPT_QUEUE_SIZE then r.(queue := r.queue + [m]) else r
    case Read => if |r.queue| > 0 then Replayed(r.queue[1..], r.got + [r.queue[0]]) else r
  }

  function ArrivalsIn(trace: seq<Moment>): seq<Message> {
    if |trace| == 0 then []
    else ArrivalsIn(trace[..|trace| - 1]) + if trace[|trace| - 1].Arrive? then [trace[|trace| - 1].m] else []
  }

  /** The arrivals less those that came when 32 were queued. */
  function KeptIn(queue: seq<Message>, trace: seq<Moment>): seq<Message> {
    if |trace| == 0 then []
    else
      var front := trace[..|trace| - 1];
      KeptIn(queue, front)
      + if trace[|trace| - 1].Arrive? && |Replay(queue, front).queue| < INTERRUPT_QUEUE_SIZE then [trace[|trace| - 1].m]
        else []
  }

  /** What has been read, and then what is queued, is what was queued and then every arrival that was kept, in order. */
  lemma {:induction false} Conserved(queue: seq<Message>, trace: seq<Moment>)
    ensures var r := Replay(queue, trace); queue + KeptIn(queue, trace) == r.got + r.queue
  {
    if |trace| == 0 {
      assert queue + [] == [] + queue;
    } else {
      var front := trace[..|trace| - 1];
      Conserved(queue, front);
      var r := Replay(queue, front);
      if trace[|trace| - 1].Arrive? && |r.queue| < INTERRUPT_QUEUE_SIZE {
        Associates(queue, KeptIn(queue, front), [trace[|trace| - 1].m]);
        Associates(r.got, r.queue, [trace[|trace| - 1].m]);
      } else if trace[|trace| - 1].Read? && |r.queue| > 0 {
        assert r.queue == [r.queue[0]] + r.queue[1..];
        Associates(r.got, [r.queue[0]], r.queue[1..]);
      }
    }
  }

  lemma {:induction false} TraceNext(queue: seq<Message>, trace: seq<Moment>, moment: Moment)
    ensures Replay(queue, trace + [moment]) == After(Replay(queue, trace), moment)
    ensures ArrivalsIn(trace + [moment]) == ArrivalsIn(trace) + if moment.Arrive? then [moment.m] else []
  {
    assert (trace + [moment])[..|trace|] == trace;
  }

  lemma {:induction false} TraceNone(queue: seq<Message>)
    ensures Replay(queue, []) == Replayed(queue, []) && ArrivalsIn([]) == []
  {
  }

  /** A trace is replayed part by part. */
  lemma {:induction false} TracesJoin(queue: seq<Message>, a: seq<Moment>, b: seq<Moment>)
    ensures var r, t := Replay(queue, a), Replay(Replay(queue, a).queue, b);
            Replay(queue, a + b) == Replayed(t.queue, r.got + t.got)
    ensures ArrivalsIn(a + b) == ArrivalsIn(a) + ArrivalsIn(b)
  {
    hide Replay, ArrivalsIn;
    var r := Replay(queue, a);
    if |b| == 0 {
      assert a + b == a;
      TraceNone(r.queue);
    } else {
      var front, last := b[..|b| - 1], b[|b| - 1];
      assert b == front + [last] && a + b == (a + front) + [last];
      TracesJoin(queue, a, front);
      TraceNext(queue, a + front, last);
      TraceNext(r.queue, front, last);
    }
  }

  lemma {:induction false} StreamNext(stream: seq<Message>, m: Message)
    ensures InterruptsIn(stream + [m]) == InterruptsIn(stream) + if m.kind == INTERRUPT then [m] else []
  {
    assert (stream + [m])[..|stream|] == stream;
  }

  /** A message ends a call to `addr` when it is that node's answer. */
  predicate Answers(m: Message, addr: nat) {
    m.src == addr && (m.kind == RETURN_SUCCESS || m.kind == RETURN_FAIL)
  }

  /** Where a call to `addr` ends in what arrives; |stream| when it does not. */
  function AnswerAt(stream: seq<Message>, addr: nat, k: nat): (r: nat)
    requires k <= |stream|
    ensures k <= r <= |stream| && (r < |stream| ==> Answers(stream[r], addr))
    ensures forall i :: k <= i < r ==> !Answers(stream[i], addr)
    decreases |stream| - k
  {
    if k == |stream| || Answers(stream[k], addr) then k else AnswerAt(stream, addr, k + 1)
  }

  /** Waiting ends with the first message of that node that is a return, of either kind. */
  lemma {:induction false} AnswerIsFirst(stream: seq<Message>, addr: nat, i: nat)
    requires i < |stream|
    ensures var n, m := AnswerAt(stream, addr, 0), stream[i];
            && (m.src == addr && m.kind in {RETURN_SUCCESS, RETURN_FAIL} ==> n <= i)
            && (i == n ==> m.src == addr && m.kind in {RETURN_SUCCESS, RETURN_FAIL})
  {
    hide AnswerAt;
    assert Answers(stream[i], addr) <==> stream[i].src == addr && stream[i].kind in {RETURN_SUCCESS, RETURN_FAIL};
  }

  function InterruptAt(stream: seq<Message>, k: nat): (r: nat)
    requires k <= |stream|
    ensures k <= r <= |stream| && (r < |stream| ==> stream[r].kind == INTERRUPT)
    ensures forall i :: k <= i < r ==> stream[i].kind != INTERRUPT
    decreases |stream| - k
  {
    if k == |stream| || stream[k].kind == INTERRUPT then k else InterruptAt(stream, k + 1)
  }

  /** What is consumed when waiting stops at position `n`, and what is left; all of it when nothing is waited for
      arrives. */
  function Consumed(stream: seq<Message>, n: nat): (r: seq<Message>)
    requires n <= |stream|
    ensures |r| <= |stream|
  {
    if n < |stream| then stream[..n + 1] else stream
  }

  function Left(stream: seq<Message>, n: nat): seq<Message>
    requires n <= |stream|
  {
    stream[|Consumed(stream, n)|..]
  }

  /** How often `addr` asks for the call to be sent again. */
  function Retries(stream: seq<Message>, addr: nat): nat {
    if |stream| == 0 then 0
    else Retries(stream[..|stream| - 1], addr)
         + if stream[|stream| - 1].src == addr && stream[|stream| - 1].kind == RETURN_RETRY then 1 else 0
  }

  /** The positions in a stream at which it does. */
  function RetryPositions(stream: seq<Message>, addr: nat): set<nat> {
    set i: nat | i < |stream| && stream[i].src == addr && stream[i].kind == RETURN_RETRY
  }

  lemma {:induction false} RetriesAre(stream: seq<Message>, addr: nat)
    ensures Retries(stream, addr) == |RetryPositions(stream, addr)|
  {
    if |stream| > 0 {
      var front, last := stream[..|stream| - 1], |stream| - 1;
      RetriesAre(front, addr);
      LastPosition(front, stream[last], addr);
      assert front + [stream[last]] == stream;
      assert last !in RetryPositions(front, addr);
    }
  }

  lemma {:induction false} LastPosition(front: seq<Message>, m: Message, addr: nat)
    ensures RetryPositions(front + [m], addr)
         == RetryPositions(front, addr) + if m.src == addr && m.kind == RETURN_RETRY then {|front|} else {}
  {
  }

  /** Each interrupt of a stream once, where it stands; nothing else. */
  lemma {:induction false} InterruptsAre(a: seq<Message>, m: Message, b: seq<Message>)
    ensures InterruptsIn(a + [m] + b) == InterruptsIn(a) + (if m.kind == INTERRUPT then [m] else []) + InterruptsIn(b)
    ensures InterruptsIn([]) == []
  {
    hide InterruptsIn;
    StreamJoin(a + [m], b);
    StreamNext(a, m);
    TraceOfNone();
  }

  lemma TraceOfNone()
    ensures InterruptsIn([]) == []
  {
  }

  /** What a queue holds after more interrupts arrive with none taken: the first ones, up to its size. */
  function Pushed(queue: seq<Message>, more: seq<Message>): seq<Message> {
    if |queue + more| <= INTERRUPT_QUEUE_SIZE then queue + more else (queue + more)[..INTERRUPT_QUEUE_SIZE]
  }

  /** Position `i` counted from where the ring is read. */
  function Slot(rd: nat, i: nat): nat {
    if rd + i < INTERRUPT_QUEUE_SIZE then rd + i else rd + i - INTERRUPT_QUEUE_SIZE
  }

  function RingContents(ring: seq<Message>, rd: nat, count: nat): (q: seq<Message>)
    requires |ring| == INTERRUPT_QUEUE_SIZE && rd < INTERRUPT_QUEUE_SIZE && count <= INTERRUPT_QUEUE_SIZE
    ensures |q| == count
  {
    seq(count, i requires 0 <= i < count => ring[Slot(rd, i)])
  }

  class Node {
    const g_pendingInterrupts: array<Message>
    var g_pendingInterruptCount: nat
    var g_pendingInterruptRdPtr: nat
    var g_pendingInterruptWrPtr: nat
    /** What the network will hand over, and what has been sent to it. */
    var incoming: seq<Message>
    var outgoing: seq<Message>
    /** What has been received, what has happened to the ring, and what GetRPCInterrupt has returned. */
    ghost var received: seq<Message>
    ghost var trace: seq<Moment>
    ghost var delivered: seq<Message>

    ghost predicate Ring()
      reads this`g_pendingInterruptCount, this`g_pendingInterruptRdPtr, this`g_pendingInterruptWrPtr
    {
      && g_pendingInterrupts.Length == INTERRUPT_QUEUE_SIZE
      && g_pendingInterruptCount <= INTERRUPT_QUEUE_SIZE
      && g_pendingInterruptRdPtr < INTERRUPT_QUEUE_SIZE
      && g_pendingInterruptWrPtr == Slot(g_pendingInterruptRdPtr, g_pendingInterruptCount)
    }

    ghost function Queued(): (q: seq<Message>)
      requires Ring()
      reads this`g_pendingInterruptCount, this`g_pendingInterruptRdPtr, this`g_pendingInterruptWrPtr,
        g_pendingInterrupts
      ensures |q| == g_pendingInterruptCount
    {
      RingContents(g_pendingInterrupts[..], g_pendingInterruptRdPtr, g_pendingInterruptCount)
    }

    /** The arrivals of the trace are the interrupts received, and the ring and what was returned are what the trace
        makes of an empty queue. */
    ghost predicate Valid()
      reads this, g_pendingInterrupts
    {
      Ring() && Traced()
    }

    ghost predicate Traced()
      requires Ring()
      reads this, g_pendingInterrupts
    {
      ArrivalsIn(trace) == InterruptsIn(received) && Replay([], trace) == Replayed(Queued(), delivered)
    }

    constructor (network: seq<Message>)
      ensures Valid() && fresh(g_pendingInterrupts) && incoming == network
      ensures received == [] && trace == [] && delivered == [] && outgoing == [] && Queued() == []
    {
      g_pendingInterrupts := new Message[INTERRUPT_QUEUE_SIZE](_ => Message(0, 0, 0, CALL, []));
      g_pendingInterruptCount, g_pendingInterruptRdPtr, g_pendingInterruptWrPtr := 0, 0, 0;
      incoming, outgoing := network, [];
      received, trace, delivered := [], [], [];
    }

    method PushInterrupt(m: Message)
      requires Ring()
      modifies this`g_pendingInterruptCount, this`g_pendingInterruptWrPtr, g_pendingInterrupts
      ensures Ring() && g_pendingInterruptRdPtr == old(g_pendingInterruptRdPtr)
      ensures Queued() == if |old(Queued())| == INTERRUPT_QUEUE_SIZE then old(Queued()) else old(Queued()) + [m]
    {
      if g_pendingInterruptCount == INTERRUPT_QUEUE_SIZE {
        return;
      }
      ghost var was := g_pendingInterrupts[..];
      g_pendingInterrupts[g_pendingInterruptWrPtr] := m;
      assert g_pendingInterrupts[..] == was[g_pendingInterruptWrPtr := m];
      RingPush(was, g_pendingInterruptRdPtr, g_pendingInterruptCount, m);
      g_pendingInterruptWrPtr := g_pendingInterruptWrPtr + 1;
      if g_pendingInterruptWrPtr == INTERRUPT_QUEUE_SIZE {
        g_pendingInterruptWrPtr := 0;
      }
      g_pendingInterruptCount := g_pendingInterruptCount + 1;
    }

    /** The next message; None while none has arrived, and the call waits. */
    method RecvRPCMessage() returns (m: Option<Message>)
      modifies this`incoming, this`received
      ensures m == if |old(incoming)| > 0 then Some(old(incoming)[0]) else None
      ensures m.Some? ==> incoming == old(incoming)[1..] && received == old(received) + [m.value]
      ensures m.None? ==> incoming == [] && received == old(received)
    {
      if |incoming| == 0 {
        return None;
      }
      m, incoming := Some(incoming[0]), incoming[1..];
      received := received + [m.value];
    }

    /** The oldest interrupt of the ring. */
    method TakePending() returns (m: Message)
      requires Valid() && g_pendingInterruptCount > 0
      modifies this`g_pendingInterruptCount, this`g_pendingInterruptRdPtr, this`delivered, this`trace
      ensures Valid() && old(Queued()) == [m] + Queued() && delivered == old(delivered) + [m] && old(trace) <= trace
    {
      hide Replay, ArrivalsIn;
      RingPop(g_pendingInterrupts[..], g_pendingInterruptRdPtr, g_pendingInterruptCount);
      TraceNext([], trace, Read);
      m := g_pendingInterrupts[g_pendingInterruptRdPtr];
      g_pendingInterruptRdPtr := g_pendingInterruptRdPtr + 1;
      if g_pendingInterruptRdPtr == INTERRUPT_QUEUE_SIZE {
        g_pendingInterruptRdPtr := 0;
      }
      g_pendingInterruptCount := g_pendingInterruptCount - 1;
      delivered := delivered + [m];
      trace := trace + [Read];
      assert Queued() == old(Queued())[1..];
      assert old(Queued())[0] == m;
    }

    /** Receives a message that is not an interrupt, or finds that none has arrived. */
    method Receive() returns (m: Option<Message>)
      requires Valid()
      modifies this`incoming, this`received
      ensures m == if |old(incoming)| > 0 then Some(old(incoming)[0]) else None
      ensures m.Some? ==> incoming == old(incoming)[1..] && received == old(received) + [m.value]
      ensures m.None? ==> incoming == [] && received == old(received)
      ensures m.Some? && m.value.kind == INTERRUPT ==> Ring() && Queued() == old(Queued()) && Missing(m.value)
      ensures !(m.Some? && m.value.kind == INTERRUPT) ==> Valid() && Queued() == old(Queued())
    {
      hide Replay, ArrivalsIn, InterruptsIn, RingContents;
      if |incoming| > 0 {
        StreamNext(received, incoming[0]);
      }
      m := RecvRPCMessage();
    }

    /** An interrupt has just been received and nothing been done with it yet. */
    ghost predicate Missing(m: Message)
      requires Ring()
      reads this, g_pendingInterrupts
    {
      ArrivalsIn(trace) + [m] == InterruptsIn(received) && Replay([], trace) == Replayed(Queued(), delivered)
    }

    /** An interrupt received with the ring empty, passed on at once. */
    ghost method PassOn(m: Message)
      requires Ring() && Missing(m) && Queued() == []
      modifies this`trace, this`delivered
      ensures Valid() && trace == old(trace) + [Arrive(m), Read] && delivered == old(delivered) + [m]
    {
      hide Replay, ArrivalsIn, InterruptsIn, RingContents;
      TraceNext([], trace, Arrive(m));
      TraceNext([], trace + [Arrive(m)], Read);
      assert trace + [Arrive(m)] + [Read] == trace + [Arrive(m), Read];
      trace := trace + [Arrive(m), Read];
      delivered := delivered + [m];
      assert ([] + [m])[1..] == [];
    }

    /** Waits for an interrupt with none queued; other messages are discarded. */
    method AwaitInterrupt() returns (r: Option<Message>)
      requires Valid() && g_pendingInterruptCount == 0
      modifies this`incoming, this`received, this`trace, this`delivered
      ensures Valid() && old(trace) <= trace && delivered == old(delivered) + if r.Some? then [r.value] else []
      ensures var n := InterruptAt(old(incoming), 0);
        && r == (if n < |old(incoming)| then Some(old(incoming)[n]) else None)
        && incoming == Left(old(incoming), n) && received == old(received) + Consumed(old(incoming), n)
    {
      hide InterruptsIn, InterruptAt, Replay, ArrivalsIn, RingContents, Traced, Left, Consumed;
      ghost var n, taken := InterruptAt(incoming, 0), [];
      ghost var stream := incoming;
      while true
        invariant |taken| <= n && taken + incoming == stream && received == old(received) + taken
        invariant Valid() && Queued() == [] && delivered == old(delivered) && trace == old(trace)
        decreases |stream| - |taken|
      {
        StoppedAt(taken, incoming, stream, n, old(received));
        r := Receive();
        if r.None? {
          return;
        }
        var m := r.value;
        if m.kind == INTERRUPT {
          PassOn(m);
          return;
        }
        taken := taken + [m];
      }
    }

    /** The oldest interrupt queued, or else the next to arrive; other messages are discarded. None while there is none:
        the call waits, and has consumed what arrived. */
    method GetRPCInterrupt() returns (r: Option<Message>)
      requires Valid()
      modifies this`g_pendingInterruptCount, this`g_pendingInterruptRdPtr, this`incoming, this`received, this`trace,
        this`delivered
      ensures Valid() && old(trace) <= trace && delivered == old(delivered) + if r.Some? then [r.value] else []
      ensures |old(Queued())| > 0 ==>
                r == Some(old(Queued())[0]) && Queued() == old(Queued())[1..] && incoming == old(incoming)
                  && received == old(received)
      ensures |old(Queued())| == 0 ==>
                (var n := InterruptAt(old(incoming), 0);
                 && Queued() == [] && r == (if n < |old(incoming)| then Some(old(incoming)[n]) else None)
                 && incoming == Left(old(incoming), n) && received == old(received) + Consumed(old(incoming), n))
    {
      hide InterruptsIn, InterruptAt, Replay, ArrivalsIn, RingContents, Traced, Left, Consumed;
      if g_pendingInterruptCount > 0 {
        var m := TakePending();
        r := Some(m);
      } else {
        r := AwaitInterrupt();
      }
    }

    /** Keeps an interrupt that arrived while something else was waited for. */
    method SaveInterrupt(m: Message)
      requires Ring() && Missing(m)
      modifies this`g_pendingInterruptCount, this`g_pendingInterruptWrPtr, g_pendingInterrupts, this`trace
      ensures Valid() && old(trace) <= trace && Queued() == Pushed(old(Queued()), [m])
    {
      hide Replay, ArrivalsIn, InterruptsIn, RingContents;
      ghost var was := Queued();
      TraceNext([], trace, Arrive(m));
      trace := trace + [Arrive(m)];
      PushInterrupt(m);
      assert |was| == INTERRUPT_QUEUE_SIZE ==> (was + [m])[..INTERRUPT_QUEUE_SIZE] == was;
    }

    /** One message while a call to `addr` waits: an interrupt is queued, the node's wish for a retry is met, its
        answer ends the call, anything else is discarded. */
    method ReceiveForCall(addr: nat, msg: Message) returns (done: bool, retval: Message)
      requires Valid() && |incoming| > 0
      modifies this, g_pendingInterrupts
      ensures Valid() && delivered == old(delivered) && old(trace) <= trace
      ensures retval == old(incoming)[0] && incoming == old(incoming)[1..] && received == old(received) + [retval]
      ensures Queued() == if retval.kind == INTERRUPT then Pushed(old(Queued()), [retval]) else old(Queued())
      ensures outgoing == if retval.src == addr && retval.kind == RETURN_RETRY then old(outgoing) + [msg]
          else old(outgoing)
      ensures done == Answers(retval, addr)
    {
      hide InterruptsIn, Pushed, Replay, ArrivalsIn, RingContents;
      var received := Receive();
      retval := received.value;
      done := false;
      if retval.src != addr {
        if retval.kind == INTERRUPT {
          SaveInterrupt(retval);
        }
      } else {
        match retval.kind {
          case RETURN_RETRY => outgoing := outgoing + [msg];
          case RETURN_FAIL => done := true;
          case RETURN_SUCCESS => done := true;
          case INTERRUPT => SaveInterrupt(retval);
          case _ =>
        }
      }
    }

    /** The messages up to the answer; None while it has not arrived. */
    method AwaitAnswer(addr: nat, msg: Message) returns (retval: Option<Message>)
      requires Valid()
      modifies this, g_pendingInterrupts
      ensures Valid() && delivered == old(delivered) && old(trace) <= trace
      ensures var n := AnswerAt(old(incoming), addr, 0);
        && retval == (if n < |old(incoming)| then Some(old(incoming)[n]) else None)
        && incoming == Left(old(incoming), n) && received == old(received) + Consumed(old(incoming), n)
        && Queued() == Pushed(old(Queued()), InterruptsIn(old(incoming)[..n]))
        && outgoing == old(outgoing) + Copies(msg, Retries(old(incoming)[..n], addr))
    {
      hide InterruptsIn, AnswerAt, Retries, Pushed, Copies, Queued, RingContents, Traced;
      ghost var n, taken := AnswerAt(incoming, addr, 0), [];
      ghost var was, stream, first, retries := Queued(), incoming, outgoing, 0;
      NothingYet(was, first, msg, addr);
      while |incoming| > 0
        invariant |taken| <= n && taken + incoming == stream && received == old(received) + taken
        invariant Valid() && delivered == old(delivered) && old(trace) <= trace
        invariant Queued() == Pushed(was, InterruptsIn(taken))
        invariant outgoing == first + Copies(msg, retries) && retries == Retries(taken, addr)
        decreases |incoming|
      {
        TakeOne(taken, incoming, old(received));
        var done, m := ReceiveForCall(addr, msg);
        if done {
          return Some(m);
        }
        OneMore(was, taken, m, addr);
        CopiesNext(first, msg, retries);
        retries := if m.src == addr && m.kind == RETURN_RETRY then retries + 1 else retries;
        taken := taken + [m];
      }
      assert taken + [] == taken && stream[..|stream|] == stream;
      return None;
    }

    /** Calls a function of node `addr`. Interrupts that arrive before its answer are queued, the call is sent again
        when the node asks for it, anything else is discarded. None while the answer has not arrived: the call waits,
        and has consumed what arrived. */
    method RPCFunctionCall(addr: nat, callnum: nat, d0: nat, d1: nat, d2: nat)
      returns (ok: int, retval: Option<Message>)
      requires Valid()
      modifies this, g_pendingInterrupts
      ensures Valid() && delivered == old(delivered) && old(trace) <= trace
      ensures var n := AnswerAt(old(incoming), addr, 0);
        && retval == (if n < |old(incoming)| then Some(old(incoming)[n]) else None)
        && (retval.Some? ==> ok == if retval.value.kind == RETURN_SUCCESS then 0 else -1)
        && incoming == Left(old(incoming), n) && received == old(received) + Consumed(old(incoming), n)
        && Queued() == Pushed(old(Queued()), InterruptsIn(old(incoming)[..n]))
        && outgoing == old(outgoing) + Copies(Message(0, addr, callnum, CALL, [d0, d1, d2]),
           1 + Retries(old(incoming)[..n], addr))
    {
      hide InterruptsIn, AnswerAt, Retries, Pushed, Copies, RingContents, Replay, ArrivalsIn;
      var msg := Message(0, addr, callnum, CALL, [d0, d1, d2]);
      CopiesFirst(outgoing, msg, Retries(incoming[..AnswerAt(incoming, addr, 0)], addr));
      outgoing := outgoing + [msg];
      retval := AwaitAnswer(addr, msg);
      ok := if retval.Some? && retval.value.kind == RETURN_SUCCESS then 0 else -1;
    }
  }

  lemma {:induction false} TakeOne(taken: seq<Message>, rest: seq<Message>, before: seq<Message>)
    requires |rest| > 0
    ensures (taken + rest)[|taken|] == rest[0] && (taken + rest)[..|taken|] == taken
    ensures (taken + rest)[|taken| + 1..] == rest[1..] && taken + [rest[0]] + rest[1..] == taken + rest
    ensures (taken + rest)[..|taken| + 1] == taken + [rest[0]]
    ensures before + taken + [rest[0]] == before + (taken + [rest[0]])
  {
  }

  /** Where waiting for position `n` of a stream stands when `taken` has been discarded. */
  lemma {:induction false} StoppedAt(taken: seq<Message>, rest: seq<Message>, stream: seq<Message>, n: nat,
                                     before: seq<Message>)
    requires taken + rest == stream && |taken| <= n <= |stream|
    ensures rest == [] ==> n == |stream| && Left(stream, n) == [] && Consumed(stream, n) == taken
    ensures |rest| > 0 ==>
              stream[|taken|] == rest[0] && taken + [rest[0]] + rest[1..] == stream
              && before + taken + [rest[0]] == before + (taken + [rest[0]])
    ensures |rest| > 0 && n == |taken| ==> Left(stream, n) == rest[1..] && Consumed(stream, n) == taken + [rest[0]]
  {
    if |rest| > 0 {
      TakeOne(taken, rest, before);
    } else {
      assert taken + [] == taken;
    }
  }

  lemma {:induction false} RingPush(ring: seq<Message>, rd: nat, count: nat, m: Message)
    requires |ring| == INTERRUPT_QUEUE_SIZE && rd < INTERRUPT_QUEUE_SIZE && count < INTERRUPT_QUEUE_SIZE
    ensures RingContents(ring[Slot(rd, count) := m], rd, count + 1) == RingContents(ring, rd, count) + [m]
  {
  }

  lemma {:induction false} RingPop(ring: seq<Message>, rd: nat, count: nat)
    requires |ring| == INTERRUPT_QUEUE_SIZE && rd < INTERRUPT_QUEUE_SIZE && 0 < count <= INTERRUPT_QUEUE_SIZE
    ensures RingContents(ring, rd, count) == [ring[rd]] + RingContents(ring, Slot(rd, 1), count - 1)
  {
  }

  function Copies(m: Message, n: nat): (r: seq<Message>)
    ensures |r| == n
  {
    seq(n, _ => m)
  }

  lemma {:induction false} NothingYet(queue: seq<Message>, first: seq<Message>, msg: Message, addr: nat)
    ensures InterruptsIn([]) == [] && Retries([], addr) == 0 && first + Copies(msg, 0) == first
    ensures |queue| <= INTERRUPT_QUEUE_SIZE ==> Pushed(queue, []) == queue
  {
    assert queue + [] == queue;
  }

  lemma {:induction false} CopiesFirst(first: seq<Message>, m: Message, n: nat)
    ensures first + [m] + Copies(m, n) == first + Copies(m, 1 + n)
  {
  }

  /** One more message of the stream, and what the queue and the sender make of it. */
  lemma {:induction false} OneMore(queue: seq<Message>, stream: seq<Message>, m: Message, addr: nat)
    requires |queue| <= INTERRUPT_QUEUE_SIZE
    ensures Pushed(queue, InterruptsIn(stream + [m]))
            == if m.kind == INTERRUPT then Pushed(Pushed(queue, InterruptsIn(stream)), [m])
                else Pushed(queue, InterruptsIn(stream))
    ensures Retries(stream + [m], addr) == Retries(stream, addr) + if m.src == addr && m.kind == RETURN_RETRY then 1
        else 0
  {
    StreamNext(stream, m);
    var before := InterruptsIn(stream);
    assert queue + (before + [m]) == queue + before + [m];
    assert InterruptsIn(stream) + [] == InterruptsIn(stream);
    assert (stream + [m])[..|stream|] == stream;
  }

  lemma {:induction false} CopiesNext(first: seq<Message>, m: Message, n: nat)
    ensures first + Copies(m, n) + [m] == first + Copies(m, n + 1)
  {
  }

  datatype Op = Call(addr: nat, callnum: nat, d0: nat, d1: nat, d2: nat) | GetInterrupt

  /** What a node holds: the interrupts queued and the messages still to come. */
  datatype Held = Held(queue: seq<Message>, incoming: seq<Message>)

  /** A node between operations, or waiting in one for ever after; and what its reads have returned. */
  datatype Progress = Progress(held: Held, got: seq<Message>, waiting: bool)

  function OpOn(held: Held, op: Op): Progress {
    match op
    case Call(addr, _, _, _, _) =>
      var n := AnswerAt(held.incoming, addr, 0);
      var after := Held(Pushed(held.queue, InterruptsIn(held.incoming[..n])), Left(held.incoming, n));
      Progress(after, [], n == |held.incoming|)
    case GetInterrupt =>
      if |held.queue| > 0 then Progress(held.(queue := held.queue[1..]), [held.queue[0]], false)
      else
        var n := InterruptAt(held.incoming, 0);
        var after := Held([], Left(held.incoming, n));
        if n == |held.incoming| then Progress(after, [], true) else Progress(after, [held.incoming[n]], false)
  }

  /** Operations one after another; none is begun while one waits. */
  function OpsOn(held: Held, ops: seq<Op>): Progress {
    if |ops| == 0 then Progress(held, [], false)
    else
      var before := OpsOn(held, ops[..|ops| - 1]);
      if before.waiting then before
      else
        var last := OpOn(before.held, ops[|ops| - 1]);
        last.(got := before.got + last.got)
  }

  /** One operation on a node. */
  method Perform(node: Node, op: Op) returns (got: seq<Message>, waiting: bool)
    requires node.Valid()
    modifies node, node.g_pendingInterrupts
    ensures node.Valid() && node.delivered == old(node.delivered) + got && old(node.trace) <= node.trace
    ensures Progress(Held(node.Queued(), node.incoming), got, waiting)
        == OpOn(old(Held(node.Queued(), node.incoming)), op)
    ensures exists consumed ::
              (consumed + node.incoming == old(node.incoming) && node.received == old(node.received) + consumed)
  {
    hide InterruptsIn, AnswerAt, InterruptAt, Retries, Pushed, Copies, RingContents, Replay, ArrivalsIn;
    got := [];
    ghost var stream := node.incoming;
    match op {
      case Call(addr, callnum, d0, d1, d2) =>
        var _, retval := node.RPCFunctionCall(addr, callnum, d0, d1, d2);
        waiting := retval.None?;
        ConsumedAndLeft(stream, AnswerAt(stream, addr, 0));
      case GetInterrupt =>
        var r := node.GetRPCInterrupt();
        waiting := r.None?;
        if r.Some? {
          got := [r.value];
        }
        ConsumedAndLeft(stream, InterruptAt(stream, 0));
        assert [] + node.incoming == node.incoming && old(node.received) + [] == old(node.received);
    }
  }

  lemma {:induction false} ConsumedAndLeft(stream: seq<Message>, n: nat)
    requires n <= |stream|
    ensures Consumed(stream, n) + Left(stream, n) == stream
  {
  }

  /** Any mix of calls and interrupt reads, until one waits. `trace` says what happened to the ring: its arrivals are
      the interrupts among the messages consumed, and the queue of 32 that it is replayed on ends with what is queued
      and gives what was returned. */
  method Session(node: Node, ops: seq<Op>)
    returns (got: seq<Message>, waiting: bool, ghost trace: seq<Moment>, ghost consumed: seq<Message>)
    requires node.Valid()
    modifies node, node.g_pendingInterrupts
    ensures node.Valid() && Progress(Held(node.Queued(), node.incoming), got, waiting)
                            == OpsOn(old(Held(node.Queued(), node.incoming)), ops)
    ensures consumed + node.incoming == old(node.incoming)
    ensures ArrivalsIn(trace) == InterruptsIn(consumed)
    ensures Replay(old(node.Queued()), trace) == Replayed(node.Queued(), got)
    ensures old(node.Queued()) + KeptIn(old(node.Queued()), trace) == got + node.Queued()
  {
    hide InterruptsIn, OpOn, RingContents, Replay, ArrivalsIn, KeptIn;
    got, waiting, consumed := [], false, [];
    ghost var start := Held(node.Queued(), node.incoming);
    assert ops[..0] == [];
    for i := 0 to |ops|
      invariant node.Valid() && node.delivered == old(node.delivered) + got && old(node.trace) <= node.trace
      invariant consumed + node.incoming == old(node.incoming) && node.received == old(node.received) + consumed
      invariant Progress(Held(node.Queued(), node.incoming), got, waiting) == OpsOn(start, ops[..i])
    {
      assert ops[..i + 1][..i] == ops[..i];
      if !waiting {
        ghost var before, receivedBefore := node.incoming, node.received;
        var more;
        more, waiting := Perform(node, ops[i]);
        ghost var now :| now + node.incoming == before && node.received == receivedBefore + now;
        got := got + more;
        consumed := consumed + now;
      }
    }
    assert ops[..|ops|] == ops;
    trace := node.trace[|old(node.trace)|..];
    assert node.trace == old(node.trace) + trace;
    TracesJoin([], old(node.trace), trace);
    StreamJoin(old(node.received), consumed);
    SameRest(ArrivalsIn(old(node.trace)), ArrivalsIn(trace), InterruptsIn(consumed));
    SameRest(old(node.delivered), Replay(old(node.Queued()), trace).got, got);
    Conserved(old(node.Queued()), trace);
  }

  lemma {:induction false} StreamJoin(a: seq<Message>, b: seq<Message>)
    ensures InterruptsIn(a + b) == InterruptsIn(a) + InterruptsIn(b)
  {
    if |b| == 0 {
      assert a + b == a;
    } else {
      var c := b[..|b| - 1];
      StreamJoin(a, c);
      assert a + b == (a + c) + [b[|b| - 1]];
      StreamNext(a + c, b[|b| - 1]);
    }
  }
}
