/** What the switch does with its clients' requests: messages for the network are queued for JTAG, and every ping and
    every request for an address is answered (src/nocswitch/ConnectionThread.cpp:82-171). */
module SwitchRequests {
  import opened RpcMessages
  import opened Options
  import opened NocSwitch
  import opened Collections

  // ----- messages for the network

  /** The messages of a run's requests that go to the network: from the debug subnet `low..high`, and not to it. */
  function ToNetwork(low: nat, high: nat, events: seq<Event>): seq<RpcMessage> {
    if |events| == 0 then []
    else
      var e := events[0];
      (if e.ByConnection? && e.step.AskRpc? && low <= e.step.m.src <= high && !(low <= e.step.m.dst <= high)
       then [e.step.m] else []) + ToNetwork(low, high, events[1..])
  }

  lemma {:induction false} StepQueues(s: State, e: Event)
    requires Possible(s, e)
    ensures var t := Next(s, e);
            t.low == s.low && t.high == s.high && t.toJtag == s.toJtag + ToNetwork(s.low, s.high, [e])
  {
    hide Lowest, SendBytes, AfterSend, PackedBytes;
    assert [e][1..] == [];
  }

  lemma {:induction false} QueuesJoin(low: nat, high: nat, events: seq<Event>)
    requires |events| > 0
    ensures ToNetwork(low, high, events) == ToNetwork(low, high, [events[0]]) + ToNetwork(low, high, events[1..])
  {
    assert [events[0]][1..] == [];
  }

  lemma {:induction false} RunQueues(s: State, events: seq<Event>)
    requires CanRun(s, events)
    ensures var t := Run(s, events);
            t.low == s.low && t.high == s.high && t.toJtag == s.toJtag + ToNetwork(s.low, s.high, events)
    decreases |events|
  {
    hide Next, Possible;
    if |events| > 0 {
      StepQueues(s, events[0]);
      RunQueues(Next(s, events[0]), events[1..]);
      QueuesJoin(s.low, s.high, events);
    }
  }

  /** In every run exactly the messages that clients send from the debug subnet to the network are queued for JTAG, each
      once and in the order they were sent. */
  lemma {:induction false} QueuedInOrder(s: State, events: seq<Event>)
    requires Initial(s) && CanRun(s, events)
    ensures Run(s, events).toJtag == ToNetwork(s.low, s.high, events)
  {
    hide Next, Possible, CanRun, Run, ToNetwork;
    RunQueues(s, events);
    assert [] + ToNetwork(s.low, s.high, events) == ToNetwork(s.low, s.high, events);
  }

  /** A message from outside the debug subnet sends its connection to clean-up and is not queued; a message to the debug
      subnet changes nothing; any other only joins the queue. */
  lemma {:induction false} MessageTaken(s: State, c: nat, m: RpcMessage)
    requires c < |s.conns| && s.conns[c].pc == Receiving
    ensures Possible(s, ByConnection(c, AskRpc(m)))
    ensures var t := Next(s, ByConnection(c, AskRpc(m)));
            if m.src < s.low || m.src > s.high then
              t == s.(conns := t.conns) && t.conns == s.conns[c := s.conns[c].(pc := WantCleanup)]
            else if s.low <= m.dst <= s.high then t == s
            else t == s.(toJtag := t.toJtag) && t.toJtag == s.toJtag + [m]
  {
    hide Lowest, SendBytes, AfterSend, PackedBytes;
  }

  // ----- requests that are answered

  datatype Request = Ping | Alloc

  /** The requests for an answer that connection `c` makes in a run. */
  function Asked(events: seq<Event>, c: nat): seq<Request> {
    if |events| == 0 then [] else AskedBy(events[0], c) + Asked(events[1..], c)
  }

  function AskedBy(e: Event, c: nat): seq<Request> {
    if e == ByConnection(c, AskPing) then [Ping] else if e == ByConnection(c, AskAlloc) then [Alloc] else []
  }

  /** The requests answered by what has been written to a client. */
  function Answered(units: seq<Unit>): seq<Request> {
    if |units| == 0 then []
    else
      Answered(units[..|units| - 1])
      + match units[|units| - 1] case PingReply => [Ping] case AllocReply(_) => [Alloc] case Rpc(_) => []
  }

  lemma {:induction false} AnsweredNext(units: seq<Unit>, u: Unit)
    ensures Answered([]) == []
    ensures Answered(units + [u])
         == Answered(units) + match u case PingReply => [Ping] case AllocReply(_) => [Alloc] case Rpc(_) => []
  {
    assert (units + [u])[..|units|] == units;
  }

  /** The request being answered. */
  function InHand(pc: ConnPc): seq<Request> {
    match pc
    case WantPing => [Ping]
    case PingSendOp => [Ping]
    case WantAlloc => [Alloc]
    case AllocSendOp => [Alloc]
    case AllocTake => [Alloc]
    case AllocSendOk(_) => [Alloc]
    case AllocSendAddr(_) => [Alloc]
    case _ => []
  }

  function Replied(s: State, c: nat): seq<Request> {
    if c < |s.conns| then Answered(s.conns[c].units) else []
  }

  function Replying(s: State, c: nat): seq<Request> {
    if c < |s.conns| then InHand(s.conns[c].pc) else []
  }

  /** A send to it has failed. */
  predicate Broken(s: State, c: nat) {
    c < |s.conns| && s.conns[c].broken
  }

  lemma {:induction false} ConnAnswers(s: State, c: nat, step: ConnStep, d: nat)
    requires ConnCan(s, c, step)
    ensures var t := ConnNext(s, c, step);
            && (Broken(s, d) ==> Broken(t, d))
            && (!Broken(t, d) ==>
                  Replied(t, d) + Replying(t, d) == Replied(s, d) + Replying(s, d) + AskedBy(ByConnection(c, step), d))
  {
    hide ConnNext, Answered;
    ConnOnly(s, c, step);
    if c == d {
      if step.Send? && step.ok {
        SendAnswers(s, c, step);
      } else {
        QuietAnswers(s, c, step);
      }
    }
  }

  lemma {:induction false} QuietAnswers(s: State, c: nat, step: ConnStep)
    requires ConnCan(s, c, step) && !(step.Send? && step.ok)
    ensures var conn, next := s.conns[c], ConnNext(s, c, step).conns[c];
            && next.units == conn.units && (conn.broken ==> next.broken)
            && (!next.broken ==> InHand(next.pc) == InHand(conn.pc) + AskedBy(ByConnection(c, step), c))
  {
    hide SendBytes, AfterSend, Lowest;
  }

  lemma {:induction false} SendAnswers(s: State, c: nat, step: ConnStep)
    requires ConnCan(s, c, step) && step.Send? && step.ok
    ensures var t := ConnNext(s, c, step);
            && (Broken(s, c) <==> Broken(t, c))
            && Replied(t, c) + Replying(t, c) == Replied(s, c) + Replying(s, c) + []
  {
    hide Answered, SendBytes, Lowest;
    var conn := s.conns[c];
    AnsweredNext(conn.units, PingReply);
    AnsweredNext(conn.units, AllocReply(None));
    if conn.pc.AllocSendAddr? {
      AnsweredNext(conn.units, AllocReply(Some(conn.pc.addr)));
    }
  }

  lemma {:induction false} JtagAnswers(s: State, act: JtagStep, d: nat)
    requires JtagCan(s, act)
    ensures var t := JtagNext(s, act);
            && (Broken(s, d) ==> Broken(t, d))
            && Replied(t, d) == Replied(s, d) && Replying(t, d) == Replying(s, d)
  {
    hide Answered, PackedBytes;
    if act.SendTo? && s.jtag.SendBody? && s.jtag.c == d {
      AnsweredNext(s.conns[d].units, Rpc(s.jtag.m));
    }
  }

  lemma {:induction false} ConnectAnswers(s: State, d: nat)
    ensures var t := Next(s, Connect);
            && Replied(t, d) == Replied(s, d) && Replying(t, d) == Replying(s, d) && (Broken(s, d) <==> Broken(t, d))
  {
  }

  lemma {:induction false} StepAnswers(s: State, e: Event, d: nat)
    requires Possible(s, e)
    ensures var t := Next(s, e);
            && (Broken(s, d) ==> Broken(t, d))
            && (!Broken(t, d) ==>
                  Replied(t, d) + Replying(t, d) == Replied(s, d) + Replying(s, d) + AskedBy(e, d))
  {
    hide ConnNext, JtagNext, ConnCan, JtagCan, Replied, Replying, Broken;
    match e
    case Connect => ConnectAnswers(s, d);
    case ByConnection(c, step) => ConnAnswers(s, c, step, d);
    case ByJtag(act) => JtagAnswers(s, act, d);
  }

  lemma {:induction false} RunAnswers(s: State, events: seq<Event>, c: nat)
    requires CanRun(s, events)
    ensures var t := Run(s, events);
            && (Broken(s, c) ==> Broken(t, c))
            && (!Broken(t, c) ==>
                  Replied(t, c) + Replying(t, c) == Replied(s, c) + Replying(s, c) + Asked(events, c))
    decreases |events|
  {
    hide Next, Possible, Replied, Replying, Broken, AskedBy;
    if |events| > 0 {
      var next := Next(s, events[0]);
      StepAnswers(s, events[0], c);
      RunAnswers(next, events[1..], c);
    }
  }

  /** In every run, as long as no send to a client fails, it has been sent one reply of the right kind for every ping
      and every request for an address, in the order it asked, less the one in hand. */
  lemma {:induction false} AnsweredInOrder(s: State, events: seq<Event>, c: nat)
    requires Initial(s) && CanRun(s, events)
    ensures var t := Run(s, events);
            !Broken(t, c) ==> Replied(t, c) + Replying(t, c) == Asked(events, c)
  {
    hide *;
    RunAnswers(s, events, c);
    NothingYet(s, c);
    assert [] + [] + Asked(events, c) == Asked(events, c);
  }

  lemma {:induction false} NothingYet(s: State, c: nat)
    requires Initial(s)
    ensures Replied(s, c) == [] && Replying(s, c) == [] && !Broken(s, c)
  {
  }

  /** A request for an address is answered with the lowest that is free, which then is not, or with none when none is.
      */
  lemma {:induction false} AddressTaken(s: State, c: nat)
    requires c < |s.conns| && s.conns[c].pc == AllocTake
    ensures Possible(s, ByConnection(c, TakeAddress))
    ensures var t := Next(s, ByConnection(c, TakeAddress));
            && |t.conns| == |s.conns| && t.conns[c].pc.AllocSendOk? && (t.conns[c].pc.taken == None <==> s.free == {})
            && (s.free == {} ==> t.free == {})
            && (s.free != {} ==>
                  var a := t.conns[c].pc.taken.value;
                  a in s.free && t.free == s.free - {a} && forall b :: b in s.free ==> a <= b)
  {
    hide SendBytes, AfterSend, PackedBytes;
  }

  /** The octets of a reply: the opcode, for an address whether there is one, and the address with its low byte first.
      */
  lemma {:induction false} ReplyOctets(a: nat)
    requires a < 0x1_0000
    ensures UnitBytes(PingReply) == [0x05] && UnitBytes(AllocReply(None)) == [0x01, 0x00]
    ensures var bytes := UnitBytes(AllocReply(Some(a)));
            |bytes| == 4 && bytes[..2] == [0x01, 0x01] && bytes[2] < 0x100 && bytes[3] < 0x100
            && bytes[2] + 0x100 * bytes[3] == a
  {
    var bytes := UnitBytes(AllocReply(Some(a)));
    assert bytes == [0x01, 0x01, a % 0x100, a / 0x100];
  }
}
