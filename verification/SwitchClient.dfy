/** The client's end of the switch's protocol (src/nocbridge/NOCSwitchInterface.cpp): one byte stream carries the
    messages for the client and the replies to its requests, and is sorted into a queue and the replies. */
module SwitchClient {
  import opened Bits
  import opened RpcMessages
  import opened NocSwitch
  import opened Options
  import opened Collections

  /** Messages as they stand in the stream. */
  function Stream(messages: seq<RpcMessage>): (bytes: seq<nat>)
  {
    if |messages| == 0 then [] else UnitBytes(Rpc(messages[0])) + Stream(messages[1..])
  }

  lemma {:induction false} StreamJoin(a: seq<RpcMessage>, b: seq<RpcMessage>)
    ensures Stream(a + b) == Stream(a) + Stream(b)
  {
    hide UnitBytes;
    if |a| == 0 {
      assert a + b == b;
    } else {
      StreamJoin(a[1..], b);
      assert (a + b)[1..] == a[1..] + b;
    }
  }

  predicate OnTheWire(messages: seq<RpcMessage>) {
    forall m :: m in messages ==> Typed(m) && Fits(m)
  }

  lemma {:induction false} WireJoin(a: seq<RpcMessage>, b: seq<RpcMessage>)
    requires OnTheWire(a) && OnTheWire(b)
    ensures OnTheWire(a + b)
  {
    hide Typed, Fits;
  }

  lemma NothingInFlight()
    ensures Stream([]) == [] && OnTheWire([])
  {
  }

  lemma {:induction false} SomethingInFlight(messages: seq<RpcMessage>)
    ensures Stream(messages) == [] ==> messages == []
  {
  }

  /** What the bridge hands to the switch is always on the wire's terms. */
  lemma {:induction false} BridgeMessagesFit(words: seq<nat>)
    requires |words| == 4 && forall i :: 0 <= i < 4 ==> words[i] < TWO_32
    ensures OnTheWire([UnpackWords(words)])
  {
    var m := UnpackWords(words);
    FieldWidths(words[0], words[1]);
    assert words[2] < TWO_32 && words[3] < TWO_32;
    assert m.src == words[0] / 0x1_0000 && m.callnum == words[1] / 0x100_0000;
  }

  lemma {:induction false} FieldWidths(route: nat, head: nat)
    requires route < TWO_32 && head < TWO_32
    ensures route / 0x1_0000 < 0x1_0000 && head / 0x100_0000 < 0x100 && head / 0x20_0000 % 8 < 8
  {
  }

  class NOCSwitchInterface {
    var m_rxqueue: seq<RpcMessage>
    /** The bytes that have arrived on the socket and have not been read. */
    var socket: seq<nat>
    /** The messages those bytes are; all that arrived; and all that calls have returned. */
    ghost var inFlight: seq<RpcMessage>
    ghost var arrived: seq<RpcMessage>
    ghost var returned: seq<RpcMessage>

    /** Between calls no reply is outstanding, and nothing that arrived has been lost, repeated or reordered. */
    ghost predicate Valid()
      reads this
    {
      socket == Stream(inFlight) && OnTheWire(inFlight) && arrived == returned + Pending()
    }

    ghost function Pending(): seq<RpcMessage>
      reads this
    {
      m_rxqueue + inFlight
    }

    constructor ()
      ensures Valid() && arrived == [] && returned == []
    {
      m_rxqueue, socket := [], [];
      inFlight, arrived, returned := [], [], [];
    }

    /** The switch writes messages for the client, at any time. */
    method Arrive(messages: seq<RpcMessage>)
      requires Valid() && OnTheWire(messages)
      modifies `socket, `inFlight, `arrived
      ensures Valid() && arrived == old(arrived) + messages && returned == old(returned)
      ensures Pending() == old(Pending()) + messages
    {
      hide PackedBytes, UnitBytes, Stream, OnTheWire;
      StreamJoin(inFlight, messages);
      WireJoin(inFlight, messages);
      socket := socket + Stream(messages);
      inFlight := inFlight + messages;
      arrived := arrived + messages;
      assert returned + Pending() == old(returned + Pending()) + messages;
    }

    /** Blocks for `n` bytes; fails when the connection drops, or the wait goes on, before they are there. */
    method RecvLooped(n: nat) returns (ok: bool, buf: seq<nat>)
      modifies `socket
      ensures |buf| == n && ok == (|old(socket)| >= n)
      ensures ok ==> buf == old(socket)[..n] && socket == old(socket)[n..]
      ensures !ok ==> socket == []
    {
      ok := |socket| >= n;
      if ok {
        buf, socket := socket[..n], socket[n..];
      } else {
        buf, socket := socket + seq(n - |socket|, i => 0), [];
      }
    }

    /** Reads up to the opcode awaited, queueing the messages ahead of it; `found` is whether it has come. When the
        opcode awaited follows the messages in flight, all of them are queued and what follows it is left in the
        stream; when the opcode is that of a message, nothing but the opcode of the first one in flight is read. */
    method ReadFramesUntil(kind: nat, ghost rest: seq<nat>) returns (found: bool)
      requires OnTheWire(inFlight)
      modifies `m_rxqueue, `socket, `inFlight
      ensures kind != OP_RPC && old(socket) == Stream(old(inFlight)) + ([kind] + rest) ==>
        found && socket == rest && m_rxqueue == old(m_rxqueue + inFlight) && inFlight == []
      ensures kind == OP_RPC && old(socket) == Stream(old(inFlight)) ==>
        m_rxqueue == old(m_rxqueue) && inFlight == old(inFlight) && found == (|old(socket)| > 0)
        && socket == if found then old(socket)[1..] else []
    {
      hide PackedBytes, UnpackBytes, UnitBytes, Stream, OnTheWire;
      ghost var up := kind != OP_RPC && socket == Stream(inFlight) + ([kind] + rest);
      ghost var message := kind == OP_RPC && socket == Stream(inFlight);
      NothingInFlight();
      SomethingInFlight(inFlight);
      while true
        invariant OnTheWire(inFlight)
        invariant up ==> socket == Stream(inFlight) + ([kind] + rest)
        invariant up ==> m_rxqueue + inFlight == old(m_rxqueue + inFlight)
        invariant message ==> socket == old(socket) && m_rxqueue == old(m_rxqueue) && inFlight == old(inFlight)
        decreases |socket|
      {
        ghost var before := socket;
        var ok, op := RecvLooped(1);
        if up || message {
          assert message ==> before == before + [];
          NextFrame(inFlight, if up then [kind] + rest else [], before);
        }
        if !ok {
          return false;
        }
        if op[0] == kind {
          assert up ==> inFlight == [] && m_rxqueue + [] == m_rxqueue && ([kind] + rest)[1..] == rest;
          return true;
        }
        if op[0] == OP_RPC {
          var _, buf := RecvLooped(16);
          m_rxqueue := m_rxqueue + [UnpackBytes(buf)];
          if up {
            assert inFlight == [UnpackBytes(buf)] + inFlight[1..];
            inFlight := inFlight[1..];
          }
        }
      }
    }

    /** Polls: fails only when no message has arrived. */
    method RecvRPCMessage() returns (ok: bool, m: RpcMessage)
      requires Valid()
      modifies this
      ensures Valid() && arrived == old(arrived)
      ensures ok == (old(Pending()) != [])
      ensures ok ==> m == old(Pending())[0] && returned == old(returned) + [m] && Pending() == old(Pending())[1..]
      ensures !ok ==> returned == old(returned)
    {
      hide PackedBytes, UnpackBytes, UnitBytes, OnTheWire;
      NothingInFlight();
      m := RpcMessage(0, 0, 0, 0, 0, 0, 0);
      if m_rxqueue == [] {
        // the switch answers a ping after everything it has already sent
        socket := socket + [OP_PING];
        assert [OP_PING] + [] == [OP_PING];
        var _ := ReadFramesUntil(OP_PING, []);
      }
      ok := m_rxqueue != [];
      if ok {
        m, m_rxqueue := m_rxqueue[0], m_rxqueue[1..];
        returned := returned + [m];
      }
    }

    /** Waits for a message. None while none has arrived: the call waits, and has read nothing. */
    method RecvRPCMessageBlocking() returns (m: Option<RpcMessage>)
      requires Valid()
      modifies this
      ensures Valid() && arrived == old(arrived)
      ensures m == if |old(Pending())| > 0 then Some(old(Pending())[0]) else None
      ensures m.Some? ==> returned == old(returned) + [m.value] && Pending() == old(Pending())[1..]
      ensures m.None? ==> returned == old(returned) && Pending() == []
    {
      hide PackedBytes, UnpackBytes, UnitBytes, Stream, OnTheWire;
      NothingInFlight();
      SomethingInFlight(inFlight);
      if m_rxqueue != [] {
        m, m_rxqueue := Some(m_rxqueue[0]), m_rxqueue[1..];
      } else {
        assert socket == socket + [];
        NextFrame(inFlight, [], socket);
        var found := ReadFramesUntil(OP_RPC, []);
        if !found {
          return None;
        }
        var _, buf := RecvLooped(16);
        m := Some(UnpackBytes(buf));
        inFlight := inFlight[1..];
      }
      returned := returned + [m.value];
    }

    /** Asks for an address, which the switch grants or not; messages ahead of the reply are kept. */
    method AllocateClientAddress(grant: Option<nat>) returns (ok: bool, addr: nat)
      requires Valid() && (grant.Some? ==> grant.value < 0x1_0000)
      modifies this
      ensures Valid() && arrived == old(arrived) && returned == old(returned) && Pending() == old(Pending())
      ensures ok == grant.Some? && (ok ==> addr == grant.value)
    {
      hide PackedBytes, UnpackBytes, Stream, OnTheWire;
      NothingInFlight();
      addr := 0;
      ghost var reply := UnitBytes(AllocReply(grant))[1..];
      assert UnitBytes(AllocReply(grant)) == [OP_ALLOC_ADDR] + reply;
      socket := socket + UnitBytes(AllocReply(grant));
      var _ := ReadFramesUntil(OP_ALLOC_ADDR, reply);
      var status, bytes;
      ok, status := RecvLooped(1);
      ok := ok && status[0] != 0;
      if ok {
        ok, bytes := RecvLooped(2);
        addr := bytes[0] + bytes[1] * 0x100;
      }
    }
  }

  /** The first frame of a stream: a message of 16 bytes, or what comes after the messages. */
  lemma {:induction false} NextFrame(messages: seq<RpcMessage>, rest: seq<nat>, bytes: seq<nat>)
    requires OnTheWire(messages) && bytes == Stream(messages) + rest
    ensures |messages| == 0 ==> bytes == rest
    ensures |messages| > 0 ==>
              (&& |bytes| >= 17 && bytes[0] == OP_RPC && OnTheWire(messages[1..])
               && bytes[1..][16..] == Stream(messages[1..]) + rest && UnpackBytes(bytes[1..][..16]) == messages[0])
  {
    hide PackedBytes, UnpackBytes, Typed, Fits;
    if |messages| > 0 {
      var m, tail := messages[0], Stream(messages[1..]);
      BytesRoundTrip(m);
      FrameThenRest(PackedBytes(m), tail, rest, bytes);
    }
  }

  lemma {:induction false} FrameThenRest(frame: seq<nat>, tail: seq<nat>, rest: seq<nat>, bytes: seq<nat>)
    requires |frame| == 16 && bytes == [OP_RPC] + frame + tail + rest
    ensures |bytes| >= 17 && bytes[0] == OP_RPC && bytes[1..][16..] == tail + rest && bytes[1..][..16] == frame
  {
  }

  datatype Step = Arriving(messages: seq<RpcMessage>) | Poll | Block | Allocate(grant: Option<nat>)

  /** What calls return, given the messages queued or in flight before, and what is left of those; a blocking call
      that finds no message waits. */
  function StepOn(pending: seq<RpcMessage>, step: Step): (seq<RpcMessage>, seq<RpcMessage>) {
    match step
    case Arriving(messages) => (pending + messages, [])
    case Allocate(_) => (pending, [])
    case _ => if |pending| == 0 then (pending, []) else (pending[1..], [pending[0]])
  }

  function StepsOn(pending: seq<RpcMessage>, steps: seq<Step>): (seq<RpcMessage>, seq<RpcMessage>) {
    if |steps| == 0 then (pending, [])
    else
      var (before, got) := StepsOn(pending, steps[..|steps| - 1]);
      var (after, more) := StepOn(before, steps[|steps| - 1]);
      (after, got + more)
  }

  method Perform(client: NOCSwitchInterface, step: Step) returns (got: seq<RpcMessage>)
    requires client.Valid()
    requires step.Arriving? ==> OnTheWire(step.messages)
    requires step.Allocate? && step.grant.Some? ==> step.grant.value < 0x1_0000
    modifies client
    ensures client.Valid() && client.arrived == old(client.arrived) + ArrivingIn(step)
    ensures client.returned == old(client.returned) + got
    ensures (client.Pending(), got) == StepOn(old(client.Pending()), step)
  {
    hide PackedBytes, UnpackBytes, UnitBytes, Stream, OnTheWire;
    NothingInFlight();
    SomethingInFlight(client.inFlight);
    got := [];
    match step {
      case Arriving(messages) => client.Arrive(messages);
      case Poll =>
        var ok, m := client.RecvRPCMessage();
        if ok {
          got := [m];
        }
      case Block =>
        var m := client.RecvRPCMessageBlocking();
        if m.Some? {
          got := [m.value];
        }
      case Allocate(grant) => var _, _ := client.AllocateClientAddress(grant);
    }
  }

  /** Any mix of calls returns the messages of the stream in order: what was returned, then what is still queued
      or in flight, is everything that arrived. */
  method Session(client: NOCSwitchInterface, steps: seq<Step>) returns (got: seq<RpcMessage>)
    requires client.Valid()
    requires forall s :: s in steps && s.Arriving? ==> OnTheWire(s.messages)
    requires forall s :: s in steps && s.Allocate? && s.grant.Some? ==> s.grant.value < 0x1_0000
    modifies client
    ensures client.Valid() && (client.Pending(), got) == StepsOn(old(client.Pending()), steps)
    ensures old(client.Pending()) + AllArriving(steps) == got + client.Pending()
  {
    hide PackedBytes, UnpackBytes, UnitBytes, Stream, OnTheWire, AllArriving, StepOn;
    got := [];
    NothingArriving();
    assert steps[..0] == [];
    ghost var start := client.Pending();
    for i := 0 to |steps|
      invariant client.Valid() && client.arrived == old(client.arrived) + AllArriving(steps[..i])
      invariant client.returned == old(client.returned) + got
      invariant (client.Pending(), got) == StepsOn(start, steps[..i])
    {
      ArrivingStep(steps, i);
      assert steps[..i + 1][..i] == steps[..i];
      var more := Perform(client, steps[i]);
      got := got + more;
    }
    assert steps[..|steps|] == steps;
    SamePrefix(old(client.returned), got, client.Pending(), old(client.Pending()), AllArriving(steps));
  }

  function AllArriving(steps: seq<Step>): seq<RpcMessage> {
    if |steps| == 0 then [] else AllArriving(steps[..|steps| - 1]) + ArrivingIn(steps[|steps| - 1])
  }

  function ArrivingIn(step: Step): seq<RpcMessage> {
    if step.Arriving? then step.messages else []
  }

  lemma NothingArriving()
    ensures AllArriving([]) == []
  {
  }

  lemma {:induction false} ArrivingStep(steps: seq<Step>, i: nat)
    requires i < |steps|
    ensures AllArriving(steps[..i + 1]) == AllArriving(steps[..i]) + ArrivingIn(steps[i])
  {
    assert steps[..i + 1][..i] == steps[..i];
  }
}
