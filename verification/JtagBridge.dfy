/** The bridge object (src/nocbridge/JTAGNOCBridgeInterface.cpp): address allocation, the two message
    queues and Cycle. Its mutexes guard single queue operations and are not modelled; the JTAG shift is
    a function from the words sent to the words that come back. */
module JtagBridge {
  import opened Bits
  import opened RpcMessages
  import opened JtagFrames
  import opened JtagLink
  import opened Options
  import opened Collections

  const TX_BUF_LEN := 32

  class JTAGNOCBridgeInterface {
    const debugLow: nat
    const debugHigh: nat
    var m_freeAddresses: set<nat>
    var m_nextSequence: nat
    var m_nextAck: nat
    var m_acking: bool
    var m_txBuffer: seq<u32>
    var m_rxBuffer: seq<u32>
    var m_rpcTxFifo: seq<RpcMessage>
    var m_rpcRxFifo: seq<RpcMessage>

    /** Every frame sent, every word sent and every message queued since construction. */
    ghost var frames: seq<Frame>
    ghost var wire: seq<u32>
    ghost var queued: seq<RpcMessage>

    ghost predicate Valid()
      reads this
    {
      && m_nextAck < 0x400 && m_nextSequence == |frames| % 0x400 && m_txBuffer == []
      && AllSendable(frames) && (forall m :: m in m_rpcTxFifo ==> Typed(m))
      && wire == WordsFrom(frames, 0)
      && queued == MessagesFrom(frames, 0) + m_rpcTxFifo
    }

    ghost function Rx(): Receiver
      reads this
    {
      Receiver(m_rxBuffer, m_rpcRxFifo, m_acking, m_nextAck)
    }

    constructor (low: nat, high: nat)
      ensures Valid() && debugLow == low && debugHigh == high
      ensures forall a: nat :: a in m_freeAddresses <==> low <= a <= high
      ensures frames == [] && queued == [] && Rx() == Receiver([], [], false, 0)
    {
      debugLow, debugHigh := low, high;
      m_freeAddresses := {};
      m_nextSequence, m_nextAck, m_acking := 0, 0, false;
      m_txBuffer, m_rxBuffer, m_rpcTxFifo, m_rpcRxFifo := [], [], [], [];
      frames, wire, queued := [], [], [];
      new;
      var i := low;
      while i <= high
        invariant Valid() && frames == [] && queued == [] && Rx() == Receiver([], [], false, 0)
        invariant low <= i && (low <= high ==> i <= high + 1) && (low > high ==> i == low)
        invariant forall a: nat :: a in m_freeAddresses <==> low <= a < i
      {
        m_freeAddresses := m_freeAddresses + {i};
        i := i + 1;
      }
    }

    // ----- addresses

    /** Hands out the lowest free address, if there is one. */
    method AllocateClientAddress() returns (ok: bool, addr: nat)
      modifies `m_freeAddresses
      ensures ok == (old(m_freeAddresses) != {})
      ensures ok ==> addr in old(m_freeAddresses) && m_freeAddresses == old(m_freeAddresses) - {addr}
      ensures ok ==> forall a :: a in old(m_freeAddresses) ==> addr <= a
      ensures !ok ==> m_freeAddresses == old(m_freeAddresses)
    {
      if m_freeAddresses == {} {
        return false, 0;
      }
      LeastExists(m_freeAddresses);
      addr :| addr in m_freeAddresses && forall a :: a in m_freeAddresses ==> addr <= a;
      m_freeAddresses := m_freeAddresses - {addr};
      ok := true;
    }

    /** Takes an address back, unless it is not a debug address or is free already. */
    method FreeClientAddress(addr: nat)
      modifies `m_freeAddresses
      ensures m_freeAddresses == old(m_freeAddresses) + if debugLow <= addr <= debugHigh then {addr} else {}
    {
      if addr < debugLow || addr > debugHigh {
        return;
      }
      if addr in m_freeAddresses {
        return;
      }
      m_freeAddresses := m_freeAddresses + {addr};
    }

    // ----- queues

    method SendRPCMessage(m: RpcMessage)
      requires Valid() && Typed(m)
      modifies `m_rpcTxFifo, `queued
      ensures Valid() && queued == old(queued) + [m] && m_rpcTxFifo == old(m_rpcTxFifo) + [m]
    {
      hide WordsFrom, MessagesFrom, Typed;
      assert MessagesFrom(frames, 0) + (m_rpcTxFifo + [m]) == MessagesFrom(frames, 0) + m_rpcTxFifo + [m];
      m_rpcTxFifo := m_rpcTxFifo + [m];
      queued := queued + [m];
    }

    method RecvRPCMessage() returns (ok: bool, m: RpcMessage)
      modifies `m_rpcRxFifo
      ensures ok == (old(m_rpcRxFifo) != [])
      ensures m_rpcRxFifo == if ok then old(m_rpcRxFifo)[1..] else []
      ensures ok ==> m == old(m_rpcRxFifo)[0]
    {
      if m_rpcRxFifo == [] {
        return false, RpcMessage(0, 0, 0, 0, 0, 0, 0);
      }
      m := m_rpcRxFifo[0];
      m_rpcRxFifo := m_rpcRxFifo[1..];
      ok := true;
    }

    // ----- the transmit half of Cycle

    /** The state between two frames being put into the transmit buffer, which started with frame `first`. */
    ghost predicate Filling(first: nat)
      reads this
    {
      && m_nextAck < 0x400 && m_nextSequence == |frames| % 0x400 && first <= |frames|
      && AllSendable(frames)
      && m_txBuffer == WordsFrom(frames, first)
      && wire == WordsFrom(frames, 0)
    }

    /** Formats a frame with the current sequence number and acknowledgement. */
    method BuildFrame(payload: Option<RpcMessage>) returns (words: seq<u32>)
      requires m_nextAck < 0x400 && m_nextSequence < 0x400 && (payload.Some? ==> Typed(payload.value))
      ensures words == FrameWords(m_nextSequence, Frame(m_acking, m_nextAck, payload))
    {
      hide Head, PayloadChecksum, Sealed, HeaderOf, Verifies, Word0, Word1;
      var rpc := payload.Some?;
      var length := if rpc then 4 else 0;
      var header := Header(m_nextAck, 0x3ff, m_nextSequence, false, m_acking, 0, length, 0, false, rpc, rpc);
      var sealed := ComputeHeaderChecksum(header);
      SealedVerifies(header);
      words := [Word0(sealed), Word1(sealed)];
      if payload.Some? {
        var body := PackWords(payload.value);
        var crc := ComputePayloadChecksum(body);
        words := words + (body + [crc]);
      }
    }

    /** Appends a frame and takes the next sequence number. */
    method PushFrame(payload: Option<RpcMessage>, ghost first: nat) returns (ghost added: seq<u32>)
      requires payload.Some? ==> Typed(payload.value)
      requires Filling(first)
      modifies `m_nextSequence, `m_txBuffer, `frames, `wire
      ensures frames == old(frames) + [Frame(m_acking, m_nextAck, payload)]
      ensures Filling(first)
      ensures |added| == if payload.Some? then 7 else 2
      ensures m_txBuffer == old(m_txBuffer) + added && wire == old(wire) + added
    {
      hide WordsFrom, MessagesFrom, Typed;
      ghost var f := Frame(m_acking, m_nextAck, payload);
      OneMoreFrame(frames, f, first);
      OneMoreFrame(frames, f, 0);
      var words := BuildFrame(payload);
      m_txBuffer := m_txBuffer + words;
      NextModulo(|frames|);
      m_nextSequence := NextSeq(m_nextSequence);
      wire := wire + words;
      frames := frames + [f];
      added := words;
    }

    /** Everything queued is sent or still waiting. */
    ghost predicate NoneLost()
      reads this
    {
      queued == MessagesFrom(frames, 0) + m_rpcTxFifo && forall m :: m in m_rpcTxFifo ==> Typed(m)
    }

    /** Puts queued messages into the transmit buffer as long as there is room. */
    method SendQueued()
      requires Filling(|frames|) && NoneLost() && m_txBuffer == []
      modifies `m_nextSequence, `m_txBuffer, `m_rpcTxFifo, `frames, `wire
      ensures Filling(|old(frames)|) && NoneLost() && wire == old(wire) + m_txBuffer
      ensures var n := TakenNow(old(m_rpcTxFifo));
        && |m_txBuffer| == 7 * n && m_rpcTxFifo == old(m_rpcTxFifo)[n..]
        && frames == old(frames) + MessageFrames(old(m_rpcTxFifo)[..n], m_acking, m_nextAck)
    {
      hide WordsFrom, MessagesFrom, FrameWords, Typed, AllSendable;
      ghost var first, fifo, n := |frames|, m_rpcTxFifo, 0;
      while |m_txBuffer| < TX_BUF_LEN - 7
        invariant Filling(first) && NoneLost() && wire == old(wire) + m_txBuffer
        invariant |m_txBuffer| == 7 * n && n <= 4 && n <= |fifo| && m_rpcTxFifo == fifo[n..]
        invariant frames == old(frames) + MessageFrames(fifo[..n], m_acking, m_nextAck)
        decreases |m_rpcTxFifo|
      {
        if m_rpcTxFifo == [] {
          break;
        }
        var txm := m_rpcTxFifo[0];
        ghost var rest := m_rpcTxFifo[1..];
        m_rpcTxFifo := m_rpcTxFifo[1..];
        SentMessage(frames, Frame(m_acking, m_nextAck, Some(txm)), m_rpcTxFifo);
        ghost var added := PushFrame(Some(txm), first);
        MessageFramesNext(old(frames), fifo, n, m_acking, m_nextAck);
        n := n + 1;
      }
    }

    /** Pads the transmit buffer with idle frames. */
    method PadWithIdle(ghost first: nat)
      requires Filling(first) && NoneLost() && |m_txBuffer| <= TX_BUF_LEN
      modifies `m_nextSequence, `m_txBuffer, `frames, `wire
      ensures Filling(first) && NoneLost() && TX_BUF_LEN - 1 <= |m_txBuffer| <= TX_BUF_LEN
      ensures frames == old(frames) + IdleFrames((TX_BUF_LEN - |old(m_txBuffer)|) / 2, m_acking, m_nextAck)
      ensures exists added :: m_txBuffer == old(m_txBuffer) + added && wire == old(wire) + added
    {
      hide WordsFrom, MessagesFrom, FrameWords, Typed, AllSendable;
      ghost var k, all := 0, [];
      while |m_txBuffer| <= TX_BUF_LEN - 2
        invariant Filling(first) && NoneLost() && |m_txBuffer| == |old(m_txBuffer)| + 2 * k <= TX_BUF_LEN
        invariant frames == old(frames) + IdleFrames(k, m_acking, m_nextAck)
        invariant m_txBuffer == old(m_txBuffer) + all && wire == old(wire) + all
      {
        SentIdle(frames, Frame(m_acking, m_nextAck, None));
        ghost var added := PushFrame(None, first);
        IdleFramesNext(old(frames), k, m_acking, m_nextAck);
        all := all + added;
        k := k + 1;
      }
    }

    /** Fills the transmit buffer with queued messages and pads it with idle frames. */
    method Transmit() returns (tx: seq<u32>)
      requires Valid()
      modifies `m_nextSequence, `m_txBuffer, `m_rpcTxFifo, `frames, `wire
      ensures Valid()
      ensures m_rpcTxFifo == old(m_rpcTxFifo)[TakenNow(old(m_rpcTxFifo))..]
      ensures frames == old(frames) + CycleFrames(old(m_rpcTxFifo), m_acking, m_nextAck)
      ensures tx == WordsFrom(frames, |old(frames)|) && wire == old(wire) + tx
      ensures 31 <= |tx| <= 32
    {
      hide WordsFrom, MessagesFrom, FrameWords, Typed, AllSendable;
      EmptyTail(frames);
      SendQueued();
      PadWithIdle(|old(frames)|);
      tx := m_txBuffer;
      m_txBuffer := [];
    }

    // ----- the receive half of Cycle

    /** Appends the words that came back and consumes whole frames. */
    method Receive(rx: seq<u32>)
      requires m_nextAck < 0x400
      modifies `m_rxBuffer, `m_rpcRxFifo, `m_acking, `m_nextAck
      ensures Rx() == Feed(old(Rx()), rx)
      ensures m_nextAck < 0x400
    {
      hide Verifies, HeaderOf, PayloadChecksum, UnpackWords, Process;
      m_rxBuffer := m_rxBuffer + rx;
      ghost var start := Rx();
      while |m_rxBuffer| > 1
        invariant Process(Rx()) == Process(start) && m_nextAck < 0x400
        decreases |m_rxBuffer|
      {
        ghost var before := Rx();
        ProcessStep(before);
        var w0, w1 := m_rxBuffer[0], m_rxBuffer[1];
        var ok := VerifyHeaderChecksum(w0, w1);
        if !ok {
          m_rxBuffer := m_rxBuffer[2..];
          return;
        }
        var msg := HeaderOf(w0, w1);
        SequenceBound(w0, w1);
        if msg.payloadPresent {
          if |m_rxBuffer| - 2 <= msg.length {
            return;
          }
          var payload := m_rxBuffer[2..2 + msg.length];
          var message_crc := m_rxBuffer[2 + msg.length];
          m_rxBuffer := m_rxBuffer[3 + msg.length..];
          var actual_crc := ComputePayloadChecksum(payload);
          if message_crc != actual_crc {
            assert before.fifo + [] == before.fifo;
            assert Rx() == Taken(before, Look(before.buf));
            continue;
          }
          if msg.rpc && !msg.dma && msg.length == 4 {
            m_rpcRxFifo := m_rpcRxFifo + [UnpackWords(payload)];
          }
        } else {
          m_rxBuffer := m_rxBuffer[2..];
        }
        m_acking := true;
        m_nextAck := msg.sequence;
        assert before.fifo + [] == before.fifo;
        assert Rx() == Taken(before, Look(before.buf));
      }
      ProcessStep(Rx());
    }

    /** One Cycle: send, shift, receive. */
    method Cycle(shiftData: seq<u32> -> seq<u32>)
      requires Valid() && forall ws :: |shiftData(ws)| == |ws|
      modifies this
      ensures Valid()
      ensures m_rpcTxFifo == old(m_rpcTxFifo)[TakenNow(old(m_rpcTxFifo))..]
      ensures frames == old(frames) + CycleFrames(old(m_rpcTxFifo), old(m_acking), old(m_nextAck))
      ensures var n := if |old(m_rpcTxFifo)| < 4 then |old(m_rpcTxFifo)| else 4;
        && |old(frames)| <= |frames| && MessagesFrom(frames, |old(frames)|) == old(m_rpcTxFifo)[..n]
        && m_rpcTxFifo == old(m_rpcTxFifo)[n..]
        && forall i :: |old(frames)| <= i < |frames| ==>
             frames[i].acking == old(m_acking) && frames[i].nextAck == old(m_nextAck)
      ensures |wire| >= |old(wire)| && wire[..|old(wire)|] == old(wire)
      ensures Rx() == Feed(old(Rx()), shiftData(wire[|old(wire)|..]))
      ensures queued == old(queued)
    {
      hide WordsFrom, MessagesFrom, Typed, AllSendable, Process;
      ghost var fifo := m_rpcTxFifo;
      CycleSends(frames, fifo, m_acking, m_nextAck);
      var tx := Transmit();
      assert wire[|old(wire)|..] == tx;
      var rx := shiftData(tx);
      Receive(rx);
    }

    /** Cycle after Cycle, as the JTAG thread runs it: every one sends up to four more of the messages waiting, in the
        order they were queued. */
    method Cycles(count: nat, shiftData: seq<u32> -> seq<u32>)
      requires Valid() && forall ws :: |shiftData(ws)| == |ws|
      modifies this
      ensures Valid() && queued == old(queued)
      ensures var n := if |old(m_rpcTxFifo)| < 4 * count then |old(m_rpcTxFifo)| else 4 * count;
              m_rpcTxFifo == old(m_rpcTxFifo)[n..]
      ensures |old(m_rpcTxFifo)| <= 4 * count ==> m_rpcTxFifo == [] && queued == MessagesFrom(frames, 0)
    {
      hide MessagesFrom, WordsFrom, Typed, AllSendable, Feed, CycleFrames, TakenNow;
      ghost var fifo := m_rpcTxFifo;
      for i := 0 to count
        invariant Valid() && queued == old(queued)
        invariant m_rpcTxFifo == fifo[if |fifo| < 4 * i then |fifo| else 4 * i..]
      {
        Cycle(shiftData);
      }
    }
  }

  // ----- what one Cycle sends

  /** How many queued messages fit into one transmit buffer: at most four. */
  function TakenNow(fifo: seq<RpcMessage>): (n: nat)
    ensures n <= |fifo|
  {
    if |fifo| < 4 then |fifo| else 4
  }

  function MessageFrames(messages: seq<RpcMessage>, acking: bool, nextAck: nat): seq<Frame> {
    seq(|messages|, i requires 0 <= i < |messages| => Frame(acking, nextAck, Some(messages[i])))
  }

  function IdleFrames(k: nat, acking: bool, nextAck: nat): seq<Frame> {
    seq(k, _ => Frame(acking, nextAck, None))
  }

  /** The oldest messages, and idle frames up to the size of the buffer. */
  function CycleFrames(fifo: seq<RpcMessage>, acking: bool, nextAck: nat): seq<Frame> {
    var n := TakenNow(fifo);
    MessageFrames(fifo[..n], acking, nextAck) + IdleFrames((TX_BUF_LEN - 7 * n) / 2, acking, nextAck)
  }

  lemma {:induction false} MessageFramesNext(before: seq<Frame>, fifo: seq<RpcMessage>, n: nat, acking: bool,
                                             nextAck: nat)
    requires n < |fifo|
    ensures before + MessageFrames(fifo[..n + 1], acking, nextAck)
         == before + MessageFrames(fifo[..n], acking, nextAck) + [Frame(acking, nextAck, Some(fifo[n]))]
  {
  }

  lemma {:induction false} IdleFramesNext(before: seq<Frame>, k: nat, acking: bool, nextAck: nat)
    ensures before + IdleFrames(k + 1, acking, nextAck)
        == before + IdleFrames(k, acking, nextAck) + [Frame(acking, nextAck, None)]
  {
  }

  /** The messages of the frames a Cycle adds: the first four of the queue, or all if there are no more. */
  lemma {:induction false} CycleSends(before: seq<Frame>, fifo: seq<RpcMessage>, acking: bool, nextAck: nat)
    ensures var frames, n := before + CycleFrames(fifo, acking, nextAck), if |fifo| < 4 then |fifo| else 4;
            && MessagesFrom(frames, |before|) == fifo[..n]
            && forall i :: |before| <= i < |frames| ==> frames[i].acking == acking && frames[i].nextAck == nextAck
  {
    hide MessagesFrom;
    var n := if |fifo| < 4 then |fifo| else 4;
    var k := (TX_BUF_LEN - 7 * n) / 2;
    var frames := before + CycleFrames(fifo, acking, nextAck);
    assert frames == before + MessageFrames(fifo[..n], acking, nextAck) + IdleFrames(k, acking, nextAck);
    FramesSend(before, fifo[..n], k, acking, nextAck, 0);
  }

  lemma {:induction false} FramesSend(before: seq<Frame>, messages: seq<RpcMessage>, k: nat, acking: bool, nextAck: nat,
                                      i: nat)
    requires i <= |messages| + k
    ensures var frames := before + MessageFrames(messages, acking, nextAck) + IdleFrames(k, acking, nextAck);
            MessagesFrom(frames, |before| + i) == messages[if i < |messages| then i else |messages|..]
    decreases |messages| + k - i
  {
    if i < |messages| + k {
      FramesSend(before, messages, k, acking, nextAck, i + 1);
    }
  }

  lemma {:induction false} NextModulo(n: nat)
    ensures NextSeq(n % 0x400) == (n + 1) % 0x400
  {
  }

  lemma {:induction false} EmptyTail(frames: seq<Frame>)
    requires AllSendable(frames)
    ensures WordsFrom(frames, |frames|) == []
  {
  }

  lemma {:induction false} SentMessage(frames: seq<Frame>, f: Frame, rest: seq<RpcMessage>)
    requires AllSendable(frames) && Sendable(f) && f.payload.Some?
    ensures MessagesFrom(frames + [f], 0) + rest == MessagesFrom(frames, 0) + ([f.payload.value] + rest)
  {
    hide WordsFrom, MessagesFrom, FrameWords;
    OneMoreFrame(frames, f, 0);
  }

  lemma {:induction false} SentIdle(frames: seq<Frame>, f: Frame)
    requires AllSendable(frames) && Sendable(f) && f.payload.None?
    ensures MessagesFrom(frames + [f], 0) == MessagesFrom(frames, 0)
  {
    hide WordsFrom, MessagesFrom, FrameWords;
    OneMoreFrame(frames, f, 0);
    assert MessagesFrom(frames, 0) + [] == MessagesFrom(frames, 0);
  }

  lemma {:induction false} SequenceBound(w0: nat, w1: nat)
    ensures HeaderOf(w0, w1).sequence < 0x400
  {
  }

  /** One turn of the receive loop. */
  lemma {:induction false} ProcessStep(r: Receiver)
    ensures match Look(r.buf)
            case Waiting => Process(r) == r
            case BadHeader => Process(r) == r.(buf := r.buf[2..])
            case Whole(_, _, _, _) => Process(r) == Process(Taken(r, Look(r.buf)))
  {
    hide Look;
  }

  lemma {:induction false} PayloadIsMessage(frames: seq<Frame>, k: nat, i: nat)
    requires k <= i < |frames| && frames[i].payload.Some?
    ensures frames[i].payload.value in MessagesFrom(frames, k)
    decreases |frames| - k
  {
    if k < i {
      PayloadIsMessage(frames, k + 1, i);
    }
  }

  /** After any calls on a bridge, in any order: whoever deframes the words it has shifted out, in chunks of
      any sizes, holds every message queued so far except those still waiting, in order, and nothing else. */
  lemma {:induction false} LinkDeliversInOrder(b: JTAGNOCBridgeInterface, chunks: seq<seq<u32>>)
    requires b.Valid() && (forall m :: m in b.queued ==> Fits(m)) && Concat(chunks) == b.wire
    ensures var far := FeedAll(Receiver([], [], false, 0), chunks);
            far.fifo + b.m_rpcTxFifo == b.queued && far.buf == []
            && (|b.frames| > 0 ==> far.acking && far.nextAck == (|b.frames| - 1) % 0x400)
  {
    hide FeedAll, MessagesFrom, WordsFrom, Concat, AllSendable;
    forall i | 0 <= i < |b.frames|
      ensures Intact(b.frames[i])
    {
      if b.frames[i].payload.Some? {
        PayloadIsMessage(b.frames, 0, i);
        assert b.frames[i].payload.value in b.queued;
      }
    }
    Loopback(b.frames, chunks);
  }
}
