/** The JTAG bridge link (src/nocbridge/JTAGNOCBridgeInterface.cpp): Cycle frames queued RPC messages for
    the device and deframes the words that come back, in chunks that need not respect frame boundaries. */
module JtagLink {
  import opened Bits
  import opened RpcMessages
  import opened JtagFrames
  import opened Options

  // ----- what is sent

  /** A transmitted frame; its sequence number is its position in the stream modulo 1024. */
  datatype Frame = Frame(acking: bool, nextAck: nat, payload: Option<RpcMessage>)

  predicate Sendable(f: Frame) {
    f.nextAck < 0x400 && (f.payload.Some? ==> Typed(f.payload.value))
  }

  /** Its message, if any, fits on the wire. */
  predicate Intact(f: Frame) {
    f.payload.Some? ==> Fits(f.payload.value)
  }

  function NextSeq(seq': nat): nat {
    if seq' < 0x3ff then seq' + 1 else 0
  }

  function FrameHeader(sequence: nat, f: Frame): (h: Header) {
    var rpc := f.payload.Some?;
    Header(f.nextAck, 0x3ff, sequence, false, f.acking, 0, if rpc then 4 else 0, 0, false, rpc, rpc)
  }

  function FrameWords(sequence: nat, f: Frame): (ws: seq<u32>)
    requires sequence < 0x400 && Sendable(f)
    ensures |ws| == if f.payload.Some? then 7 else 2
  {
    HeaderWords(FrameHeader(sequence, f)) + if f.payload.None? then [] else PayloadWords(f.payload.value)
  }

  function PayloadWords(m: RpcMessage): (ws: seq<u32>)
    requires Typed(m)
    ensures |ws| == 5
  {
    PayloadOf(m) + [PayloadChecksum(PayloadOf(m))]
  }

  function PayloadOf(m: RpcMessage): (p: seq<u32>)
    requires Typed(m)
    ensures |p| == 4 && p == PackedWords(m)
  {
    HeadBound(m);
    [m.src * 0x1_0000 + m.dst, Head(m), m.data1, m.data2]
  }

  ghost predicate AllSendable(frames: seq<Frame>) {
    forall i :: 0 <= i < |frames| ==> Sendable(frames[i])
  }

  ghost predicate AllIntact(frames: seq<Frame>) {
    forall i :: 0 <= i < |frames| ==> Intact(frames[i])
  }

  /** The words of frames `k, k+1, ...` of a stream. */
  function WordsFrom(frames: seq<Frame>, k: nat): seq<u32>
    requires k <= |frames| && forall i :: 0 <= i < |frames| ==> Sendable(frames[i])
    decreases |frames| - k
  {
    if k == |frames| then [] else FrameWords(k % 0x400, frames[k]) + WordsFrom(frames, k + 1)
  }

  function MessagesFrom(frames: seq<Frame>, k: nat): seq<RpcMessage>
    requires k <= |frames|
    decreases |frames| - k
  {
    if k == |frames| then [] else
      (if frames[k].payload.Some? then [frames[k].payload.value] else []) + MessagesFrom(frames, k + 1)
  }

  /** One more frame at the end of the stream. */
  lemma {:induction false} OneMoreFrame(frames: seq<Frame>, f: Frame, k: nat)
    requires AllSendable(frames) && Sendable(f) && k <= |frames|
    ensures AllSendable(frames + [f])
    ensures WordsFrom(frames + [f], k) == WordsFrom(frames, k) + FrameWords(|frames| % 0x400, f)
    ensures MessagesFrom(frames + [f], k)
        == MessagesFrom(frames, k) + (if f.payload.Some? then [f.payload.value] else [])
    decreases |frames| - k
  {
    hide FrameWords;
    var more := frames + [f];
    if k == |frames| {
      assert WordsFrom(more, k + 1) == [] && MessagesFrom(more, k + 1) == [];
      var w := FrameWords(|frames| % 0x400, f);
      assert w + [] == w && [] + w == w;
      assert MessagesFrom(frames, k) == [];
    } else {
      OneMoreFrame(frames, f, k + 1);
      assert more[k] == frames[k];
    }
  }

  // ----- what is received

  /** The receiver: words not yet consumed, messages not yet fetched, and the acknowledgement state. */
  datatype Receiver = Receiver(buf: seq<u32>, fifo: seq<RpcMessage>, acking: bool, nextAck: nat)

  /** What the front of the buffer holds. */
  datatype Front = Waiting | BadHeader | Whole(length: nat, accepted: bool, message: Option<RpcMessage>, sequence: nat)

  function Look(buf: seq<u32>): (f: Front)
    ensures f.Whole? ==> 2 <= f.length <= |buf|
  {
    if |buf| <= 1 then Waiting
    else if !Verifies(buf[0], buf[1]) then BadHeader
    else
      var h := HeaderOf(buf[0], buf[1]);
      if !h.payloadPresent then Whole(2, true, None, h.sequence)
      else if |buf| - 2 <= h.length then Waiting
      else
        var payload := buf[2..2 + h.length];
        var ok := buf[2 + h.length] == PayloadChecksum(payload);
        Whole(3 + h.length, ok, if ok && h.rpc && !h.dma && h.length == 4 then Some(UnpackWords(payload))
          else None, h.sequence)
  }

  function Taken(r: Receiver, f: Front): Receiver
    requires f.Whole? && f.length <= |r.buf|
  {
    Receiver(r.buf[f.length..], r.fifo + if f.message.Some? then [f.message.value] else [],
             r.acking || f.accepted, if f.accepted then f.sequence else r.nextAck)
  }

  /** The receive loop: whole frames are consumed until one is incomplete; a bad header drops two words
      and ends the loop. */
  function Process(r: Receiver): Receiver
    decreases |r.buf|
  {
    match Look(r.buf)
    case Waiting => r
    case BadHeader => r.(buf := r.buf[2..])
    case Whole(n, ok, m, s) => Process(Taken(r, Look(r.buf)))
  }

  function Feed(r: Receiver, chunk: seq<u32>): Receiver {
    Process(r.(buf := r.buf + chunk))
  }

  function FeedAll(r: Receiver, chunks: seq<seq<u32>>): Receiver
    decreases |chunks|
  {
    if |chunks| == 0 then r else FeedAll(Feed(r, chunks[0]), chunks[1..])
  }

  function Concat(chunks: seq<seq<u32>>): seq<u32>
    decreases |chunks|
  {
    if |chunks| == 0 then [] else chunks[0] + Concat(chunks[1..])
  }

  /** What the receive loop makes of the words at the front. A bad header is dropped and ends the loop; words that do
      not make a whole frame yet stay; a frame whose payload checksum is wrong is skipped and not acknowledged; every
      other frame is acknowledged, and delivers its payload if that is an RPC message of four words. */
  lemma {:induction false} ReceivedAre(r: Receiver)
    ensures |r.buf| <= 1 ==> Process(r) == r
    ensures |r.buf| > 1 && !Verifies(r.buf[0], r.buf[1]) ==> Process(r) == r.(buf := r.buf[2..])
    ensures |r.buf| > 1 && Verifies(r.buf[0], r.buf[1]) ==>
      var h := HeaderOf(r.buf[0], r.buf[1]);
      if !h.payloadPresent then Process(r) == Process(Receiver(r.buf[2..], r.fifo, true, h.sequence))
      else if |r.buf| < 3 + h.length then Process(r) == r
      else
        var payload, crc, rest := r.buf[2..2 + h.length], r.buf[2 + h.length], r.buf[3 + h.length..];
        if crc != PayloadChecksum(payload) then Process(r) == Process(r.(buf := rest))
        else if h.rpc && !h.dma && h.length == 4 then
          Process(r) == Process(Receiver(rest, r.fifo + [UnpackWords(payload)], true, h.sequence))
        else Process(r) == Process(Receiver(rest, r.fifo, true, h.sequence))
  {
    hide Verifies, HeaderOf, PayloadChecksum, UnpackWords;
    assert r.fifo + [] == r.fifo;
  }

  /** Every header met at a frame boundary verifies. */
  predicate Clean(buf: seq<u32>)
    decreases |buf|
  {
    match Look(buf)
    case Waiting => true
    case BadHeader => false
    case Whole(n, ok, m, s) => Clean(buf[n..])
  }

  // ----- chunking does not matter

  /** More words never change what is already decided. */
  lemma {:induction false} LookStable(x: seq<u32>, y: seq<u32>)
    requires !Look(x).Waiting?
    ensures Look(x + y) == Look(x)
  {
    hide Verifies, HeaderOf, PayloadChecksum, UnpackWords;
    var z := x + y;
    assert z[0] == x[0] && z[1] == x[1];
    var h := HeaderOf(x[0], x[1]);
    if Verifies(x[0], x[1]) && h.payloadPresent {
      assert z[2..2 + h.length] == x[2..2 + h.length];
    }
  }

  /** Processing a prefix first and the rest later is processing everything at once. */
  lemma {:induction false} ProcessAppend(r: Receiver, y: seq<u32>)
    requires Clean(r.buf)
    ensures var p := Process(r); Look(p.buf).Waiting? && Process(r.(buf := r.buf + y)) == Process(p.(buf := p.buf + y))
    decreases |r.buf|
  {
    hide Look;
    if !Look(r.buf).Waiting? {
      LookStable(r.buf, y);
      var f := Look(r.buf);
      assert (r.buf + y)[f.length..] == r.buf[f.length..] + y;
      ProcessAppend(Taken(r, f), y);
      assert Taken(r.(buf := r.buf + y), f) == Taken(r, f).(buf := Taken(r, f).buf + y);
    }
  }

  lemma {:induction false} CleanSplits(r: Receiver, y: seq<u32>)
    requires Clean(r.buf + y)
    ensures Clean(r.buf) && Clean(Process(r).buf + y)
    decreases |r.buf|
  {
    hide Look;
    if !Look(r.buf).Waiting? {
      LookStable(r.buf, y);
      var f := Look(r.buf);
      assert (r.buf + y)[f.length..] == r.buf[f.length..] + y;
      CleanSplits(Taken(r, f), y);
    }
  }

  /** For a stream whose headers verify, the messages, the leftover words and the acknowledgement do not
      depend on how the stream was cut into chunks. */
  lemma {:induction false} ChunkingIrrelevant(r: Receiver, chunks: seq<seq<u32>>)
    requires Look(r.buf).Waiting? && Clean(r.buf + Concat(chunks))
    ensures FeedAll(r, chunks) == Process(r.(buf := r.buf + Concat(chunks)))
    decreases |chunks|
  {
    hide Look, Clean;
    if |chunks| == 0 {
      assert r.buf + [] == r.buf;
      WaitingProcess(r);
    } else {
      var first, rest := r.(buf := r.buf + chunks[0]), Concat(chunks[1..]);
      assert r.buf + (chunks[0] + rest) == first.buf + rest;
      CleanSplits(first, rest);
      ProcessAppend(first, rest);
      ChunkingIrrelevant(Process(first), chunks[1..]);
    }
  }

  lemma {:induction false} WaitingProcess(r: Receiver)
    requires Look(r.buf).Waiting?
    ensures Process(r) == r
  {
  }

  // ----- what is sent is what is received

  lemma {:induction false} LookAtFrame(sequence: nat, f: Frame, rest: seq<u32>)
    requires sequence < 0x400 && Sendable(f) && Intact(f)
    ensures Look(FrameWords(sequence, f) + rest) == Whole(|FrameWords(sequence, f)|, true, f.payload, sequence)
  {
    hide Verifies, HeaderOf, PayloadChecksum, UnpackWords, Sealed, HeaderWords, PayloadOf;
    var h := FrameHeader(sequence, f);
    SealedFields(h);
    var z := FrameWords(sequence, f) + rest;
    assert z[0] == HeaderWords(h)[0] && z[1] == HeaderWords(h)[1];
    if f.payload.Some? {
      var m := f.payload.value;
      assert z[2..6] == PayloadOf(m);
      assert z[6] == PayloadChecksum(PayloadOf(m));
      WordsRoundTrip(m);
    }
  }

  /** The header a frame is sent with: the acknowledgement and its number, never a negative one, all credits, the
      frame's own number, and an RPC payload of four words or none. */
  lemma {:induction false} SentHeader(sequence: nat, f: Frame)
    requires sequence < 0x400 && Sendable(f)
    ensures var words := FrameWords(sequence, f); var h := HeaderOf(words[0], words[1]);
            && Verifies(words[0], words[1])
            && h.ack == f.acking && !h.nak && h.ackSeq == f.nextAck && h.credits == 0x3ff && h.sequence == sequence
            && h.payloadPresent == h.rpc == f.payload.Some? && !h.dma && h.reserved == 0
            && h.length == if f.payload.Some? then 4 else 0
    ensures f.payload.Some? ==>
      var words, m := FrameWords(sequence, f), f.payload.value;
      words[2..] == PackedWords(m) + [PayloadChecksum(PackedWords(m))]
  {
    hide Verifies, HeaderOf, PayloadChecksum, Sealed, HeaderWords;
    SealedFields(FrameHeader(sequence, f));
  }

  lemma {:induction false} SealedFields(h: Header)
    requires InRange(h)
    ensures Sealed(h) == h.(checksum := Sealed(h).checksum)
  {
  }

  lemma {:induction false} Deframes(frames: seq<Frame>, k: nat, r: Receiver)
    requires k <= |frames| && AllSendable(frames) && AllIntact(frames) && r.buf == WordsFrom(frames, k)
    ensures Clean(r.buf)
    ensures Process(r) == Receiver([], r.fifo + MessagesFrom(frames, k), r.acking || k < |frames|,
                                   if k < |frames| then (|frames| - 1) % 0x400 else r.nextAck)
    decreases |frames| - k
  {
    hide Look, FrameWords;
    if k == |frames| {
      NothingToLookAt();
      assert r.fifo + [] == r.fifo;
    } else {
      var w := FrameWords(k % 0x400, frames[k]);
      LookAtFrame(k % 0x400, frames[k], WordsFrom(frames, k + 1));
      assert r.buf[|w|..] == WordsFrom(frames, k + 1);
      var next := Taken(r, Look(r.buf));
      Deframes(frames, k + 1, next);
      var m := if frames[k].payload.Some? then [frames[k].payload.value] else [];
      assert (r.fifo + m) + MessagesFrom(frames, k + 1) == r.fifo + (m + MessagesFrom(frames, k + 1));
    }
  }

  lemma NothingToLookAt()
    ensures Look([]) == Waiting
  {
  }

  /** Loopback: however the transmitted words are cut into chunks, the receiver ends up with exactly the
      messages sent, in order, no words left over, and the last frame's sequence number acknowledged. */
  lemma {:induction false} Loopback(frames: seq<Frame>, chunks: seq<seq<u32>>)
    requires AllSendable(frames) && AllIntact(frames) && Concat(chunks) == WordsFrom(frames, 0)
    ensures FeedAll(Receiver([], [], false, 0), chunks)
         == Receiver([], MessagesFrom(frames, 0), |frames| > 0, if |frames| > 0 then (|frames| - 1) % 0x400 else 0)
  {
    hide Look, Process, Clean, WordsFrom, MessagesFrom;
    var start := Receiver([], [], false, 0);
    NothingToLookAt();
    var whole := start.(buf := WordsFrom(frames, 0));
    assert start.buf + Concat(chunks) == whole.buf;
    Deframes(frames, 0, whole);
    ChunkingIrrelevant(start, chunks);
    assert [] + MessagesFrom(frames, 0) == MessagesFrom(frames, 0);
  }
}
