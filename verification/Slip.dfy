/** SLIP framing on the serial line, contiki/tools/tapslip6.c, and the output
    queue it shares with contiki/tools/tunslip.c. */
module Slip {
  import opened Bytes
  import opened Wrappers

  const END: byte := 0xC0
  const ESC: byte := 0xDB
  const ESC_END: byte := 0xDC
  const ESC_ESC: byte := 0xDD
  const COMMAND: byte := 0x21       // '!'
  const SIZE: nat := 2000           // of the input and of the output buffer

  // ----------------------------------------------------------------- encoding

  function Escape(c: byte): seq<byte> {
    if c == END then [ESC, ESC_END] else if c == ESC then [ESC, ESC_ESC] else [c]
  }

  function EscapeAll(p: seq<byte>): seq<byte> {
    if p == [] then [] else EscapeAll(p[.. |p| - 1]) + Escape(p[|p| - 1])
  }

  function Frame(p: seq<byte>): seq<byte> {
    EscapeAll(p) + [END]
  }

  function Frames(ps: seq<seq<byte>>): seq<byte> {
    if ps == [] then [] else Frames(ps[.. |ps| - 1]) + Frame(ps[|ps| - 1])
  }

  // ----------------------------------------------------------------- decoding

  /** `pending` is the input buffer up to `inbufptr`; `escaped` says that an ESC
      has been read, or put back, without the byte after it; `out` is what has
      been written to the tun device. */
  datatype Decoder = Decoder(pending: seq<byte>, escaped: bool, out: seq<seq<byte>>)

  const START: Decoder := Decoder([], false, [])

  function Unescape(c: byte): byte {
    if c == ESC_END then END else if c == ESC_ESC then ESC else c
  }

  /** A byte goes into the buffer, which starts over when it is full. */
  function Store(d: Decoder, c: byte): Decoder {
    var pending := d.pending + [c];
    d.(pending := if |pending| >= SIZE then [] else pending, escaped := false)
  }

  /** The end of a frame: an empty one and a command are not passed on. */
  function Deliver(d: Decoder): Decoder {
    if d.pending == [] then d
    else if d.pending[0] == COMMAND then d.(pending := [])
    else d.(pending := [], out := d.out + [d.pending])
  }

  function Step(d: Decoder, c: byte): Decoder {
    if d.escaped then Store(d, Unescape(c))
    else if c == END then Deliver(d)
    else if c == ESC then d.(escaped := true)
    else Store(d, c)
  }

  function Feed(d: Decoder, bytes: seq<byte>): Decoder {
    if bytes == [] then d else Step(Feed(d, bytes[.. |bytes| - 1]), bytes[|bytes| - 1])
  }

  /** One call per chunk. */
  function FeedAll(d: Decoder, chunks: seq<seq<byte>>): Decoder {
    if chunks == [] then d else Feed(FeedAll(d, chunks[.. |chunks| - 1]), chunks[|chunks| - 1])
  }

  function Concat(chunks: seq<seq<byte>>): seq<byte> {
    if chunks == [] then [] else Concat(chunks[.. |chunks| - 1]) + chunks[|chunks| - 1]
  }

  /** What is left of a packet in a buffer that starts over whenever it is full. */
  function Kept(p: seq<byte>): (r: seq<byte>)
    ensures |r| < SIZE
  {
    if p == [] then []
    else
      var r := Kept(p[.. |p| - 1]) + [p[|p| - 1]];
      if |r| >= SIZE then [] else r
  }

  predicate Transparent(p: seq<byte>) {
    0 < |p| < SIZE && p[0] != COMMAND
  }

  /** What is passed on of the packets sent: all but empty ones and commands. */
  function Passed(ps: seq<seq<byte>>): seq<seq<byte>> {
    if ps == [] then []
    else
      var p := Kept(ps[|ps| - 1]);
      Passed(ps[.. |ps| - 1]) + (if p != [] && p[0] != COMMAND then [p] else [])
  }

  lemma {:induction false} FeedConcat(d: Decoder, a: seq<byte>, b: seq<byte>)
    ensures Feed(d, a + b) == Feed(Feed(d, a), b)
    decreases |b|
  {
    if b == [] {
      assert a + b == a;
    } else {
      assert (a + b)[.. |a + b| - 1] == a + b[.. |b| - 1];
      FeedConcat(d, a, b[.. |b| - 1]);
    }
  }

  /** Where the stream is cut into reads makes no difference, not even between
      an ESC and the byte after it. */
  lemma {:induction false} ChunksDoNotMatter(d: Decoder, chunks: seq<seq<byte>>)
    ensures FeedAll(d, chunks) == Feed(d, Concat(chunks))
    decreases |chunks|
  {
    if chunks != [] {
      var init, last := chunks[.. |chunks| - 1], chunks[|chunks| - 1];
      ChunksDoNotMatter(d, init);
      FeedConcat(d, Concat(init), last);
    }
  }

  lemma FeedOne(d: Decoder, c: byte)
    ensures Feed(d, [c]) == Step(d, c)
  {
    assert Feed(d, []) == d;
  }

  lemma FeedEscape(d: Decoder, c: byte)
    requires !d.escaped
    ensures Feed(d, Escape(c)) == Store(d, c)
  {
    FeedOne(d, c);
    if c == END || c == ESC {
      var second := if c == END then ESC_END else ESC_ESC;
      assert Escape(c) == [ESC] + [second];
      FeedConcat(d, [ESC], [second]);
      FeedOne(d, ESC);
      FeedOne(Step(d, ESC), second);
    }
  }

  lemma {:induction false} ShortKept(p: seq<byte>)
    requires |p| < SIZE
    ensures Kept(p) == p
  {
    if p != [] {
      ShortKept(p[.. |p| - 1]);
    }
  }

  lemma {:induction false} FeedEscapeAll(d: Decoder, p: seq<byte>)
    requires d.pending == [] && !d.escaped
    ensures Feed(d, EscapeAll(p)) == d.(pending := Kept(p))
    decreases |p|
  {
    if p != [] {
      var init, c := p[.. |p| - 1], p[|p| - 1];
      FeedEscapeAll(d, init);
      FeedConcat(d, EscapeAll(init), Escape(c));
      FeedEscape(d.(pending := Kept(init)), c);
    }
  }

  lemma FeedFrame(d: Decoder, p: seq<byte>)
    requires d.pending == [] && !d.escaped
    ensures Feed(d, Frame(p)) == d.(out := d.out + Passed([p]))
  {
    FeedEscapeAll(d, p);
    FeedConcat(d, EscapeAll(p), [END]);
    FeedOne(d.(pending := Kept(p)), END);
    assert Passed([p][.. 0]) == [];
    assert Passed([p]) == if Kept(p) != [] && Kept(p)[0] != COMMAND then [Kept(p)] else [];
  }

  lemma {:induction false} FeedFrames(d: Decoder, ps: seq<seq<byte>>)
    requires d.pending == [] && !d.escaped
    ensures Feed(d, Frames(ps)) == d.(out := d.out + Passed(ps))
    decreases |ps|
  {
    if ps != [] {
      var init, p := ps[.. |ps| - 1], ps[|ps| - 1];
      FeedFrames(d, init);
      FeedConcat(d, Frames(init), Frame(p));
      FramesGrow(ps);
      PassedGrow(ps);
      hide Frames, Frame, Passed, Feed;
      FeedFrame(d.(out := d.out + Passed(init)), p);
      assert d.out + Passed(init) + Passed([p]) == d.out + (Passed(init) + Passed([p]));
    }
  }

  lemma FramesGrow(ps: seq<seq<byte>>)
    requires ps != []
    ensures Frames(ps) == Frames(ps[.. |ps| - 1]) + Frame(ps[|ps| - 1])
  {
  }

  lemma PassedGrow(ps: seq<seq<byte>>)
    requires ps != []
    ensures Passed(ps) == Passed(ps[.. |ps| - 1]) + Passed([ps[|ps| - 1]])
  {
    hide Kept;
    var p := ps[|ps| - 1];
    assert Passed([p][.. 0]) == [];
    assert Passed([p]) == if Kept(p) != [] && Kept(p)[0] != COMMAND then [Kept(p)] else [];
  }

  lemma {:induction false} AllPassed(ps: seq<seq<byte>>)
    requires forall i :: 0 <= i < |ps| ==> Transparent(ps[i])
    ensures Passed(ps) == ps
    decreases |ps|
  {
    if ps != [] {
      AllPassed(ps[.. |ps| - 1]);
      assert ps == ps[.. |ps| - 1] + [ps[|ps| - 1]];
      ShortKept(ps[|ps| - 1]);
    }
  }

  /** Stream round trip: however the serial stream is cut into reads, the
      receiver passes on what is left of each packet sent, in order, and is ready
      for the next frame; packets of 1 to 1999 bytes that are no commands arrive
      unchanged. */
  lemma StreamRoundTrip(ps: seq<seq<byte>>, chunks: seq<seq<byte>>)
    requires Concat(chunks) == Frames(ps)
    ensures FeedAll(START, chunks) == Decoder([], false, Passed(ps))
    ensures (forall i :: 0 <= i < |ps| ==> Transparent(ps[i])) ==> FeedAll(START, chunks).out == ps
  {
    ChunksDoNotMatter(START, chunks);
    FeedFrames(START, ps);
    if forall i :: 0 <= i < |ps| ==> Transparent(ps[i]) {
      AllPassed(ps);
    }
  }

  /** A single packet arrives as it was sent exactly if it is not empty, no
      command, and fits the buffer with a byte to spare. */
  lemma PacketArrivesIff(p: seq<byte>)
    ensures Feed(START, Frame(p)).out == [p] <==> 0 < |p| < 2000 && p[0] != 33
    ensures Feed(START, Frame(p)).out == [p] <==> Transparent(p)
  {
    FeedFrame(START, p);
    assert Passed([p][.. 0]) == [];
    var out := Passed([p]);
    assert out == if Kept(p) != [] && Kept(p)[0] != COMMAND then [Kept(p)] else [];
    if |p| < SIZE {
      ShortKept(p);
    } else {
      assert Kept(p) != p;
    }
  }

  // -------------------------------------------------------- bytes of RFC 1055

  /** The two reserved bytes travel as two bytes, every other byte as itself. */
  lemma EscapedBytes(c: byte)
    ensures Escape(0xC0) == [0xDB, 0xDC] && Escape(0xDB) == [0xDB, 0xDD]
    ensures c != 0xC0 && c != 0xDB ==> Escape(c) == [c]
    ensures 0xC0 !in Escape(c)
  {
    assert 0xC0 !in [0xDB, 0xDC] && 0xC0 !in [0xDB, 0xDD];
  }

  /** What the receiver makes of the byte behind an escape: no other byte is special
      there, not even the end of a frame. */
  lemma EscapedByteRead(d: Decoder, c: byte)
    requires !d.escaped && |d.pending| + 1 < 2000
    ensures Feed(d, [0xDB, c]) == d.(
      pending := d.pending + [if c == 0xDC then 0xC0 else if c == 0xDD then 0xDB else c])
  {
    assert [0xDB, c] == [0xDB] + [c];
    FeedConcat(d, [0xDB], [c]);
    FeedOne(d, 0xDB);
    FeedOne(d.(escaped := true), c);
  }

  lemma {:induction false} NoEndInside(p: seq<byte>)
    ensures 0xC0 !in EscapeAll(p)
    ensures |p| <= |EscapeAll(p)| <= 2 * |p|
  {
    if p != [] {
      NoEndInside(p[.. |p| - 1]);
      EscapedBytes(p[|p| - 1]);
    }
  }

  /** A frame ends with the END byte and has no other. */
  lemma FrameEndsOnce(p: seq<byte>)
    ensures var f := Frame(p);
      && |p| + 1 <= |f| <= 2 * |p| + 1
      && forall i :: 0 <= i < |f| ==> (f[i] == 0xC0 <==> i == |f| - 1)
  {
    NoEndInside(p);
    forall i | 0 <= i < |EscapeAll(p)| ensures Frame(p)[i] != 0xC0 {
      assert Frame(p)[i] == EscapeAll(p)[i];
    }
  }

  /** A buffer that starts over keeps the last |p| % 2000 bytes. */
  lemma {:induction false} KeptIsTail(p: seq<byte>)
    ensures Kept(p) == p[|p| - |p| % 2000 ..]
  {
    if p != [] {
      var init := p[.. |p| - 1];
      KeptIsTail(init);
      assert init[|init| - |init| % 2000 ..] + [p[|p| - 1]] == p[|init| - |init| % 2000 ..];
    }
  }

  /** What is passed on of one packet of any length: its last |p| % 2000 bytes, and
      nothing of it if there are none or they start with '!'. */
  lemma WhatArrives(p: seq<byte>)
    ensures var tail := p[|p| - |p| % 2000 ..];
      Feed(START, Frame(p)).out == if tail == [] || tail[0] == 33 then [] else [tail]
  {
    FeedFrame(START, p);
    KeptIsTail(p);
    assert Passed([p][.. 0]) == [];
    assert Passed([p]) == if Kept(p) != [] && Kept(p)[0] != COMMAND then [Kept(p)] else [];
  }

  // --------------------------------------------------------- the receiving end

  class SerialToTun {
    const inbuf: array<byte>
    var inbufptr: nat
    var pushedBack: bool            // an ESC waits in the stream buffer
    var written: seq<seq<byte>>

    ghost predicate Valid()
      reads this
    {
      inbuf.Length == SIZE && inbufptr < SIZE
    }

    ghost function State(): Decoder
      reads this, inbuf
      requires Valid()
    {
      Decoder(inbuf[.. inbufptr], pushedBack, written)
    }

    constructor ()
      ensures Valid() && fresh(inbuf) && State() == START
    {
      inbuf := new byte[SIZE](_ => 0);
      inbufptr, pushedBack, written := 0, false, [];
    }

    method StoreByte(c: byte)
      requires Valid()
      modifies this, inbuf
      ensures Valid() && State() == Store(old(State()), c)
    {
      inbuf[inbufptr] := c;
      inbufptr := inbufptr + 1;
      assert inbuf[.. inbufptr] == old(inbuf[.. inbufptr]) + [c];
      if inbufptr >= SIZE {
        inbufptr := 0;
      }
      pushedBack := false;
    }

    method EndOfFrame()
      requires Valid() && !pushedBack
      modifies this
      ensures Valid() && State() == Deliver(old(State()))
    {
      if inbufptr > 0 {
        if inbuf[0] != COMMAND {
          written := written + [inbuf[.. inbufptr]];
        }
        inbufptr := 0;
      }
    }

    /** One call: everything the serial line has to offer, after an ESC that the
        last call may have put back. */
    method Read(chunk: seq<byte>)
      requires Valid()
      modifies this, inbuf
      ensures Valid() && State() == Feed(old(State()), chunk)
    {
      var i := 0;
      if pushedBack {
        if chunk == [] {
          return;
        }
        i := 1;
        ghost var before := State();
        StoreByte(Unescape(chunk[0]));
        assert chunk[.. 1] == [chunk[0]];
        FeedOne(before, chunk[0]);
      }
      while i < |chunk|
        invariant Valid() && i <= |chunk| && !pushedBack
        invariant State() == Feed(old(State()), chunk[.. i])
      {
        var c := chunk[i];
        ghost var before := State();
        FeedNext(old(State()), chunk, i);
        i := i + 1;
        if c == END {
          EndOfFrame();
        } else if c == ESC {
          if i == |chunk| {
            pushedBack := true;
            assert chunk[.. i] == chunk;
            return;
          }
          FeedNext(old(State()), chunk, i);
          StoreByte(Unescape(chunk[i]));
          i := i + 1;
        } else {
          StoreByte(c);
        }
      }
      assert chunk[.. |chunk|] == chunk;
    }
  }

  lemma FeedNext(d: Decoder, bytes: seq<byte>, i: nat)
    requires i < |bytes|
    ensures Feed(d, bytes[.. i + 1]) == Step(Feed(d, bytes[.. i]), bytes[i])
  {
    assert bytes[.. i + 1][.. i] == bytes[.. i];
  }

  // ---------------------------------------------------------- the output queue

  /** `buf` is slip_buf up to slip_end; `wire` is what write() has accepted. */
  datatype Queue = Queue(buf: seq<byte>, begin: nat, wire: seq<byte>)

  const EMPTY: Queue := Queue([], 0, [])

  predicate QueueInv(q: Queue) {
    && |q.buf| <= SIZE
    && (q.begin < |q.buf| || (q.begin == 0 && q.buf == []))
  }

  function Pending(q: Queue): seq<byte>
    requires QueueInv(q)
  {
    q.buf[q.begin ..]
  }

  predicate SlipEmpty(q: Queue) {
    |q.buf| == 0
  }

  /** None: the buffer is full and the program gives up. */
  function Send(q: Queue, c: byte): Option<Queue> {
    if |q.buf| >= SIZE then None else Some(q.(buf := q.buf + [c]))
  }

  function SendAll(q: Queue, bytes: seq<byte>): Option<Queue> {
    if bytes == [] then Some(q)
    else
      match SendAll(q, bytes[.. |bytes| - 1])
      case None => None
      case Some(q') => Send(q', bytes[|bytes| - 1])
  }

  /** write() accepted `n` bytes of what is pending, or would block (None). */
  function Flush(q: Queue, accepted: Option<nat>): Queue
    requires accepted.Some? ==> q.begin + accepted.value <= |q.buf|
  {
    if SlipEmpty(q) || accepted.None? then q
    else
      var begin := q.begin + accepted.value;
      var wire := q.wire + q.buf[q.begin .. begin];
      if begin == |q.buf| then Queue([], 0, wire) else Queue(q.buf, begin, wire)
  }

  datatype Op = Packet(p: seq<byte>) | Writable(accepted: Option<nat>)

  /** What the main loop does to the queue; a write never accepts more than it
      is offered. */
  function Run(q: Queue, ops: seq<Op>): Option<Queue> {
    if ops == [] then Some(q)
    else
      match Run(q, ops[.. |ops| - 1])
      case None => None
      case Some(q') =>
        match ops[|ops| - 1]
        case Packet(p) => SendAll(q', Frame(p))
        case Writable(accepted) =>
          if accepted.Some? && q'.begin + accepted.value > |q'.buf| then None
          else Some(Flush(q', accepted))
  }

  /** The packets among the operations. */
  function Packets(ops: seq<Op>): seq<seq<byte>> {
    if ops == [] then []
    else
      var op := ops[|ops| - 1];
      Packets(ops[.. |ops| - 1]) + (if op.Packet? then [op.p] else [])
  }

  lemma {:induction false} SendAllAppends(q: Queue, bytes: seq<byte>)
    requires QueueInv(q) && SendAll(q, bytes).Some?
    ensures var q' := SendAll(q, bytes).value;
            QueueInv(q') && q' == q.(buf := q.buf + bytes)
    decreases |bytes|
  {
    if bytes != [] {
      SendAllAppends(q, bytes[.. |bytes| - 1]);
      assert bytes == bytes[.. |bytes| - 1] + [bytes[|bytes| - 1]];
    } else {
      assert q.buf + [] == q.buf;
    }
  }

  /** The queue overflows exactly when the bytes do not fit behind everything sent
      since it was last empty: what has been written is not reclaimed before. */
  lemma {:induction false} SendFitsIff(q: Queue, bytes: seq<byte>)
    requires QueueInv(q)
    ensures SendAll(q, bytes).Some? <==> |q.buf| + |bytes| <= 2000
    decreases |bytes|
  {
    if bytes != [] {
      SendFitsIff(q, bytes[.. |bytes| - 1]);
      if SendAll(q, bytes[.. |bytes| - 1]).Some? {
        SendAllAppends(q, bytes[.. |bytes| - 1]);
      }
    }
  }

  lemma SendConserves(q: Queue, bytes: seq<byte>)
    requires QueueInv(q) && SendAll(q, bytes).Some?
    ensures var q' := SendAll(q, bytes).value;
            QueueInv(q') && q'.wire + Pending(q') == (q.wire + Pending(q)) + bytes
  {
    hide SendAll;
    SendAllAppends(q, bytes);
    assert (q.buf + bytes)[q.begin ..] == q.buf[q.begin ..] + bytes;
    assert q.wire + (Pending(q) + bytes) == (q.wire + Pending(q)) + bytes;
  }

  lemma FlushConserves(q: Queue, accepted: Option<nat>)
    requires QueueInv(q) && (accepted.Some? ==> q.begin + accepted.value <= |q.buf|)
    ensures var q' := Flush(q, accepted);
            QueueInv(q') && q'.wire + Pending(q') == q.wire + Pending(q)
  {
  }

  lemma PacketsGrow(ops: seq<Op>)
    requires ops != [] && ops[|ops| - 1].Packet?
    ensures Frames(Packets(ops)) == Frames(Packets(ops[.. |ops| - 1])) + Frame(ops[|ops| - 1].p)
  {
    var before, p := Packets(ops[.. |ops| - 1]), ops[|ops| - 1].p;
    assert Packets(ops) == before + [p];
    assert (before + [p])[.. |before|] == before;
  }

  /** Conservation: over every interleaving of packets and partial or refused
      writes, what is on the wire followed by what is pending is the
      concatenation of the frames of all packets so far, and the queue reports
      empty exactly when nothing is pending. */
  lemma {:induction false} QueueConserves(ops: seq<Op>)
    requires Run(EMPTY, ops).Some?
    ensures var q := Run(EMPTY, ops).value;
      && QueueInv(q)
      && q.wire + Pending(q) == Frames(Packets(ops))
      && (SlipEmpty(q) <==> Pending(q) == [])
      && (SlipEmpty(q) ==> q.wire == Frames(Packets(ops)))
    decreases |ops|
  {
    if ops != [] {
      var init, op := ops[.. |ops| - 1], ops[|ops| - 1];
      QueueConserves(init);
      var q := Run(EMPTY, init).value;
      match op {
        case Packet(p) =>
          SendConserves(q, Frame(p));
          PacketsGrow(ops);
        case Writable(accepted) =>
          FlushConserves(q, accepted);
          assert Packets(ops) == Packets(init);
      }
    }
  }

  /** A packet overflows the queue exactly when its frame does not fit behind what is
      still in the buffer, written or not; a write can accept any part of what is
      pending, and no more. */
  lemma RunGoesOnIff(ops: seq<Op>, op: Op)
    requires Run(EMPTY, ops).Some?
    ensures var q := Run(EMPTY, ops).value;
      && QueueInv(q)
      && (Run(EMPTY, ops + [op]).Some? <==>
            match op
            case Packet(p) => |q.buf| + |Frame(p)| <= 2000
            case Writable(accepted) => accepted.None? || accepted.value <= |Pending(q)|)
  {
    QueueConserves(ops);
    assert (ops + [op])[.. |ops|] == ops;
    if op.Packet? {
      SendFitsIff(Run(EMPTY, ops).value, Frame(op.p));
    }
  }

  /** End to end: once the queue reports empty, a receiver that reads the wire in
      any pieces passes on exactly the packets handed in. */
  lemma GatewayEndToEnd(ops: seq<Op>, chunks: seq<seq<byte>>)
    requires Run(EMPTY, ops).Some? && SlipEmpty(Run(EMPTY, ops).value)
    requires Concat(chunks) == Run(EMPTY, ops).value.wire
    ensures FeedAll(START, chunks) == Decoder([], false, Passed(Packets(ops)))
    ensures (forall i :: 0 <= i < |Packets(ops)| ==> Transparent(Packets(ops)[i])) ==>
              FeedAll(START, chunks).out == Packets(ops)
  {
    QueueConserves(ops);
    StreamRoundTrip(Packets(ops), chunks);
  }

  class SlipQueue {
    const slipBuf: array<byte>
    var slipEnd: nat
    var slipBegin: nat
    var wire: seq<byte>

    ghost predicate Valid()
      reads this, slipBuf
    {
      slipBuf.Length == SIZE && slipEnd <= SIZE && QueueInv(State())
    }

    ghost function State(): Queue
      reads this, slipBuf
      requires slipEnd <= slipBuf.Length
    {
      Queue(slipBuf[.. slipEnd], slipBegin, wire)
    }

    constructor ()
      ensures Valid() && fresh(slipBuf) && State() == EMPTY
    {
      slipBuf := new byte[SIZE](_ => 0);
      slipEnd, slipBegin, wire := 0, 0, [];
    }

    /** `ok` is false where the program would exit with an overflow. */
    method SendByte(c: byte) returns (ok: bool)
      requires Valid()
      modifies this, slipBuf
      ensures Valid()
      ensures ok <==> Send(old(State()), c).Some?
      ensures State() == if ok then Send(old(State()), c).value else old(State())
    {
      ok := slipEnd < SIZE;
      if ok {
        slipBuf[slipEnd] := c;
        slipEnd := slipEnd + 1;
        assert slipBuf[.. slipEnd] == old(slipBuf[.. slipEnd]) + [c];
      }
    }

    method IsEmpty() returns (empty: bool)
      requires Valid()
      ensures empty <==> SlipEmpty(State())
      ensures empty <==> Pending(State()) == []
    {
      empty := slipEnd == 0;
    }

    method FlushBuf(accepted: Option<nat>)
      requires Valid() && (accepted.Some? ==> slipBegin + accepted.value <= slipEnd)
      modifies this
      ensures Valid() && State() == Flush(old(State()), accepted)
    {
      var empty := IsEmpty();
      if empty || accepted.None? {
        return;
      }
      var begin := slipBegin + accepted.value;
      wire := wire + slipBuf[slipBegin .. begin];
      assert slipBuf[.. slipEnd][slipBegin .. begin] == slipBuf[slipBegin .. begin];
      slipBegin := begin;
      if slipBegin == slipEnd {
        slipBegin, slipEnd := 0, 0;
      }
    }

    method SendEscaped(c: byte) returns (ok: bool)
      requires Valid()
      modifies this, slipBuf
      ensures Valid()
      ensures ok <==> SendAll(old(State()), Escape(c)).Some?
      ensures ok ==> State() == SendAll(old(State()), Escape(c)).value
    {
      if c == END || c == ESC {
        ok := SendByte(ESC);
        SendTwo(old(State()), ESC, if c == END then ESC_END else ESC_ESC);
        if ok {
          ok := SendByte(if c == END then ESC_END else ESC_ESC);
        }
      } else {
        SendOne(old(State()), c);
        ok := SendByte(c);
      }
    }

    /** Frames a packet and queues it. */
    method WriteToSerial(p: seq<byte>) returns (ok: bool)
      requires Valid()
      modifies this, slipBuf
      ensures Valid()
      ensures ok <==> SendAll(old(State()), Frame(p)).Some?
      ensures ok ==> State() == SendAll(old(State()), Frame(p)).value
    {
      var i := 0;
      assert p[.. 0] == [];
      while i < |p|
        invariant Valid() && i <= |p|
        invariant SendAll(old(State()), EscapeAll(p[.. i])) == Some(State())
      {
        EscapeNext(p, i);
        SendAllConcat(old(State()), EscapeAll(p[.. i]), Escape(p[i]));
        ok := SendEscaped(p[i]);
        if !ok {
          SendAllPrefix(old(State()), EscapeAll(p[.. i + 1]), p, i + 1);
          return;
        }
        i := i + 1;
      }
      assert p[.. |p|] == p;
      SendAllConcat(old(State()), EscapeAll(p), [END]);
      SendOne(State(), END);
      ok := SendByte(END);
    }
  }

  lemma SendOne(q: Queue, c: byte)
    ensures SendAll(q, [c]) == Send(q, c)
  {
    assert SendAll(q, []) == Some(q);
  }

  lemma SendTwo(q: Queue, b: byte, c: byte)
    ensures SendAll(q, [b, c]) ==
      match Send(q, b) case None => None case Some(q') => Send(q', c)
  {
    SendOne(q, b);
    assert [b, c][.. 1] == [b];
  }

  lemma {:induction false} SendAllConcat(q: Queue, a: seq<byte>, b: seq<byte>)
    ensures SendAll(q, a + b) ==
      match SendAll(q, a) case None => None case Some(q') => SendAll(q', b)
    decreases |b|
  {
    if b == [] {
      assert a + b == a;
    } else {
      assert (a + b)[.. |a + b| - 1] == a + b[.. |b| - 1];
      SendAllConcat(q, a, b[.. |b| - 1]);
    }
  }

  lemma EscapeNext(p: seq<byte>, i: nat)
    requires i < |p|
    ensures EscapeAll(p[.. i + 1]) == EscapeAll(p[.. i]) + Escape(p[i])
  {
    assert p[.. i + 1][.. i] == p[.. i];
  }

  /** A frame does not fit if a part of it does not. */
  lemma {:induction false} SendAllPrefix(q: Queue, a: seq<byte>, p: seq<byte>, i: nat)
    requires i <= |p| && a == EscapeAll(p[.. i]) && SendAll(q, a).None?
    ensures SendAll(q, Frame(p)).None?
    decreases |p| - i
  {
    if i == |p| {
      assert p[.. i] == p;
      SendAllConcat(q, a, [END]);
    } else {
      EscapeNext(p, i);
      SendAllConcat(q, a, Escape(p[i]));
      SendAllPrefix(q, EscapeAll(p[.. i + 1]), p, i + 1);
    }
  }
}
