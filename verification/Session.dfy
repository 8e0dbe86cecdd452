/**
  The packet decoder of a chat session (ChatServer/ChatSession.cpp) on top of the receive buffer.

  `OnRead` cuts packets off the front of the buffer.  The main result, `ChunkIndependence`, says that what a session
  hands to `process`, and whether it ends up closed, depends on the byte stream only and not on how TCP cut it into
  reads.  `OpenIff` characterises every open outcome as a split of the stream into frames, and `RoundTrip` is the case
  of a stream that a sender made with the packed header of MsgDefine/MsgDefine.h.
 */
module Sessions {
  import opened Bytes
  import opened Buffers

  const HEAD_SIZE: nat := 20
  const MAX_PACKAGE_SIZE: nat := 10 * 1024 * 1024
  const COMPRESSED: int := 1

  /** What the decoder calls out to: the protobuf handler and zlib (None when `uncompressBuf` fails). */
  datatype Env = Env(accepts: seq<byte> -> bool, inflate: (seq<byte>, nat) -> Option<seq<byte>>)

  // ---------- the packed header ----------

  datatype Head = Head(flag: int, originSize: int, compressSize: int, mainCmd: int, sequence: int)

  function ReadU32(b: seq<byte>, at: nat): (n: nat)
    requires at + 4 <= |b|
    ensures n < 0x1_0000_0000
  {
    b[at] as int + 0x100 * (b[at + 1] as int) + 0x1_0000 * (b[at + 2] as int) + 0x100_0000 * (b[at + 3] as int)
  }

  /** The same four bytes as an `int32_t`. */
  function ReadI32(b: seq<byte>, at: nat): int
    requires at + 4 <= |b|
  {
    var n := ReadU32(b, at);
    if n < 0x8000_0000 then n else n - 0x1_0000_0000
  }

  function ReadHead(b: seq<byte>): Head
    requires HEAD_SIZE <= |b|
  {
    Head(ReadU32(b, 0), ReadI32(b, 4), ReadI32(b, 8), ReadU32(b, 12), ReadU32(b, 16))
  }

  predicate GoodSize(n: int) {
    0 < n <= MAX_PACKAGE_SIZE
  }

  /** The size of the body that follows `h`, or None when the header is refused. */
  function BodySize(h: Head): (n: Option<nat>)
    ensures n.Some? ==> GoodSize(n.value)
  {
    if h.flag == COMPRESSED then
      if GoodSize(h.compressSize) && GoodSize(h.originSize) then Some(h.compressSize) else None
    else
      if GoodSize(h.originSize) then Some(h.originSize) else None
  }

  /** The payload that `process` is given for `body`, or None when it does not uncompress. */
  function PayloadOf(env: Env, h: Head, body: seq<byte>): Option<seq<byte>>
    requires BodySize(h).Some?
  {
    if h.flag == COMPRESSED then env.inflate(body, h.originSize) else Some(body)
  }

  // ---------- decoding a byte stream ----------

  datatype Packet = Incomplete | Malformed | Complete(payload: Option<seq<byte>>, size: nat)

  /** The packet at the front of `b`. */
  function Decode(env: Env, b: seq<byte>): (p: Packet)
    ensures p.Complete? ==> HEAD_SIZE < p.size <= |b|
  {
    if |b| < HEAD_SIZE then Incomplete
    else
      var h := ReadHead(b);
      match BodySize(h)
      case None => Malformed
      case Some(n) =>
        if |b| < n + HEAD_SIZE then Incomplete
        else Complete(PayloadOf(env, h, b[HEAD_SIZE..HEAD_SIZE + n]), HEAD_SIZE + n)
  }

  /** What a session has done: the payloads handed to `process`, in order, whether it was force-closed, and the bytes
      it still holds. */
  datatype Outcome = Outcome(delivered: seq<seq<byte>>, closed: bool, rest: seq<byte>)

  /** The specification of `OnRead` on a buffer holding `b`. */
  function Decoded(env: Env, b: seq<byte>): Outcome
    decreases |b|
  {
    match Decode(env, b)
    case Incomplete => Outcome([], false, b)
    case Malformed => Outcome([], true, b)
    case Complete(None, n) => Outcome([], true, b[n..])
    case Complete(Some(p), n) =>
      if env.accepts(p) then
        var o := Decoded(env, b[n..]);
        o.(delivered := [p] + o.delivered)
      else Outcome([p], true, b[n..])
  }

  /** `OnRead` on a buffer holding `b` when `delivered` has been handed over already. */
  function Resumed(env: Env, delivered: seq<seq<byte>>, b: seq<byte>): Outcome {
    var o := Decoded(env, b);
    o.(delivered := delivered + o.delivered)
  }

  /** A session that reads one more chunk; a closed one no longer reads (Net/TcpConnection.cpp:193-203). */
  function Feed(env: Env, s: Outcome, chunk: seq<byte>): Outcome {
    if s.closed then s else Resumed(env, s.delivered, s.rest + chunk)
  }

  function FeedAll(env: Env, s: Outcome, chunks: seq<seq<byte>>): Outcome
    decreases |chunks|
  {
    if chunks == [] then s else FeedAll(env, Feed(env, s, chunks[0]), chunks[1..])
  }

  /** Equal, except that nothing is said of the bytes a closed session leaves behind. */
  ghost predicate SameOutcome(s: Outcome, t: Outcome) {
    s.delivered == t.delivered && s.closed == t.closed && (!s.closed ==> s.rest == t.rest)
  }

  // ---------- chunk independence ----------

  /** A verdict once reached is not changed by later bytes. */
  lemma DecodeIsStable(env: Env, b: seq<byte>, c: seq<byte>)
    requires !Decode(env, b).Incomplete?
    ensures Decode(env, b + c) == Decode(env, b)
  {
    var h := ReadHead(b);
    assert ReadHead(b + c) == h;
    if BodySize(h).Some? {
      var n := BodySize(h).value;
      assert (b + c)[HEAD_SIZE..HEAD_SIZE + n] == b[HEAD_SIZE..HEAD_SIZE + n];
    }
  }

  /** Decoding a concatenation is decoding its first part and then what that left, followed by the second part. */
  lemma {:induction false} DecodedConcat(env: Env, b: seq<byte>, c: seq<byte>)
    ensures SameOutcome(Decoded(env, b + c), Feed(env, Decoded(env, b), c))
    decreases |b|
  {
    var p := Decode(env, b);
    if !p.Incomplete? {
      DecodeIsStable(env, b, c);
      if p.Complete? && p.payload.Some? && env.accepts(p.payload.value) {
        assert (b + c)[p.size..] == b[p.size..] + c;
        DecodedConcat(env, b[p.size..], c);
        assert forall x, y, z: seq<seq<byte>> :: (x + y) + z == x + (y + z);
      }
    }
  }

  /** What an open session retains is an incomplete packet. */
  lemma {:induction false} OpenRestIsIncomplete(env: Env, b: seq<byte>)
    requires !Decoded(env, b).closed
    ensures Decode(env, Decoded(env, b).rest).Incomplete?
    decreases |b|
  {
    var p := Decode(env, b);
    if p.Complete? {
      OpenRestIsIncomplete(env, b[p.size..]);
    }
  }

  lemma {:induction false} FeedAllIsDecoded(env: Env, b: seq<byte>, chunks: seq<seq<byte>>)
    ensures SameOutcome(FeedAll(env, Decoded(env, b), chunks), Decoded(env, b + Concat(chunks)))
    decreases |chunks|
  {
    if chunks == [] {
      assert b + Concat(chunks) == b;
    } else {
      var c := chunks[0];
      DecodedConcat(env, b, c);
      FeedAllIsDecoded(env, b + c, chunks[1..]);
      assert Concat(chunks) == c + Concat(chunks[1..]);
      assert b + Concat(chunks) == (b + c) + Concat(chunks[1..]);
      FeedAllRespectsSame(env, Feed(env, Decoded(env, b), c), Decoded(env, b + c), chunks[1..]);
    }
  }

  lemma {:induction false} FeedAllRespectsSame(env: Env, s: Outcome, t: Outcome, chunks: seq<seq<byte>>)
    requires SameOutcome(s, t)
    ensures SameOutcome(FeedAll(env, s, chunks), FeedAll(env, t, chunks))
    decreases |chunks|
  {
    if chunks != [] {
      FeedAllRespectsSame(env, Feed(env, s, chunks[0]), Feed(env, t, chunks[0]), chunks[1..]);
    }
  }

  lemma {:induction false} ClosedStays(env: Env, s: Outcome, chunks: seq<seq<byte>>)
    requires s.closed
    ensures FeedAll(env, s, chunks) == s
    decreases |chunks|
  {
    if chunks != [] { ClosedStays(env, s, chunks[1..]); }
  }

  /** Every way of cutting a stream into reads has the outcome of decoding the stream in one piece. */
  lemma ChunkIndependence(env: Env, chunks: seq<seq<byte>>)
    ensures SameOutcome(FeedAll(env, Outcome([], false, []), chunks), Decoded(env, Concat(chunks)))
  {
    FeedAllIsDecoded(env, [], chunks);
    assert [] + Concat(chunks) == Concat(chunks);
  }

  /** An open session never holds on to a maximal packet or more. */
  lemma RetentionBound(env: Env, s: Outcome, chunk: seq<byte>)
    requires !Feed(env, s, chunk).closed
    ensures |Feed(env, s, chunk).rest| < HEAD_SIZE + MAX_PACKAGE_SIZE
  {
    OpenRestIsIncomplete(env, s.rest + chunk);
  }

  // ---------- frames ----------

  /** `frames` are exactly the packets with the payloads `payloads`, all of them accepted. */
  ghost predicate Frames(env: Env, frames: seq<seq<byte>>, payloads: seq<seq<byte>>) {
    && |frames| == |payloads|
    && forall i :: 0 <= i < |frames| ==>
                     Decode(env, frames[i]) == Complete(Some(payloads[i]), |frames[i]|) && env.accepts(payloads[i])
  }

  lemma FrameFirst(env: Env, given: seq<seq<byte>>, frame: seq<byte>, payload: seq<byte>, tail: seq<byte>)
    requires Decode(env, frame) == Complete(Some(payload), |frame|) && env.accepts(payload)
    ensures Resumed(env, given, frame + tail) == Resumed(env, given + [payload], tail)
  {
    DecodeIsStable(env, frame, tail);
    assert (frame + tail)[|frame|..] == tail;
    assert given + ([payload] + Decoded(env, tail).delivered) == (given + [payload]) + Decoded(env, tail).delivered;
  }

  lemma FramesTail(env: Env, frames: seq<seq<byte>>, payloads: seq<seq<byte>>)
    requires Frames(env, frames, payloads) && frames != []
    ensures Decode(env, frames[0]) == Complete(Some(payloads[0]), |frames[0]|) && env.accepts(payloads[0])
    ensures Frames(env, frames[1..], payloads[1..])
  {}

  lemma ConcatFirst(frames: seq<seq<byte>>, tail: seq<byte>)
    requires frames != []
    ensures Concat(frames) + tail == frames[0] + (Concat(frames[1..]) + tail)
  {}

  lemma GivenFirst(given: seq<seq<byte>>, payloads: seq<seq<byte>>)
    requires payloads != []
    ensures (given + [payloads[0]]) + payloads[1..] == given + payloads
  {}

  /** Frames in front of a stream are delivered first. */
  lemma {:induction false} FramesThen(env: Env, given: seq<seq<byte>>, frames: seq<seq<byte>>,
                                      payloads: seq<seq<byte>>, tail: seq<byte>)
    requires Frames(env, frames, payloads)
    ensures Resumed(env, given, Concat(frames) + tail) == Resumed(env, given + payloads, tail)
    decreases |frames|
  {
    if frames == [] {
      assert Concat(frames) + tail == tail && given + payloads == given;
    } else {
      FramesTail(env, frames, payloads);
      ConcatFirst(frames, tail);
      FrameFirst(env, given, frames[0], payloads[0], Concat(frames[1..]) + tail);
      FramesThen(env, given + [payloads[0]], frames[1..], payloads[1..], tail);
      GivenFirst(given, payloads);
    }
  }

  lemma FramesAreDelivered(env: Env, frames: seq<seq<byte>>, payloads: seq<seq<byte>>, rest: seq<byte>)
    requires Frames(env, frames, payloads)
    requires Decode(env, rest).Incomplete?
    ensures Decoded(env, Concat(frames) + rest) == Outcome(payloads, false, rest)
  {
    FramesThen(env, [], frames, payloads, rest);
    assert [] + payloads == payloads == payloads + [];
    var o := Decoded(env, Concat(frames) + rest);
    assert [] + o.delivered == o.delivered;
  }

  lemma FrontIsFrame(env: Env, b: seq<byte>)
    requires Decode(env, b).Complete?
    ensures Decode(env, b[..Decode(env, b).size]) == Decode(env, b)
  {
    var n := Decode(env, b).size;
    var first := b[..n];
    assert ReadHead(first) == ReadHead(b);
    assert first[HEAD_SIZE..n] == b[HEAD_SIZE..n];
  }

  lemma FramesCons(env: Env, first: seq<byte>, payload: seq<byte>, frames: seq<seq<byte>>, payloads: seq<seq<byte>>)
    requires Decode(env, first) == Complete(Some(payload), |first|) && env.accepts(payload)
    requires Frames(env, frames, payloads)
    ensures Frames(env, [first] + frames, [payload] + payloads)
    ensures Concat([first] + frames) == first + Concat(frames)
  {
    assert ([first] + frames)[1..] == frames;
  }

  lemma SplitAssociates(b: seq<byte>, first: seq<byte>, middle: seq<byte>, rest: seq<byte>)
    requires first <= b && b[|first|..] == middle + rest
    ensures b == (first + middle) + rest
  {}

  lemma {:induction false} OpenMeansFrames(env: Env, b: seq<byte>) returns (frames: seq<seq<byte>>)
    requires !Decoded(env, b).closed
    ensures Frames(env, frames, Decoded(env, b).delivered)
    ensures b == Concat(frames) + Decoded(env, b).rest
    decreases |b|
  {
    var p := Decode(env, b);
    if p.Incomplete? {
      frames := [];
    } else {
      var first, later := b[..p.size], b[p.size..];
      var fs := OpenMeansFrames(env, later);
      FrontIsFrame(env, b);
      FramesCons(env, first, p.payload.value, fs, Decoded(env, later).delivered);
      frames := [first] + fs;
      SplitAssociates(b, first, Concat(fs), Decoded(env, later).rest);
    }
  }

  /** The session stays open, has delivered `payloads` and holds `rest` if and only if the stream is a sequence of
      frames with these payloads, all accepted, followed by the incomplete packet `rest`. */
  lemma OpenIff(env: Env, b: seq<byte>, payloads: seq<seq<byte>>, rest: seq<byte>)
    ensures Decoded(env, b) == Outcome(payloads, false, rest)
            <==> exists frames ::
                   Frames(env, frames, payloads) && b == Concat(frames) + rest && Decode(env, rest).Incomplete?
  {
    if Decoded(env, b) == Outcome(payloads, false, rest) {
      var frames := OpenMeansFrames(env, b);
      OpenRestIsIncomplete(env, b);
      assert Frames(env, frames, payloads) && b == Concat(frames) + rest && Decode(env, rest).Incomplete?;
    }
    if frames :| Frames(env, frames, payloads) && b == Concat(frames) + rest && Decode(env, rest).Incomplete? {
      FramesAreDelivered(env, frames, payloads, rest);
    }
  }

  /** What the source refuses in the packet at the front of `b`, told by its header bytes: a size out of range, a body
      that does not uncompress, or a payload that `process` turns down. */
  ghost predicate Fatal(env: Env, b: seq<byte>) {
    && HEAD_SIZE <= |b|
    && var packed, originSize, compressSize := ReadU32(b, 0) == COMPRESSED, ReadI32(b, 4), ReadI32(b, 8);
       var size := if packed then compressSize else originSize;
       || originSize <= 0 || originSize > MAX_PACKAGE_SIZE || size <= 0 || size > MAX_PACKAGE_SIZE
       || (&& HEAD_SIZE + size <= |b|
           && var body := b[HEAD_SIZE..HEAD_SIZE + size];
              var payload := if packed then env.inflate(body, originSize) else Some(body);
              payload.None? || !env.accepts(payload.value))
  }

  /** The payload that `process` turns down, if the packet gets that far. */
  function Refused(env: Env, b: seq<byte>): seq<seq<byte>> {
    match Decode(env, b)
    case Complete(Some(p), _) => [p]
    case _ => []
  }

  lemma FatalIff(env: Env, b: seq<byte>)
    ensures Fatal(env, b) <==> match Decode(env, b)
                               case Incomplete => false
                               case Malformed => true
                               case Complete(p, _) => p.None? || !env.accepts(p.value)
  {}

  lemma FatalFirst(env: Env, bad: seq<byte>)
    requires Fatal(env, bad)
    ensures Decoded(env, bad).closed && Decoded(env, bad).delivered == Refused(env, bad)
  {
    FatalIff(env, bad);
  }

  lemma FramesThenFatal(env: Env, frames: seq<seq<byte>>, payloads: seq<seq<byte>>, bad: seq<byte>)
    requires Frames(env, frames, payloads) && Fatal(env, bad)
    ensures var o := Decoded(env, Concat(frames) + bad); o.closed && o.delivered == payloads + Refused(env, bad)
  {
    FramesThen(env, [], frames, payloads, bad);
    FatalFirst(env, bad);
    assert [] + payloads == payloads;
    var o := Decoded(env, Concat(frames) + bad);
    assert [] + o.delivered == o.delivered;
  }

  lemma {:induction false} ClosedMeansFatal(env: Env, b: seq<byte>)
    returns (frames: seq<seq<byte>>, payloads: seq<seq<byte>>, bad: seq<byte>)
    requires Decoded(env, b).closed
    ensures Frames(env, frames, payloads) && Fatal(env, bad) && b == Concat(frames) + bad
    decreases |b|
  {
    FatalIff(env, b);
    if Fatal(env, b) {
      frames, payloads, bad := [], [], b;
    } else {
      var p := Decode(env, b);
      var first, later := b[..p.size], b[p.size..];
      var fs, ps, rest := ClosedMeansFatal(env, later);
      FrontIsFrame(env, b);
      FramesCons(env, first, p.payload.value, fs, ps);
      frames, payloads, bad := [first] + fs, [p.payload.value] + ps, rest;
      SplitAssociates(b, first, Concat(fs), rest);
    }
  }

  /** The session is closed, having handed over `delivered`, if and only if the stream is a sequence of accepted frames
      followed by a packet that the source refuses. */
  lemma ClosedIff(env: Env, b: seq<byte>, delivered: seq<seq<byte>>)
    ensures Decoded(env, b).closed && Decoded(env, b).delivered == delivered
            <==> exists frames: seq<seq<byte>>, payloads, bad ::
                   && Frames(env, frames, payloads) && Fatal(env, bad) && b == Concat(frames) + bad
                   && delivered == payloads + Refused(env, bad)
  {
    if Decoded(env, b).closed && Decoded(env, b).delivered == delivered {
      var frames, payloads, bad := ClosedMeansFatal(env, b);
      FramesThenFatal(env, frames, payloads, bad);
    }
    if frames: seq<seq<byte>>, payloads, bad :|
      Frames(env, frames, payloads) && Fatal(env, bad) && b == Concat(frames) + bad
      && delivered == payloads + Refused(env, bad)
    {
      FramesThenFatal(env, frames, payloads, bad);
    }
  }

  // ---------- the sender's side ----------

  datatype Message =
    | Plain(mainCmd: U32, sequence: U32, body: seq<byte>)
    | Packed(mainCmd: U32, sequence: U32, originSize: nat, packedBody: seq<byte>)

  type U32 = n: nat | n < 0x1_0000_0000

  function WriteU32(n: nat): (b: seq<byte>)
    ensures |b| == 4
  {
    [n % 0x100, n / 0x100 % 0x100, n / 0x1_0000 % 0x100, n / 0x100_0000 % 0x100]
  }

  function Encode(m: Message): (b: seq<byte>)
    ensures |b| >= HEAD_SIZE
  {
    match m
    case Plain(cmd, s, body) => WriteU32(0) + WriteU32(|body|) + WriteU32(0) + WriteU32(cmd) + WriteU32(s) + body
    case Packed(cmd, s, size, body) =>
      WriteU32(COMPRESSED) + WriteU32(size) + WriteU32(|body|) + WriteU32(cmd) + WriteU32(s) + body
  }

  /** The header that announces `m`. */
  function HeadOf(m: Message): Head {
    match m
    case Plain(cmd, s, body) => Head(0, |body|, 0, cmd, s)
    case Packed(cmd, s, size, body) => Head(COMPRESSED, size, |body|, cmd, s)
  }

  /** `m` obeys the size limits of the receiver and carries `payload`. */
  ghost predicate Carries(env: Env, m: Message, payload: seq<byte>) {
    match m
    case Plain(_, _, body) => GoodSize(|body|) && payload == body
    case Packed(_, _, size, body) => GoodSize(size) && GoodSize(|body|) && env.inflate(body, size) == Some(payload)
  }

  lemma U32RoundTrip(n: nat, b: seq<byte>, at: nat)
    requires n < 0x1_0000_0000
    requires at + 4 <= |b| && b[at..at + 4] == WriteU32(n)
    ensures ReadU32(b, at) == n
  {
    var w := b[at..at + 4];
    assert b[at] == w[0] && b[at + 1] == w[1] && b[at + 2] == w[2] && b[at + 3] == w[3];
    assert n / 0x1_0000 == n / 0x100 / 0x100 && n / 0x100_0000 == n / 0x1_0000 / 0x100;
  }

  /** The five fields of the packed header come out as they went in, whatever follows. */
  lemma HeadRoundTrip(m: Message, rest: seq<byte>)
    requires var h := HeadOf(m);
             h.originSize < 0x8000_0000 && h.compressSize < 0x8000_0000
    ensures ReadHead(Encode(m) + rest) == HeadOf(m)
  {
    var h, b := HeadOf(m), Encode(m) + rest;
    assert b[0..4] == WriteU32(h.flag) && b[4..8] == WriteU32(h.originSize) && b[8..12] == WriteU32(h.compressSize);
    assert b[12..16] == WriteU32(h.mainCmd) && b[16..20] == WriteU32(h.sequence);
    U32RoundTrip(h.flag, b, 0);
    U32RoundTrip(h.originSize, b, 4);
    U32RoundTrip(h.compressSize, b, 8);
    U32RoundTrip(h.mainCmd, b, 12);
    U32RoundTrip(h.sequence, b, 16);
  }

  lemma MessageIsFrame(env: Env, m: Message, payload: seq<byte>)
    requires Carries(env, m, payload)
    ensures Decode(env, Encode(m)) == Complete(Some(payload), |Encode(m)|)
  {
    var b := Encode(m);
    var body := if m.Plain? then m.body else m.packedBody;
    HeadRoundTrip(m, []);
    assert b + [] == b;
    assert b[HEAD_SIZE..HEAD_SIZE + |body|] == body;
  }

  lemma StableOrIncomplete(env: Env, b: seq<byte>, c: seq<byte>)
    ensures Decode(env, b).Incomplete? || Decode(env, b + c) == Decode(env, b)
  {
    if !Decode(env, b).Incomplete? {
      DecodeIsStable(env, b, c);
    }
  }

  /** A proper prefix of a frame decodes to nothing yet. */
  lemma PrefixIsIncomplete(env: Env, frame: seq<byte>, rest: seq<byte>)
    requires Decode(env, frame).Complete? && Decode(env, frame).size == |frame|
    requires rest < frame
    ensures Decode(env, rest).Incomplete?
  {
    var missing := frame[|rest|..];
    assert frame == rest + missing;
    StableOrIncomplete(env, rest, missing);
  }

  /** Encoded messages, cut off anywhere inside a last one, come out as exactly their payloads in order, with the
      unfinished message still buffered. */
  lemma RoundTrip(env: Env, ms: seq<Message>, payloads: seq<seq<byte>>, last: Message, lastPayload: seq<byte>,
                  rest: seq<byte>)
    requires |ms| == |payloads|
    requires forall i :: 0 <= i < |ms| ==> Carries(env, ms[i], payloads[i]) && env.accepts(payloads[i])
    requires Carries(env, last, lastPayload) && rest < Encode(last)
    ensures Decoded(env, Concat(seq(|ms|, i requires 0 <= i < |ms| => Encode(ms[i]))) + rest)
            == Outcome(payloads, false, rest)
  {
    var frames := seq(|ms|, i requires 0 <= i < |ms| => Encode(ms[i]));
    forall i | 0 <= i < |ms|
      ensures Decode(env, frames[i]) == Complete(Some(payloads[i]), |frames[i]|)
    {
      MessageIsFrame(env, ms[i], payloads[i]);
    }
    MessageIsFrame(env, last, lastPayload);
    PrefixIsIncomplete(env, Encode(last), rest);
    FramesAreDelivered(env, frames, payloads, rest);
  }

  // ---------- a packet, byte by byte ----------

  /** The number that `b` is in little-endian order. */
  function Little(b: seq<byte>): nat {
    if b == [] then 0 else b[0] + 256 * Little(b[1..])
  }

  /** The same as a two's complement number of 32 bits. */
  function Signed(b: seq<byte>): int {
    if Little(b) < 0x8000_0000 then Little(b) else Little(b) - 0x1_0000_0000
  }

  lemma LittleOfFour(b: seq<byte>, at: nat)
    requires at + 4 <= |b|
    ensures ReadU32(b, at) == Little(b[at..at + 4]) && ReadI32(b, at) == Signed(b[at..at + 4])
  {
    var w := b[at..at + 4];
    assert w[1..][1..] == w[2..] && w[2..][1..] == w[3..] && w[3..][1..] == [];
    assert Little(w[3..]) == w[3] && Little(w[2..]) == w[2] + 256 * Little(w[3..]);
    assert Little(w[1..]) == w[1] + 256 * Little(w[2..]);
  }

  /** The packet at the front of at least 20 bytes: with flag 1 the body has the size in bytes 8 to 11 and uncompresses
      to the one in bytes 4 to 7; with any other flag it has the latter and is the payload itself.  Sizes from 1 to
      10485760 are accepted. */
  lemma PacketByBytes(env: Env, b: seq<byte>)
    requires 20 <= |b|
    ensures ReadHead(b)
            == Head(Little(b[0..4]), Signed(b[4..8]), Signed(b[8..12]), Little(b[12..16]), Little(b[16..20]))
    ensures var packed, origin, compressed := Little(b[0..4]) == 1, Signed(b[4..8]), Signed(b[8..12]);
            var n := if packed then compressed else origin;
            if !(1 <= origin <= 10485760 && 1 <= n <= 10485760) then Decode(env, b) == Malformed
            else if |b| < 20 + n then Decode(env, b) == Incomplete
            else Decode(env, b)
                 == Complete(if packed then env.inflate(b[20..20 + n], origin) else Some(b[20..20 + n]), 20 + n)
  {
    LittleOfFour(b, 0);
    LittleOfFour(b, 4);
    LittleOfFour(b, 8);
    LittleOfFour(b, 12);
    LittleOfFour(b, 16);
  }

  // ---------- one round of the loop, for both readings of the buffer guards ----------

  datatype Verdict = Wait | Close | Again

  /** What one round does: its verdict, the payload given to `process` if any, and the bytes it leaves. */
  datatype Round = Round(verdict: Verdict, handed: Option<seq<byte>>, rest: seq<byte>)

  function OneRound(g: Guard, env: Env, b: seq<byte>): Round {
    if |b| < HEAD_SIZE then Round(Wait, None, b)
    else
      var h := ReadHead(b);
      match BodySize(h)
      case None => Round(Close, None, b)
      case Some(n) =>
        if |b| < n + HEAD_SIZE then Round(Wait, None, b)
        else
          var b' := Retrieved(g, b, HEAD_SIZE);
          var payload := PayloadOf(env, h, b'[..n]);
          var verdict := if payload.Some? && env.accepts(payload.value) then Again else Close;
          Round(verdict, payload, Retrieved(g, b', n))
  }

  /** With the intended guards a round is one packet of `Decode`. */
  lemma IntendedRound(env: Env, b: seq<byte>)
    ensures var r := OneRound(Intended, env, b);
            match Decode(env, b)
            case Incomplete => r == Round(Wait, None, b)
            case Malformed => r == Round(Close, None, b)
            case Complete(p, n) =>
              r == Round(if p.Some? && env.accepts(p.value) then Again else Close, p, b[n..])
  {
    var d := Decode(env, b);
    if d.Complete? {
      var n := d.size - HEAD_SIZE;
      assert b[HEAD_SIZE..][..n] == b[HEAD_SIZE..d.size];
      assert b[HEAD_SIZE..][n..] == b[d.size..];
    }
  }

  /** Whether the first `k` rounds all continue. */
  predicate ContinuesFor(g: Guard, env: Env, b: seq<byte>, k: nat)
    decreases k
  {
    k == 0 || (OneRound(g, env, b).verdict.Again? && ContinuesFor(g, env, OneRound(g, env, b).rest, k - 1))
  }

  /** Whether a call of `OnRead` on a buffer holding `b` comes to an end. */
  predicate CallEnds(g: Guard, env: Env, b: seq<byte>) {
    g.Intended? || !OneRound(g, env, b).verdict.Again?
  }

  /** What a call that ends makes of a buffer holding `b`; as written it is over after one round. */
  function CallOutcome(g: Guard, env: Env, b: seq<byte>): Outcome {
    match g
    case Intended => Decoded(env, b)
    case AsWritten =>
      var r := OneRound(g, env, b);
      Outcome(if r.handed.Some? then [r.handed.value] else [], r.verdict.Close?, r.rest)
  }

  function CallResumed(g: Guard, env: Env, delivered: seq<seq<byte>>, b: seq<byte>): Outcome {
    var o := CallOutcome(g, env, b);
    o.(delivered := delivered + o.delivered)
  }

  /** As written, a round consumes nothing, and what it takes for the body of a complete packet starts with the header
      again. */
  lemma AsWrittenRound(env: Env, b: seq<byte>)
    ensures var r := OneRound(AsWritten, env, b);
            && r.rest == b
            && match Decode(env, b)
               case Incomplete => r.verdict == Wait && r.handed == None
               case Malformed => r.verdict == Close && r.handed == None
               case Complete(_, n) =>
                 && r.handed == PayloadOf(env, ReadHead(b), b[..n - 20])
                 && r.verdict == if r.handed.Some? && env.accepts(r.handed.value) then Again else Close
  {}

  /** A round of a call that ends either ends it with its outcome or leaves a smaller call to do. */
  lemma RoundOfCall(g: Guard, env: Env, delivered: seq<seq<byte>>, b: seq<byte>)
    requires CallEnds(g, env, b)
    ensures var r := OneRound(g, env, b);
            var delivered' := delivered + if r.handed.Some? then [r.handed.value] else [];
            if r.verdict.Again? then
              |r.rest| < |b| && CallEnds(g, env, r.rest)
              && CallResumed(g, env, delivered, b) == CallResumed(g, env, delivered', r.rest)
            else
              CallResumed(g, env, delivered, b) == Outcome(delivered', r.verdict.Close?, r.rest)
  {
    if g.Intended? {
      IntendedRound(env, b);
      var d := Decode(env, b);
      if d.Complete? && d.payload.Some? && env.accepts(d.payload.value) {
        var p, later := [d.payload.value], Decoded(env, b[d.size..]).delivered;
        assert (delivered + p) + later == delivered + (p + later);
      }
    }
  }

  /** With the intended guards every call ends.  As written, a round that continues has consumed nothing: a call ends if
      and only if its first round ends it. */
  lemma CallEndsIff(g: Guard, env: Env, b: seq<byte>)
    ensures (exists k :: !ContinuesFor(g, env, b, k)) <==> CallEnds(g, env, b)
  {
    if g.Intended? {
      var k := IntendedStops(env, b);
    } else if CallEnds(g, env, b) {
      assert !ContinuesFor(g, env, b, 1);
    } else {
      forall k ensures ContinuesFor(g, env, b, k) {
        AsWrittenSpins(env, b, k);
      }
    }
  }

  lemma IntendedConsumes(env: Env, b: seq<byte>)
    requires OneRound(Intended, env, b).verdict.Again?
    ensures |OneRound(Intended, env, b).rest| < |b|
  {
    IntendedRound(env, b);
  }

  lemma {:induction false} IntendedStops(env: Env, b: seq<byte>) returns (k: nat)
    ensures !ContinuesFor(Intended, env, b, k)
    decreases |b|
  {
    var r := OneRound(Intended, env, b);
    k := 1;
    if r.verdict.Again? {
      IntendedConsumes(env, b);
      var later := IntendedStops(env, r.rest);
      k := later + 1;
    }
  }

  lemma {:induction false} AsWrittenSpins(env: Env, b: seq<byte>, k: nat)
    requires OneRound(AsWritten, env, b).verdict.Again?
    ensures ContinuesFor(AsWritten, env, b, k)
  {
    if k > 0 {
      assert OneRound(AsWritten, env, b).rest == b;
      AsWrittenSpins(env, b, k - 1);
    }
  }

  /** As written, a call ends with the intended outcome if and only if no complete packet is at the front. */
  lemma AsWrittenAgreesIff(env: Env, b: seq<byte>)
    ensures CallEnds(AsWritten, env, b) && CallOutcome(AsWritten, env, b) == CallOutcome(Intended, env, b)
            <==> !Decode(env, b).Complete?
  {
    var d := Decode(env, b);
    if d.Complete? {
      assert OneRound(AsWritten, env, b).rest == b;
      DecodedConsumes(env, b);
    }
  }

  lemma {:induction false} DecodedConsumes(env: Env, b: seq<byte>)
    ensures |Decoded(env, b).rest| <= |b| - if Decode(env, b).Complete? then HEAD_SIZE + 1 else 0
    decreases |b|
  {
    var d := Decode(env, b);
    if d.Complete? {
      DecodedConsumes(env, b[d.size..]);
    }
  }

  /** A one-byte plain packet on which the loop as written never ends, and the intended one delivers it. */
  lemma AsWrittenSpinsExample(env: Env)
    requires forall p :: env.accepts(p)
    ensures var b := Encode(Plain(1, 0, [7]));
            (forall k :: ContinuesFor(AsWritten, env, b, k)) && Decoded(env, b) == Outcome([[7]], false, [])
  {
    var m := Plain(1, 0, [7]);
    var b := Encode(m);
    MessageIsFrame(env, m, [7]);
    assert Concat([b]) == b + Concat([]) == b;
    FramesAreDelivered(env, [b], [[7]], []);
    assert b + [] == b;
    forall k ensures ContinuesFor(AsWritten, env, b, k) {
      AsWrittenSpins(env, b, k);
    }
  }

  // ---------- the session object ----------

  class ChatSession {
    const env: Env
    const buffer: Buffer
    /** The calls made to `process`, in order. */
    var delivered: seq<seq<byte>>
    /** Set by `forceClose`. */
    var closed: bool
    var lastPackageTime: int

    ghost predicate Valid()
      reads this, buffer
    {
      buffer.Valid()
    }

    ghost function View(): Outcome
      requires Valid()
      reads this, buffer, buffer.data
    {
      Outcome(delivered, closed, buffer.Contents())
    }

    constructor (env: Env, guard: Guard, now: int)
      ensures Valid() && fresh(buffer) && fresh(buffer.data)
      ensures this.env == env && buffer.guard == guard && lastPackageTime == now
      ensures View() == Outcome([], false, [])
    {
      this.env := env;
      buffer := new Buffer(guard);
      delivered, closed, lastPackageTime := [], false, now;
    }

    /** Hands `payload` to the protobuf handler. */
    method Process(payload: seq<byte>) returns (ok: bool)
      modifies this`delivered
      ensures ok == env.accepts(payload)
      ensures delivered == old(delivered) + [payload]
    {
      delivered := delivered + [payload];
      ok := env.accepts(payload);
    }

    method ForceClose()
      modifies this`closed
      ensures closed
    {
      closed := true;
    }

    /** One round of the loop in `OnRead`. */
    method ReadPacket(now: int) returns (verdict: Verdict)
      requires Valid()
      modifies this, buffer
      ensures Valid() && buffer.data == old(buffer.data)
      ensures var r := OneRound(buffer.guard, env, old(buffer.Contents()));
              && verdict == r.verdict
              && buffer.Contents() == r.rest
              && delivered == old(delivered) + (if r.handed.Some? then [r.handed.value] else [])
              && closed == (old(closed) || verdict.Close?)
              && lastPackageTime == if verdict.Again? then now else old(lastPackageTime)
    {
      if buffer.ReadableBytes() < HEAD_SIZE {
        return Wait;
      }
      var head := ReadHead(buffer.Peek(HEAD_SIZE));
      assert head == ReadHead(buffer.Contents());
      var size := BodySize(head);
      if size.None? {
        ForceClose();
        return Close;
      }
      var n := size.value;
      if buffer.ReadableBytes() < n + HEAD_SIZE {
        return Wait;
      }
      ghost var b := buffer.Contents();
      var _ := buffer.Retrieve(HEAD_SIZE);
      var body := buffer.Peek(n);
      var _ := buffer.Retrieve(n);
      var payload := PayloadOf(env, head, body);
      assert OneRound(buffer.guard, env, b).handed == payload;
      verdict := HandOver(payload, now);
    }

    /** The end of a round: a body that does not uncompress or that `process` turns down closes the session. */
    method HandOver(payload: Option<seq<byte>>, now: int) returns (verdict: Verdict)
      modifies this
      ensures verdict == if payload.Some? && env.accepts(payload.value) then Again else Close
      ensures delivered == old(delivered) + (if payload.Some? then [payload.value] else [])
      ensures closed == (old(closed) || verdict.Close?)
      ensures lastPackageTime == if verdict.Again? then now else old(lastPackageTime)
    {
      if payload.None? {
        ForceClose();
        return Close;
      }
      var ok := Process(payload.value);
      if !ok {
        ForceClose();
        return Close;
      }
      lastPackageTime := now;
      return Again;
    }

    /** The decoder loop, on either reading of the guards, whenever it ends at all (`CallEndsIff`). */
    method OnRead(now: int)
      requires Valid() && CallEnds(buffer.guard, env, buffer.Contents())
      modifies this, buffer
      ensures Valid() && buffer.data == old(buffer.data)
      ensures var o := CallOutcome(buffer.guard, env, old(buffer.Contents()));
              View() == Outcome(old(delivered) + o.delivered, old(closed) || o.closed, o.rest)
      ensures lastPackageTime == if OneRound(buffer.guard, env, old(buffer.Contents())).verdict.Again? then now
                                 else old(lastPackageTime)
    {
      ghost var g, result := buffer.guard, CallResumed(buffer.guard, env, delivered, buffer.Contents());
      ghost var goneOn := false;
      while true
        invariant Valid() && buffer.data == old(buffer.data) && closed == old(closed)
        invariant lastPackageTime == if goneOn then now else old(lastPackageTime)
        invariant if goneOn then OneRound(g, env, old(buffer.Contents())).verdict.Again?
                  else buffer.Contents() == old(buffer.Contents())
        invariant CallEnds(g, env, buffer.Contents())
        invariant CallResumed(g, env, delivered, buffer.Contents()) == result
        decreases buffer.ReadableBytes()
      {
        RoundOfCall(g, env, delivered, buffer.Contents());
        var verdict := ReadPacket(now);
        if !verdict.Again? {
          return;
        }
        goneOn := true;
      }
    }

    /** `TcpConnection::handleRead` with `OnRead` as its message callback: an empty `chunk` is end of file or an
        error.  With the intended guards a read of an open session is `Feed`. */
    method HandleRead(chunk: seq<byte>, now: int)
      requires Valid()
      requires var w := buffer.WritableBytes(); |chunk| <= w + if w < EXTRA_SIZE then EXTRA_SIZE else 0
      requires chunk != [] ==> CallEnds(buffer.guard, env, AfterReading(chunk))
      modifies this, buffer, buffer.data
      ensures Valid() && (buffer.data == old(buffer.data) || fresh(buffer.data))
      ensures chunk != [] ==>
                var o := CallOutcome(buffer.guard, env, old(AfterReading(chunk)));
                View() == Outcome(old(delivered) + o.delivered, old(closed) || o.closed, o.rest)
      ensures chunk != [] && buffer.guard.Intended? && !old(closed) ==> View() == Feed(env, old(View()), chunk)
      ensures chunk == [] ==> View() == old(View()).(closed := true)
    {
      ghost var held := buffer.Contents();
      ReadFdIsConcatenationIff(buffer.guard, held, chunk, buffer.data.Length, buffer.readIndex, buffer.writeIndex);
      buffer.ReadFd(chunk);
      if chunk != [] {
        OnRead(now);
      } else {
        assert held + chunk == held;
        ForceClose();
      }
    }

    /** The successive reads of a connection, until the session is closed: with the intended guards the outcome is that
        of decoding the whole stream, however TCP has cut it. */
    method Receive(chunks: seq<seq<byte>>, now: int)
      requires Valid() && buffer.guard.Intended? && View() == Outcome([], false, [])
      requires forall c <- chunks :: 0 < |c| <= EXTRA_SIZE
      modifies this, buffer, buffer.data
      ensures Valid() && SameOutcome(View(), Decoded(env, Concat(chunks)))
    {
      var i := 0;
      assert chunks[0..] == chunks;
      while i < |chunks| && !closed
        invariant i <= |chunks| && Valid() && (buffer.data == old(buffer.data) || fresh(buffer.data))
        invariant FeedAll(env, View(), chunks[i..]) == FeedAll(env, Outcome([], false, []), chunks)
      {
        assert chunks[i..][1..] == chunks[i + 1..];
        HandleRead(chunks[i], now);
        i := i + 1;
      }
      if closed { ClosedStays(env, View(), chunks[i..]); }
      ChunkIndependence(env, chunks);
    }

    /** What the buffer holds once `chunk` has been read into it. */
    ghost function AfterReading(chunk: seq<byte>): seq<byte>
      requires Valid()
      reads this, buffer, buffer.data
    {
      Received(buffer.guard, buffer.Contents(), chunk, buffer.data.Length, buffer.readIndex, buffer.writeIndex)
    }
  }
}
