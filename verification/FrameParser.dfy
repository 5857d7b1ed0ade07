/**
 * The framing of the camera stream: frames arrive as an 8-byte time stamp, a 4-byte little-endian
 * length and the payload, cut into samples at arbitrary places, and are put together again by a
 * three-state parser that pushes at most one frame per sample.
 */
module FrameParser {
  import opened Bytes

  const ABSOLUTETIME_LENGTH: nat := 8
  const MAPLENGTH: nat := 4

  datatype Frame = Frame(pts: seq<byte>, data: seq<byte>)

  /** What the parser is waiting for, with the part of the header it has already taken. */
  datatype Phase = Stamp | Size(pts: seq<byte>) | Data(pts: seq<byte>, size: nat)

  datatype Parser = Parser(buffer: seq<byte>, phase: Phase)

  const START := Parser([], Stamp)

  // ---------------------------------------------------------------- one sample

  function TakeStamp(p: Parser): Parser {
    if p.phase.Stamp? && |p.buffer| >= ABSOLUTETIME_LENGTH
    then Parser(p.buffer[ABSOLUTETIME_LENGTH..], Size(p.buffer[..ABSOLUTETIME_LENGTH]))
    else p
  }

  function TakeSize(p: Parser): Parser {
    if p.phase.Size? && |p.buffer| >= MAPLENGTH
    then Parser(p.buffer[MAPLENGTH..], Data(p.phase.pts, LittleEndian(p.buffer[..MAPLENGTH])))
    else p
  }

  /** The new state, and the frame pushed if there is one. */
  function TakeData(p: Parser): (Parser, seq<Frame>) {
    if p.phase.Data? && |p.buffer| >= p.phase.size
    then (Parser(p.buffer[p.phase.size..], Stamp), [Frame(p.phase.pts, p.buffer[..p.phase.size])])
    else (p, [])
  }

  /** on_new_sample: append the sample, then try the three steps once each, in this order. */
  function Feed(p: Parser, sample: seq<byte>): (Parser, seq<Frame>) {
    TakeData(TakeSize(TakeStamp(p.(buffer := p.buffer + sample))))
  }

  /** A run over a list of samples, and all the frames it pushed. */
  function FeedAll(samples: seq<seq<byte>>): (Parser, seq<Frame>) {
    if samples == [] then (START, [])
    else
      var (p, frames) := FeedAll(samples[..|samples| - 1]);
      var (q, more) := Feed(p, samples[|samples| - 1]);
      (q, frames + more)
  }

  // ---------------------------------------------------------------- the encoding

  predicate Encodable(f: Frame) {
    |f.pts| == ABSOLUTETIME_LENGTH && |f.data| < Power256(MAPLENGTH)
  }

  predicate AllEncodable(frames: seq<Frame>) {
    forall k | 0 <= k < |frames| :: Encodable(frames[k])
  }

  function Encode(f: Frame): seq<byte> {
    f.pts + LittleEndianBytes(|f.data|, MAPLENGTH) + f.data
  }

  function EncodeAll(frames: seq<Frame>): seq<byte> {
    if frames == [] then [] else Encode(frames[0]) + EncodeAll(frames[1..])
  }

  /** Everything the parser has received and not yet pushed. */
  function Held(p: Parser): seq<byte> {
    (match p.phase
     case Stamp => []
     case Size(pts) => pts
     case Data(pts, size) => pts + LittleEndianBytes(size, MAPLENGTH))
    + p.buffer
  }

  predicate Valid(p: Parser) {
    match p.phase
    case Stamp => true
    case Size(pts) => |pts| == ABSOLUTETIME_LENGTH
    case Data(pts, size) => |pts| == ABSOLUTETIME_LENGTH && size < Power256(MAPLENGTH)
  }

  lemma {:induction false} EncodeAllSplit(a: seq<Frame>, b: seq<Frame>)
    ensures EncodeAll(a + b) == EncodeAll(a) + EncodeAll(b)
  {
    if a == [] {
      assert a + b == b;
    } else {
      assert (a + b)[1..] == a[1..] + b;
      EncodeAllSplit(a[1..], b);
    }
  }

  // ---------------------------------------------------------------- conservation

  lemma TakeStampKeeps(p: Parser)
    requires Valid(p)
    ensures Valid(TakeStamp(p)) && Held(TakeStamp(p)) == Held(p)
  {
  }

  lemma TakeSizeKeeps(p: Parser)
    requires Valid(p)
    ensures Valid(TakeSize(p)) && Held(TakeSize(p)) == Held(p)
  {
    if TakeSize(p) != p {
      var size := p.buffer[..MAPLENGTH];
      LittleEndianBytesRoundTrip(size);
      assert p.buffer == size + p.buffer[MAPLENGTH..];
    }
  }

  lemma TakeDataKeeps(p: Parser)
    requires Valid(p)
    ensures var (q, frames) := TakeData(p);
      && Valid(q)
      && |frames| <= 1 && AllEncodable(frames)
      && EncodeAll(frames) + Held(q) == Held(p)
  {
    var (q, frames) := TakeData(p);
    if frames != [] {
      assert EncodeAll(frames) == Encode(frames[0]);
    }
  }

  /** One sample: no byte is lost, doubled or moved. */
  lemma FeedConserves(p: Parser, sample: seq<byte>)
    requires Valid(p)
    ensures var (q, frames) := Feed(p, sample);
      && Valid(q)
      && |frames| <= 1 && AllEncodable(frames)
      && EncodeAll(frames) + Held(q) == Held(p) + sample
  {
    var p0 := p.(buffer := p.buffer + sample);
    assert Held(p0) == Held(p) + sample;
    TakeStampKeeps(p0);
    TakeSizeKeeps(TakeStamp(p0));
    TakeDataKeeps(TakeSize(TakeStamp(p0)));
  }

  /** Every run: the frames pushed, then what is held, are exactly the bytes received. */
  lemma {:induction false} RunConserves(samples: seq<seq<byte>>)
    ensures var (p, frames) := FeedAll(samples);
      && Valid(p)
      && AllEncodable(frames)
      && EncodeAll(frames) + Held(p) == Concat(samples)
  {
    hide Feed;
    hide Held;
    hide Valid;
    StartHoldsNothing();
    if samples != [] {
      var prefix, last := samples[..|samples| - 1], samples[|samples| - 1];
      RunConserves(prefix);
      var (p, frames) := FeedAll(prefix);
      FeedConserves(p, last);
      var (q, more) := Feed(p, last);
      EncodeAllSplit(frames, more);
      ConcatLast(samples);
      Associate(EncodeAll(frames), EncodeAll(more), Held(q));
      Associate(EncodeAll(frames), Held(p), last);
    }
  }

  lemma StartHoldsNothing()
    ensures Valid(START) && Held(START) == []
  {
  }

  lemma ConcatLast(samples: seq<seq<byte>>)
    requires samples != []
    ensures Concat(samples) == Concat(samples[..|samples| - 1]) + samples[|samples| - 1]
  {
    var prefix, last := samples[..|samples| - 1], samples[|samples| - 1];
    assert samples == prefix + [last];
    ConcatSplit(prefix, [last]);
    assert Concat([last]) == last;
  }

  lemma Associate(a: seq<byte>, b: seq<byte>, c: seq<byte>)
    ensures (a + b) + c == a + (b + c)
  {
  }

  // ---------------------------------------------------------------- the frames come out as they went in

  lemma {:induction false} EncodePrefix(f: Frame, g: Frame, x: seq<byte>, y: seq<byte>)
    requires Encodable(f) && Encodable(g) && Encode(f) + x == Encode(g) + y
    ensures f == g && x == y
  {
    var a, b := Encode(f) + x, Encode(g) + y;
    assert f.pts == a[..8] == b[..8] == g.pts;
    assert LittleEndianBytes(|f.data|, 4) == a[8..12] == b[8..12] == LittleEndianBytes(|g.data|, 4);
    LittleEndianRoundTrip(|f.data|, 4);
    LittleEndianRoundTrip(|g.data|, 4);
    assert f.data == a[12..12 + |f.data|] == b[12..12 + |g.data|] == g.data;
    assert x == a[12 + |f.data|..] == b[12 + |g.data|..] == y;
  }

  /** The encoding can be read in one way only. */
  lemma {:induction false} DecodingIsUnique(pushed: seq<Frame>, frames: seq<Frame>, rest: seq<byte>)
    requires AllEncodable(pushed) && AllEncodable(frames)
    requires EncodeAll(pushed) + rest == EncodeAll(frames)
    ensures pushed <= frames && rest == EncodeAll(frames[|pushed|..])
  {
    if pushed == [] {
      assert frames[0..] == frames && EncodeAll(pushed) + rest == rest;
    } else {
      assert |Encode(pushed[0])| >= 12;
      assert frames != [];
      var x, y := EncodeAll(pushed[1..]) + rest, EncodeAll(frames[1..]);
      assert Encode(pushed[0]) + x == EncodeAll(pushed) + rest;
      EncodePrefix(pushed[0], frames[0], x, y);
      DecodingIsUnique(pushed[1..], frames[1..], rest);
      assert pushed == [pushed[0]] + pushed[1..] && frames == [frames[0]] + frames[1..];
      assert frames[1..][|pushed| - 1..] == frames[|pushed|..];
    }
  }

  /** However the bytes of a list of frames are cut into samples, a prefix of that list comes out. */
  lemma EveryChunkingPushesAPrefix(frames: seq<Frame>, samples: seq<seq<byte>>, missing: seq<byte>)
    requires AllEncodable(frames)
    requires Concat(samples) + missing == EncodeAll(frames)
    ensures FeedAll(samples).1 <= frames
    ensures Held(FeedAll(samples).0) + missing == EncodeAll(frames[|FeedAll(samples).1|..])
  {
    hide FeedAll;
    hide Held;
    hide Encode;
    var (p, pushed) := FeedAll(samples);
    RunConserves(samples);
    assert EncodeAll(pushed) + (Held(p) + missing) == (EncodeAll(pushed) + Held(p)) + missing;
    DecodingIsUnique(pushed, frames, Held(p) + missing);
  }

  // ---------------------------------------------------------------- how far the parser lags behind

  /** How many complete frames the bytes start with. */
  function Whole(s: seq<byte>): (n: nat)
    decreases |s|
  {
    if |s| < 12 then 0
    else
      var size := LittleEndian(s[8..12]);
      if |s| < 12 + size then 0 else 1 + Whole(s[12 + size..])
  }

  lemma {:induction false} WholeSplit(frames: seq<Frame>, rest: seq<byte>)
    requires AllEncodable(frames)
    ensures Whole(EncodeAll(frames) + rest) == |frames| + Whole(rest)
  {
    hide LittleEndian;
    hide LittleEndianBytes;
    hide Whole;
    if frames == [] {
      assert EncodeAll(frames) + rest == rest;
    } else {
      var tail := EncodeAll(frames[1..]) + rest;
      assert EncodeAll(frames) + rest == Encode(frames[0]) + tail;
      WholeOne(frames[0], tail);
      WholeSplit(frames[1..], rest);
    }
  }

  lemma WholeOne(f: Frame, tail: seq<byte>)
    requires Encodable(f)
    ensures Whole(Encode(f) + tail) == 1 + Whole(tail)
  {
    hide LittleEndian;
    hide LittleEndianBytes;
    var s := Encode(f) + tail;
    assert s[8..12] == LittleEndianBytes(|f.data|, 4);
    LittleEndianRoundTrip(|f.data|, 4);
    assert s[12 + |f.data|..] == tail;
  }

  /** A sample pushes a frame exactly when it leaves a complete one waiting. */
  lemma FeedPushesIff(p: Parser, sample: seq<byte>)
    requires Valid(p)
    ensures |Feed(p, sample).1| == if Whole(Held(p) + sample) > 0 then 1 else 0
  {
    var p0 := p.(buffer := p.buffer + sample);
    var p1 := TakeStamp(p0);
    var p2 := TakeSize(p1);
    assert Held(p0) == Held(p) + sample;
    TakeStampKeeps(p0);
    TakeSizeKeeps(p1);
    var s := Held(p2);
    if p2.phase.Data? {
      LittleEndianRoundTrip(p2.phase.size, 4);
      assert s[8..12] == LittleEndianBytes(p2.phase.size, 4);
    }
  }

  /**
   * The number of frames pushed after a run: one more than before the last sample, but never more than
   * have arrived complete. So a sample that completes several frames leaves some of them waiting.
   */
  lemma PushedCount(samples: seq<seq<byte>>)
    requires samples != []
    ensures var before := |FeedAll(samples[..|samples| - 1]).1|;
      var arrived := Whole(Concat(samples));
      && |FeedAll(samples).1| == (if before < arrived then before + 1 else arrived)
      && before <= arrived
  {
    hide Feed;
    hide Held;
    hide Valid;
    hide Whole;
    var prefix, last := samples[..|samples| - 1], samples[|samples| - 1];
    var (p, frames) := FeedAll(prefix);
    RunConserves(prefix);
    FeedPushesIff(p, last);
    ConcatLast(samples);
    Associate(EncodeAll(frames), Held(p), last);
    WholeSplit(frames, Held(p) + last);
  }

  /** No frame waits after any prefix of the run exactly when no sample completes more than one frame. */
  lemma {:induction false} NoLagIff(samples: seq<seq<byte>>)
    ensures (forall k | 0 <= k <= |samples| :: |FeedAll(samples[..k]).1| == Whole(Concat(samples[..k])))
      <==> (forall k | 0 < k <= |samples| :: Whole(Concat(samples[..k])) <= Whole(Concat(samples[..k - 1])) + 1)
  {
    if forall k | 0 < k <= |samples| :: Whole(Concat(samples[..k])) <= Whole(Concat(samples[..k - 1])) + 1 {
      forall k | 0 <= k <= |samples| ensures |FeedAll(samples[..k]).1| == Whole(Concat(samples[..k])) {
        KeepsUp(samples, k);
      }
    } else {
      var k :| 0 < k <= |samples| && Whole(Concat(samples[..k])) > Whole(Concat(samples[..k - 1])) + 1;
      assert samples[..k][..k - 1] == samples[..k - 1];
      PushedCount(samples[..k]);
      assert |FeedAll(samples[..k]).1| != Whole(Concat(samples[..k]))
        || |FeedAll(samples[..k - 1]).1| != Whole(Concat(samples[..k - 1]));
    }
  }

  lemma {:induction false} KeepsUp(samples: seq<seq<byte>>, k: nat)
    requires k <= |samples|
    requires forall k | 0 < k <= |samples| :: Whole(Concat(samples[..k])) <= Whole(Concat(samples[..k - 1])) + 1
    ensures |FeedAll(samples[..k]).1| == Whole(Concat(samples[..k]))
  {
    if k > 0 {
      KeepsUp(samples, k - 1);
      assert samples[..k][..k - 1] == samples[..k - 1];
      PushedCount(samples[..k]);
    }
  }
}
