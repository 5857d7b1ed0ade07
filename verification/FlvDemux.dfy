/**
 * The streaming FLV demultiplexer: one call looks at whatever bytes have not been consumed yet, skips
 * the file header once, and turns complete tags into calls on the stream. What it cannot use yet is
 * left to be presented again with more bytes behind it.
 */
module FlvDemux {
  import opened BitOps
  import opened Bytes

  const FLV_HEADER: nat := 13
  const TAG_HEADER: nat := 11
  const TAG_TRAILER: nat := 4

  /** The SPS and PPS of an AVC header; PastTag when the lengths in it lead outside the tag. */
  datatype Avc = Avc(sps: seq<byte>, pps: seq<byte>) | PastTag

  /** The calls on the connection and its stream. */
  datatype Call =
    | CloseConnection
    | SetupAac(config: seq<byte>)
    | SetupG711
    | SetupH264(avc: Avc)
    | Feed(timestamp: nat, data: seq<byte>, isAudio: bool)

  /** The user data of connection and stream, and every call made so far. */
  datatype Demux = Demux(flvHeaderParsed: bool, videoSetup: bool, audioSetup: bool, calls: seq<Call>)

  const START := Demux(false, false, false, [])

  /** Whether feedInStream accepted the last call of the list. */
  type Stream = seq<Call> -> bool

  // ---------------------------------------------------------------- one tag

  function BodySize(data: seq<byte>): nat
    requires |data| >= TAG_HEADER
  {
    BigEndian(data[1..4])
  }

  function TagLength(data: seq<byte>): nat
    requires |data| >= TAG_HEADER
  {
    TAG_HEADER + BodySize(data) + TAG_TRAILER
  }

  predicate HasTag(data: seq<byte>) {
    |data| >= TAG_HEADER && |data| >= TagLength(data)
  }

  /** The complete tag the bytes start with. */
  function FirstTag(data: seq<byte>): (tag: seq<byte>)
    requires HasTag(data)
    ensures HasTag(tag) && |tag| == TagLength(tag) == TagLength(data)
  {
    assert data[..TagLength(data)][1..4] == data[1..4];
    data[..TagLength(data)]
  }

  function OrByte(x: byte, y: byte): byte {
    assert Pow2(8) == 256;
    OrBelow(x, y, 8);
    Or(x, y)
  }

  /** Bytes 4 to 7 of the tag: 24 bits of time stamp, with the extension byte or-ed into the lowest of them. */
  function Timestamp(tag: seq<byte>): nat
    requires |tag| >= TAG_HEADER
  {
    65536 * tag[4] + 256 * tag[5] + OrByte(tag[6], tag[7])
  }

  /** The SPS and PPS in the body of a video tag: 11 bytes in, each behind its length. */
  function ReadAvc(body: seq<byte>): Avc {
    if |body| < 13 then PastTag
    else
      var spsEnd := 13 + BigEndian(body[11..13]);
      if |body| < spsEnd + 3 then PastTag
      else
        var ppsEnd := spsEnd + 3 + BigEndian(body[spsEnd + 1..spsEnd + 3]);
        if |body| < ppsEnd then PastTag else Avc(body[13..spsEnd], body[spsEnd + 3..ppsEnd])
  }

  function Body(tag: seq<byte>): seq<byte>
    requires HasTag(tag)
  {
    tag[TAG_HEADER..TAG_HEADER + BodySize(tag)]
  }

  /** The state after one complete tag, and whether to go on. */
  function OneTag(accepts: Stream, st: Demux, tag: seq<byte>): (Demux, bool)
    requires HasTag(tag)
  {
    var kind, size := tag[0], BodySize(tag);
    if (kind != 8 && kind != 9) || size == 0 then (st, true)
    else if kind == 8 then
      if !st.audioSetup then
        var format := tag[11] / 16;
        if format == 10 then
          if tag[12] == 0 then (st.(audioSetup := true, calls := st.calls + [SetupAac(tag[13..15])]), true)
          else (st, true)
        else if format == 7 || format == 8 then (st.(audioSetup := true, calls := st.calls + [SetupG711]), true)
        else (st, false)
      else if st.videoSetup then FeedTag(accepts, st, tag, true)
      else (st, true)
    else
      if !st.videoSetup then
        if tag[12] == 0 then (st.(videoSetup := true, calls := st.calls + [SetupH264(ReadAvc(Body(tag)))]), true)
        else (st, true)
      else if st.audioSetup then FeedTag(accepts, st, tag, false)
      else (st, true)
  }

  function FeedTag(accepts: Stream, st: Demux, tag: seq<byte>, isAudio: bool): (Demux, bool)
    requires HasTag(tag)
  {
    var calls := st.calls + [Feed(Timestamp(tag), Body(tag), isAudio)];
    (st.(calls := calls), accepts(calls))
  }

  // ---------------------------------------------------------------- one call

  /** dropped: the early exit, which declares everything consumed. */
  datatype Outcome = Outcome(st: Demux, consumed: nat, dropped: bool)

  function Tags(accepts: Stream, st: Demux, data: seq<byte>): (r: Outcome)
    ensures r.consumed <= |data|
    ensures r.dropped ==> r.consumed == |data|
    ensures !r.dropped ==> !HasTag(data[r.consumed..])
    decreases |data|
  {
    if !HasTag(data) then
      assert data[0..] == data;
      Outcome(st, 0, false)
    else
      var n := TagLength(data);
      var (next, goOn) := OneTag(accepts, st, FirstTag(data));
      if !goOn then Outcome(next, |data|, true)
      else
        var r := Tags(accepts, next, data[n..]);
        assert data[n..][r.consumed..] == data[n + r.consumed..];
        Outcome(r.st, n + r.consumed, r.dropped)
  }

  function OnData(accepts: Stream, st: Demux, data: seq<byte>): (r: Outcome)
    ensures r.consumed <= |data|
    ensures r.dropped ==> r.consumed == |data|
  {
    if st.flvHeaderParsed then Tags(accepts, st, data)
    else if |data| < FLV_HEADER then Outcome(st, 0, false)
    else
      var r := Tags(accepts, st.(flvHeaderParsed := true), data[FLV_HEADER..]);
      Outcome(r.st, FLV_HEADER + r.consumed, r.dropped)
  }

  // ---------------------------------------------------------------- the method

  class Connection {
    var flvHeaderParsed: bool
    var videoCodecIsSetup: bool
    var audioCodecIsSetup: bool
    var calls: seq<Call>
    const accepts: Stream

    constructor (accepts: Stream)
      ensures State() == START && this.accepts == accepts
    {
      flvHeaderParsed, videoCodecIsSetup, audioCodecIsSetup := false, false, false;
      calls := [];
      this.accepts := accepts;
    }

    ghost function State(): Demux
      reads this
    {
      Demux(flvHeaderParsed, videoCodecIsSetup, audioCodecIsSetup, calls)
    }

    /** onDataAvailable; hasStream is false on a connection without an in-stream. */
    method OnDataAvailable(hasStream: bool, data: seq<byte>) returns (result: nat)
      modifies this
      ensures result <= |data|
      ensures !hasStream ==>
        result == |data| && State() == old(State()).(calls := old(calls) + [CloseConnection])
      ensures hasStream ==>
        var r := OnData(accepts, old(State()), data); State() == r.st && result == r.consumed
    {
      hide OneTag;
      hide BodySize;
      if !hasStream {
        calls := calls + [CloseConnection];
        return |data|;
      }
      var consumed := 0;
      if !flvHeaderParsed {
        if |data| < FLV_HEADER { return consumed; }
        consumed := FLV_HEADER;
        flvHeaderParsed := true;
      }
      ghost var start, st := consumed, State();
      assert data[0..] == data;
      while true
        invariant start <= consumed <= |data|
        invariant Tags(accepts, st, data[start..]) ==
          var r := Tags(accepts, State(), data[consumed..]); Outcome(r.st, consumed - start + r.consumed, r.dropped)
        decreases |data| - consumed
      {
        var rest := data[consumed..];
        if |rest| < TAG_HEADER { return consumed; }
        var tagLength := TagLength(rest);
        if |rest| < tagLength { return consumed; }
        var goOn := Dispatch(FirstTag(rest));
        if !goOn { return |data|; }
        assert rest[tagLength..] == data[consumed + tagLength..];
        consumed := consumed + tagLength;
      }
    }

    /** The body of the loop, for one complete tag. */
    method Dispatch(tag: seq<byte>) returns (goOn: bool)
      requires HasTag(tag)
      modifies this
      ensures (State(), goOn) == OneTag(accepts, old(State()), tag)
    {
      if tag[0] != 8 && tag[0] != 9 { return true; }
      if BodySize(tag) > 0 {
        if tag[0] == 8 {
          if !audioCodecIsSetup {
            if tag[11] / 16 == 10 {
              if tag[12] == 0 {
                calls := calls + [SetupAac(tag[13..15])];
                audioCodecIsSetup := true;
              }
            } else if tag[11] / 16 == 7 || tag[11] / 16 == 8 {
              calls := calls + [SetupG711];
              audioCodecIsSetup := true;
            } else {
              return false;
            }
          } else if videoCodecIsSetup {
            goOn := FeedInStream(tag, true);
            return;
          }
        } else {
          if !videoCodecIsSetup {
            if tag[12] == 0 {
              calls := calls + [SetupH264(ReadAvc(Body(tag)))];
              videoCodecIsSetup := true;
            }
          } else if audioCodecIsSetup {
            goOn := FeedInStream(tag, false);
            return;
          }
        }
      }
      return true;
    }

    method FeedInStream(tag: seq<byte>, isAudio: bool) returns (accepted: bool)
      requires HasTag(tag)
      modifies `calls
      ensures (State(), accepted) == FeedTag(accepts, old(State()), tag, isAudio)
    {
      calls := calls + [Feed(Timestamp(tag), Body(tag), isAudio)];
      accepted := accepts(calls);
    }
  }

  // ---------------------------------------------------------------- how the bytes are cut does not matter

  lemma HasTagExtends(a: seq<byte>, b: seq<byte>)
    requires HasTag(a)
    ensures HasTag(a + b) && TagLength(a + b) == TagLength(a) && FirstTag(a + b) == FirstTag(a)
  {
    assert (a + b)[1..4] == a[1..4];
  }

  /** r, with what was consumed before it added. */
  function Shift(r: Outcome, n: nat): Outcome {
    r.(consumed := n + r.consumed)
  }

  /** A run over bytes that start with a tag is that tag and a run over the rest. */
  lemma TagsUnfold(accepts: Stream, st: Demux, data: seq<byte>)
    ensures !HasTag(data) ==> Tags(accepts, st, data) == Outcome(st, 0, false)
    ensures HasTag(data) ==>
      var (next, goOn) := OneTag(accepts, st, FirstTag(data));
      Tags(accepts, st, data) ==
        if goOn then Shift(Tags(accepts, next, data[TagLength(data)..]), TagLength(data))
        else Outcome(next, |data|, true)
  {
    hide OneTag;
    hide BodySize;
    hide FirstTag;
  }

  /** A call on a + b does what a call on a does, and then, unless that exits early, what is left over and b add. */
  lemma {:induction false} TagsResume(accepts: Stream, st: Demux, a: seq<byte>, b: seq<byte>)
    ensures var r := Tags(accepts, st, a);
      Tags(accepts, st, a + b) ==
        if r.dropped then Outcome(r.st, |a + b|, true)
        else Shift(Tags(accepts, r.st, a[r.consumed..] + b), r.consumed)
    decreases |a|
  {
    hide OneTag;
    hide BodySize;
    hide FirstTag;
    hide Tags;
    TagsUnfold(accepts, st, a);
    if !HasTag(a) {
      assert a[0..] + b == a + b;
    } else {
      HasTagExtends(a, b);
      TagsUnfold(accepts, st, a + b);
      var n := TagLength(a);
      var (next, goOn) := OneTag(accepts, st, FirstTag(a));
      if goOn {
        TagsResume(accepts, next, a[n..], b);
        var r := Tags(accepts, next, a[n..]);
        assert (a + b)[n..] == a[n..] + b;
        assert a[n..][r.consumed..] == a[n + r.consumed..];
      }
    }
  }

  lemma OnDataResume(accepts: Stream, st: Demux, a: seq<byte>, b: seq<byte>)
    ensures var r := OnData(accepts, st, a);
      OnData(accepts, st, a + b) ==
        if r.dropped then Outcome(r.st, |a + b|, true)
        else Shift(OnData(accepts, r.st, a[r.consumed..] + b), r.consumed)
  {
    if st.flvHeaderParsed {
      TagsResume(accepts, st, a, b);
      TagsKeepHeader(accepts, st, a);
    } else if |a| < FLV_HEADER {
      assert a[0..] + b == a + b;
    } else {
      var st1, a1 := st.(flvHeaderParsed := true), a[FLV_HEADER..];
      TagsResume(accepts, st1, a1, b);
      TagsKeepHeader(accepts, st1, a1);
      var r := Tags(accepts, st1, a1);
      assert (a + b)[FLV_HEADER..] == a1 + b;
      assert a1[r.consumed..] == a[FLV_HEADER + r.consumed..];
    }
  }

  lemma OneTagKeepsHeader(accepts: Stream, st: Demux, tag: seq<byte>)
    requires HasTag(tag)
    ensures OneTag(accepts, st, tag).0.flvHeaderParsed == st.flvHeaderParsed
  {
    hide BodySize;
    hide Timestamp;
    hide ReadAvc;
    hide Body;
  }

  lemma {:induction false} TagsKeepHeader(accepts: Stream, st: Demux, data: seq<byte>)
    ensures Tags(accepts, st, data).st.flvHeaderParsed == st.flvHeaderParsed
    decreases |data|
  {
    hide OneTag;
    hide BodySize;
    hide FirstTag;
    hide Tags;
    TagsUnfold(accepts, st, data);
    if HasTag(data) {
      OneTagKeepsHeader(accepts, st, FirstTag(data));
      TagsKeepHeader(accepts, OneTag(accepts, st, FirstTag(data)).0, data[TagLength(data)..]);
    }
  }

  /** The host: bytes not consumed are presented again with the next chunk. */
  datatype Session = Session(st: Demux, pending: seq<byte>, dropped: bool)

  function Present(accepts: Stream, s: Session, chunk: seq<byte>): Session {
    var data := s.pending + chunk;
    var r := OnData(accepts, s.st, data);
    Session(r.st, data[r.consumed..], s.dropped || r.dropped)
  }

  function PresentAll(accepts: Stream, st: Demux, chunks: seq<seq<byte>>): Session {
    if chunks == [] then Session(st, [], false)
    else Present(accepts, PresentAll(accepts, st, chunks[..|chunks| - 1]), chunks[|chunks| - 1])
  }

  /**
   * However a stream is cut into chunks, the run exits early if and only if one call on the whole stream
   * does; and if it does not, the calls made, the flags and the bytes left over are those of that one call.
   */
  lemma {:induction false} ChunkingDoesNotMatter(accepts: Stream, st: Demux, chunks: seq<seq<byte>>)
    ensures var s := PresentAll(accepts, st, chunks);
      var whole := OnData(accepts, st, Concat(chunks));
      && s.dropped == whole.dropped
      && (!s.dropped ==> s.st == whole.st && s.pending == Concat(chunks)[whole.consumed..])
  {
    hide OnData;
    NothingToDo(accepts, st);
    if chunks != [] {
      var prefix, last := chunks[..|chunks| - 1], chunks[|chunks| - 1];
      ChunkingDoesNotMatter(accepts, st, prefix);
      assert chunks == prefix + [last];
      ConcatSplit(prefix, [last]);
      assert Concat([last]) == last;
      var a := Concat(prefix);
      OnDataResume(accepts, st, a, last);
      var r := OnData(accepts, st, a);
      if !r.dropped {
        var data := a[r.consumed..] + last;
        var r2 := OnData(accepts, r.st, data);
        assert (a + last)[r.consumed + r2.consumed..] == data[r2.consumed..];
      }
    }
  }

  lemma NothingToDo(accepts: Stream, st: Demux)
    ensures OnData(accepts, st, []) == Outcome(st, 0, false)
  {
  }

  /** Up to and including an early exit, too, the calls are those of one call on the whole stream. */
  lemma CallsUpToTheExit(accepts: Stream, st: Demux, chunks: seq<seq<byte>>, k: nat)
    requires 0 < k <= |chunks|
    requires !PresentAll(accepts, st, chunks[..k - 1]).dropped && PresentAll(accepts, st, chunks[..k]).dropped
    ensures PresentAll(accepts, st, chunks[..k]).st == OnData(accepts, st, Concat(chunks)).st
  {
    hide OnData;
    var before, last, rest := chunks[..k - 1], chunks[k - 1], chunks[k..];
    ChunkingDoesNotMatter(accepts, st, before);
    assert chunks[..k] == before + [last] && chunks[..k][..k - 1] == before;
    ConcatSplit(before, [last]);
    assert Concat([last]) == last;
    OnDataResume(accepts, st, Concat(before), last);
    assert chunks == chunks[..k] + rest;
    ConcatSplit(chunks[..k], rest);
    OnDataResume(accepts, st, Concat(chunks[..k]), Concat(rest));
  }

  // ---------------------------------------------------------------- the time stamp

  /** The file format puts the extension byte above the other three. */
  function SpecTimestamp(tag: seq<byte>): nat
    requires |tag| >= TAG_HEADER
  {
    0x100_0000 * tag[7] + BigEndian(tag[4..7])
  }

  /** The time stamp handed on is that of the format exactly when the extension byte is zero. */
  lemma TimestampIff(tag: seq<byte>)
    requires |tag| >= TAG_HEADER
    ensures Timestamp(tag) == SpecTimestamp(tag) <==> tag[7] == 0
  {
    var t := tag[4..7];
    assert t[..2] == [tag[4], tag[5]] && t[..2][..1] == [tag[4]];
    assert BigEndian(t) == 256 * BigEndian(t[..2]) + tag[6];
    assert BigEndian(t[..2]) == 256 * BigEndian([tag[4]]) + tag[5];
    assert BigEndian([tag[4]]) == tag[4];
    OrZero(tag[6]);
  }

  /** In general the bits of the extension byte show up in the lowest byte of the stamp. */
  lemma TimestampBits(tag: seq<byte>, k: nat)
    requires |tag| >= TAG_HEADER
    ensures Timestamp(tag) == 65536 * tag[4] + 256 * tag[5] + Timestamp(tag) % 256
    ensures Bit(Timestamp(tag) % 256, k) <==> Bit(tag[6], k) || Bit(tag[7], k)
  {
    hide OrByte;
    assert Timestamp(tag) % 256 == OrByte(tag[6], tag[7]);
    OrByteBit(tag[6], tag[7], k);
  }

  lemma OrByteBit(x: byte, y: byte, k: nat)
    ensures Bit(OrByte(x, y), k) <==> Bit(x, k) || Bit(y, k)
  {
    OrBit(x, y, k);
  }

  // ---------------------------------------------------------------- the tags as the format describes them

  datatype Tag = Tag(
    kind: byte, timestamp: nat, extension: byte, streamId: seq<byte>, body: seq<byte>, previousSize: seq<byte>)

  predicate WellFormed(t: Tag) {
    t.timestamp < Power256(3) && |t.streamId| == 3 && |t.body| < Power256(3) && |t.previousSize| == 4
  }

  function EncodeTag(t: Tag): seq<byte> {
    [t.kind] + BigEndianBytes(|t.body|, 3) + BigEndianBytes(t.timestamp, 3) + [t.extension] + t.streamId
      + t.body + t.previousSize
  }

  function EncodeTags(ts: seq<Tag>): seq<byte> {
    if ts == [] then [] else EncodeTag(ts[0]) + EncodeTags(ts[1..])
  }

  /** What a tag means: the second and later bytes of a very short body are those of the size behind it. */
  function Meaning(accepts: Stream, st: Demux, t: Tag): (Demux, bool)
    requires WellFormed(t)
  {
    if t.body == [] then (st, true)
    else
      var bytes := t.body + t.previousSize;
      var time := t.timestamp / 256 * 256 + OrByte(t.timestamp % 256, t.extension);
      var fed := st.calls + [Feed(time, t.body, t.kind == 8)];
      match (t.kind, st.audioSetup, st.videoSetup)
      case (8, false, _) =>
        var format := t.body[0] / 16;
        if format == 10 && bytes[1] == 0 then
          (st.(audioSetup := true, calls := st.calls + [SetupAac(bytes[2..4])]), true)
        else if format == 7 || format == 8 then
          (st.(audioSetup := true, calls := st.calls + [SetupG711]), true)
        else (st, format == 10)
      case (9, _, false) =>
        if bytes[1] == 0 then (st.(videoSetup := true, calls := st.calls + [SetupH264(ReadAvc(t.body))]), true)
        else (st, true)
      case (8, true, true) => (st.(calls := fed), accepts(fed))
      case (9, true, true) => (st.(calls := fed), accepts(fed))
      case _ => (st, true)
  }

  /** The tags in order, up to the first that makes the call exit early. */
  function MeaningAll(accepts: Stream, st: Demux, ts: seq<Tag>): (Demux, bool)
    requires forall k | 0 <= k < |ts| :: WellFormed(ts[k])
    decreases |ts|
  {
    if ts == [] then (st, true)
    else
      var (next, goOn) := Meaning(accepts, st, ts[0]);
      if goOn then MeaningAll(accepts, next, ts[1..]) else (next, false)
  }

  lemma TagLayout(t: Tag)
    requires WellFormed(t)
    ensures var tag := EncodeTag(t);
      && |tag| == 11 + |t.body| + 4
      && tag[0] == t.kind && BodySize(tag) == |t.body| && HasTag(tag) && TagLength(tag) == |tag|
      && tag[TAG_HEADER..] == t.body + t.previousSize && Body(tag) == t.body
      && Timestamp(tag) == t.timestamp / 256 * 256 + OrByte(t.timestamp % 256, t.extension)
  {
    hide OrByte;
    hide BigEndian;
    hide BigEndianBytes;
    var tag := EncodeTag(t);
    assert tag[1..4] == BigEndianBytes(|t.body|, 3);
    BigEndianRoundTrip(|t.body|, 3);
    ThreeBytes(t.timestamp);
    assert tag[4..7] == BigEndianBytes(t.timestamp, 3);
    assert tag[4] == tag[4..7][0] && tag[5] == tag[4..7][1] && tag[6] == tag[4..7][2] && tag[7] == t.extension;
  }

  lemma ThreeBytes(n: nat)
    requires n < Power256(3)
    ensures var s := BigEndianBytes(n, 3);
            var high: nat, mid: nat, low: nat := s[0], s[1], s[2];
            65536 * high + 256 * mid == n / 256 * 256 && low == n % 256
  {
    assert BigEndianBytes(n, 3) == BigEndianBytes(n / 256, 2) + [n % 256];
    assert BigEndianBytes(n / 256, 2) == BigEndianBytes(n / 256 / 256, 1) + [n / 256 % 256];
    assert BigEndianBytes(n / 256 / 256, 1) == [n / 256 / 256 % 256];
  }

  /** One tag does what it means. */
  lemma OneTagIsItsMeaning(accepts: Stream, st: Demux, t: Tag)
    requires WellFormed(t)
    ensures HasTag(EncodeTag(t)) && OneTag(accepts, st, EncodeTag(t)) == Meaning(accepts, st, t)
  {
    hide EncodeTag;
    hide Timestamp;
    hide ReadAvc;
    hide OrByte;
    TagLayout(t);
    var tag := EncodeTag(t);
    assert forall k | 0 <= k < |t.body| + 4 :: tag[TAG_HEADER + k] == tag[TAG_HEADER..][k];
    assert tag[13..15] == tag[TAG_HEADER..][2..4];
  }

  /** A run of whole tags does what the tags mean, one after the other, and stops at a tag boundary. */
  lemma {:induction false} TagsMeanWhatTheySay(accepts: Stream, st: Demux, ts: seq<Tag>, rest: seq<byte>)
    requires (forall k | 0 <= k < |ts| :: WellFormed(ts[k])) && !HasTag(rest)
    ensures var (end, goOn) := MeaningAll(accepts, st, ts);
      Tags(accepts, st, EncodeTags(ts) + rest) ==
        Outcome(end, if goOn then |EncodeTags(ts)| else |EncodeTags(ts) + rest|, !goOn)
    decreases |ts|
  {
    hide OneTag;
    hide Meaning;
    hide EncodeTag;
    if ts == [] {
      assert EncodeTags(ts) + rest == rest;
    } else {
      var tag, tail := EncodeTag(ts[0]), EncodeTags(ts[1..]) + rest;
      assert EncodeTags(ts) + rest == tag + tail;
      TagLayout(ts[0]);
      HasTagExtends(tag, tail);
      assert (tag + tail)[|tag|..] == tail && tag[..|tag|] == tag;
      OneTagIsItsMeaning(accepts, st, ts[0]);
      var (next, goOn) := Meaning(accepts, st, ts[0]);
      TagsMeanWhatTheySay(accepts, next, ts[1..], rest);
    }
  }

  /** The nine bytes a file begins with, and the size of the tag before the first, which is zero. */
  function FileHeader(flags: byte): seq<byte> {
    [0x46, 0x4C, 0x56, 0x01, flags, 0x00, 0x00, 0x00, 0x09] + [0x00, 0x00, 0x00, 0x00]
  }

  /** A file with such a header does what its tags mean, and is consumed up to the end of the last whole one. */
  lemma OneCallOnAFile(accepts: Stream, flags: byte, ts: seq<Tag>, rest: seq<byte>)
    requires (forall k | 0 <= k < |ts| :: WellFormed(ts[k])) && !HasTag(rest)
    ensures var file := FileHeader(flags) + EncodeTags(ts);
      var (end, goOn) := MeaningAll(accepts, Demux(true, false, false, []), ts);
      OnData(accepts, START, file + rest) == Outcome(end, if goOn then |file| else |file + rest|, !goOn)
  {
    hide Tags;
    hide MeaningAll;
    var data := FileHeader(flags) + EncodeTags(ts) + rest;
    TagsMeanWhatTheySay(accepts, Demux(true, false, false, []), ts, rest);
    assert data[13..] == EncodeTags(ts) + rest;
  }

  /**
   * From the file to the calls: however a file of well-formed tags is cut into chunks, its run does what the
   * tags mean, one after the other, and unless one of them ends it early leaves over what is behind the last.
   */
  lemma EveryFileIsItsTags(accepts: Stream, flags: byte, ts: seq<Tag>, rest: seq<byte>, chunks: seq<seq<byte>>)
    requires (forall k | 0 <= k < |ts| :: WellFormed(ts[k])) && !HasTag(rest)
    requires Concat(chunks) == FileHeader(flags) + EncodeTags(ts) + rest
    ensures var s := PresentAll(accepts, START, chunks);
      var (end, goOn) := MeaningAll(accepts, Demux(true, false, false, []), ts);
      && s.dropped == !goOn
      && (goOn ==> s.st == end && s.pending == rest)
  {
    hide OnData;
    hide MeaningAll;
    hide PresentAll;
    var file := FileHeader(flags) + EncodeTags(ts);
    OneCallOnAFile(accepts, flags, ts, rest);
    ChunkingDoesNotMatter(accepts, START, chunks);
    assert (file + rest)[|file|..] == rest;
  }

  /**
   * The parameter sets of an AVC header come out as they went in: eleven bytes, the SPS behind its 16-bit
   * length, the count of picture parameter sets, and the PPS behind its own.
   */
  lemma ParameterSetsRoundTrip(start: seq<byte>, sps: seq<byte>, count: byte, pps: seq<byte>, rest: seq<byte>)
    requires |start| == 11 && |sps| < Power256(2) && |pps| < Power256(2)
    ensures ReadAvc(start + BigEndianBytes(|sps|, 2) + sps + [count] + BigEndianBytes(|pps|, 2) + pps + rest) ==
            Avc(sps, pps)
  {
    hide BigEndian;
    hide BigEndianBytes;
    var body := start + BigEndianBytes(|sps|, 2) + sps + [count] + BigEndianBytes(|pps|, 2) + pps + rest;
    assert body[11..13] == BigEndianBytes(|sps|, 2);
    BigEndianRoundTrip(|sps|, 2);
    var spsEnd := 13 + |sps|;
    assert body[13..spsEnd] == sps;
    assert body[spsEnd + 1..spsEnd + 3] == BigEndianBytes(|pps|, 2);
    BigEndianRoundTrip(|pps|, 2);
    assert body[spsEnd + 3..spsEnd + 3 + |pps|] == pps;
  }

  /** And bytes that parameter sets are read from are laid out like that. */
  lemma ParameterSetsLayout(body: seq<byte>)
    requires ReadAvc(body).Avc?
    ensures var r := ReadAvc(body);
      && |r.sps| < Power256(2) && |r.pps| < Power256(2)
      && exists count: byte, rest: seq<byte> ::
           body == body[..11] + BigEndianBytes(|r.sps|, 2) + r.sps + [count] + BigEndianBytes(|r.pps|, 2) + r.pps + rest
  {
    hide BigEndian;
    hide BigEndianBytes;
    var r := ReadAvc(body);
    var spsEnd := 13 + |r.sps|;
    var ppsEnd := spsEnd + 3 + |r.pps|;
    BigEndianBytesRoundTrip(body[11..13]);
    BigEndianBytesRoundTrip(body[spsEnd + 1..spsEnd + 3]);
    FivePieces(body, spsEnd, ppsEnd);
  }

  lemma FivePieces(body: seq<byte>, i: nat, j: nat)
    requires 13 <= i && i + 3 <= j <= |body|
    ensures body ==
            body[..11] + body[11..13] + body[13..i] + [body[i]] + body[i + 1..i + 3] + body[i + 3..j] + body[j..]
  {
  }

  // ---------------------------------------------------------------- codec gating

  function AudioSetups(calls: seq<Call>): nat {
    if calls == [] then 0
    else
      var last := calls[|calls| - 1];
      AudioSetups(calls[..|calls| - 1]) + (if last.SetupAac? || last.SetupG711? then 1 else 0)
  }

  function VideoSetups(calls: seq<Call>): nat {
    if calls == [] then 0
    else VideoSetups(calls[..|calls| - 1]) + (if calls[|calls| - 1].SetupH264? then 1 else 0)
  }

  /** Each codec is set up at most once, the flags say which, and nothing is fed before both are. */
  ghost predicate Gated(st: Demux) {
    && AudioSetups(st.calls) == (if st.audioSetup then 1 else 0)
    && VideoSetups(st.calls) == (if st.videoSetup then 1 else 0)
    && forall k | 0 <= k < |st.calls| && st.calls[k].Feed? ::
         AudioSetups(st.calls[..k]) == 1 && VideoSetups(st.calls[..k]) == 1
  }

  lemma OneCallMore(st: Demux, call: Call, audioSetup: bool, videoSetup: bool)
    requires Gated(st)
    requires call.Feed? ==> st.audioSetup && st.videoSetup
    requires audioSetup == (st.audioSetup || call.SetupAac? || call.SetupG711?)
    requires videoSetup == (st.videoSetup || call.SetupH264?)
    requires (call.SetupAac? || call.SetupG711? ==> !st.audioSetup) && (call.SetupH264? ==> !st.videoSetup)
    ensures Gated(st.(audioSetup := audioSetup, videoSetup := videoSetup, calls := st.calls + [call]))
  {
    var calls := st.calls + [call];
    assert calls[..|st.calls|] == st.calls;
    forall k | 0 <= k < |calls| && calls[k].Feed?
      ensures AudioSetups(calls[..k]) == 1 && VideoSetups(calls[..k]) == 1
    {
      assert calls[..k] == st.calls[..k];
      assert k == |st.calls| ==> st.calls[..k] == st.calls;
    }
  }

  lemma OneTagIsGated(accepts: Stream, st: Demux, tag: seq<byte>)
    requires HasTag(tag) && Gated(st)
    ensures Gated(OneTag(accepts, st, tag).0)
  {
    hide Gated;
    hide Timestamp;
    hide ReadAvc;
    var (next, _) := OneTag(accepts, st, tag);
    if next.calls != st.calls {
      OneCallMore(st, next.calls[|st.calls|], next.audioSetup, next.videoSetup);
    }
  }

  lemma {:induction false} TagsAreGated(accepts: Stream, st: Demux, data: seq<byte>)
    requires Gated(st)
    ensures Gated(Tags(accepts, st, data).st)
    decreases |data|
  {
    hide Gated;
    hide OneTag;
    if HasTag(data) {
      OneTagIsGated(accepts, st, FirstTag(data));
      TagsAreGated(accepts, OneTag(accepts, st, FirstTag(data)).0, data[TagLength(data)..]);
    }
  }

  /** Every run, early exits included. */
  lemma {:induction false} EveryRunIsGated(accepts: Stream, chunks: seq<seq<byte>>)
    ensures Gated(PresentAll(accepts, START, chunks).st)
  {
    if chunks != [] {
      var prefix, last := chunks[..|chunks| - 1], chunks[|chunks| - 1];
      EveryRunIsGated(accepts, prefix);
      var s := PresentAll(accepts, START, prefix);
      var data := s.pending + last;
      if s.st.flvHeaderParsed {
        TagsAreGated(accepts, s.st, data);
      } else if |data| >= FLV_HEADER {
        TagsAreGated(accepts, s.st.(flvHeaderParsed := true), data[FLV_HEADER..]);
      }
    }
  }
}
