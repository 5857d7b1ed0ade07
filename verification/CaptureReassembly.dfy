/**
 * The payload of a TCP conversation read back from a capture file: a packet in order is handed on, one
 * from before the expected sequence number is blanked, one from beyond it ends the reading.
 */
module CaptureReassembly {
  import opened Bytes

  const SEQUENCE_SPACE: nat := 0x1_0000_0000
  const IP_HEADER: nat := 20
  const TCP_HEADER: nat := 20

  /** The four bytes of an address and the two of a port, as they stand in a header. */
  datatype Endpoint = Endpoint(address: seq<byte>, port: seq<byte>)

  /** A captured frame: link header, IP header, TCP header, payload. */
  type Packet = seq<byte>

  /** What reading the next packet comes to. */
  datatype Reading = Available(frame: Packet) | Live | ReadError | CaptureEnd | Unknown

  datatype Direction = DirectionUnknown | ClientToServer | ServerToClient

  datatype DataBlock = DataBlock(payload: seq<byte>, eof: bool, direction: Direction)

  datatype Filter = Filter(etherLength: nat, endpoint: Endpoint, isServer: bool)

  /** The sequence number expected next each way; zero before anything was seen. */
  datatype Expected = Expected(toServer: nat, toClient: nat) {
    function At(d: Direction): nat {
      if d.ClientToServer? then toServer else toClient
    }

    function Set(d: Direction, n: nat): Expected {
      if d.ClientToServer? then this.(toServer := n) else this.(toClient := n)
    }
  }

  // ---------------------------------------------------------------- one packet

  /** The header lengths are counted in words, in the low half of the first byte of IP ... */
  function IpHeader(f: Filter, p: Packet): nat
    requires |p| >= f.etherLength + IP_HEADER
  {
    p[f.etherLength] % 16 * 4
  }

  /** ... and in the high half of byte 12 of TCP. */
  function TcpHeader(f: Filter, p: Packet): nat
    requires HeadersBegin(f, p)
  {
    p[f.etherLength + IpHeader(f, p) + 12] / 16 * 4
  }

  /** The fixed part of both headers is there. */
  predicate HeadersBegin(f: Filter, p: Packet) {
    && |p| >= f.etherLength + IP_HEADER
    && |p| >= f.etherLength + IpHeader(f, p) + TCP_HEADER
  }

  predicate HeadersFit(f: Filter, p: Packet) {
    && HeadersBegin(f, p)
    && IpHeader(f, p) >= 20
    && TcpHeader(f, p) >= 20
    && |p| >= f.etherLength + IpHeader(f, p) + TcpHeader(f, p)
  }

  /** The TCP header and what is behind it. */
  function Tcp(f: Filter, p: Packet): (t: seq<byte>)
    requires HeadersBegin(f, p)
    ensures |t| >= TCP_HEADER
  {
    p[f.etherLength + IpHeader(f, p)..]
  }

  function Payload(f: Filter, p: Packet): seq<byte>
    requires HeadersFit(f, p)
  {
    p[f.etherLength + IpHeader(f, p) + TcpHeader(f, p)..]
  }

  function Number(f: Filter, p: Packet): nat
    requires HeadersBegin(f, p)
  {
    BigEndian(Tcp(f, p)[4..8])
  }

  function Flags(f: Filter, p: Packet): byte
    requires HeadersBegin(f, p)
  {
    Tcp(f, p)[13]
  }

  function Source(f: Filter, p: Packet): Endpoint
    requires HeadersBegin(f, p)
  {
    Endpoint(p[f.etherLength + 12..f.etherLength + 16], Tcp(f, p)[..2])
  }

  function Destination(f: Filter, p: Packet): Endpoint
    requires HeadersBegin(f, p)
  {
    Endpoint(p[f.etherLength + 16..f.etherLength + 20], Tcp(f, p)[2..4])
  }

  function DirectionOf(f: Filter, p: Packet): Direction
    requires HeadersBegin(f, p)
  {
    if Destination(f, p) == f.endpoint then (if f.isServer then ClientToServer else ServerToClient)
    else if Source(f, p) == f.endpoint then (if f.isServer then ServerToClient else ClientToServer)
    else DirectionUnknown
  }

  datatype Verdict = Accept(next: nat) | Repeat | Hole

  function Judge(next: nat, sequence: nat, length: nat, flags: byte): Verdict {
    if next != 0 && next != sequence then
      if sequence < next then Repeat else Hole
    else
      Accept((sequence + if length != 0 then length else if flags % 4 != 0 then 1 else 0) % SEQUENCE_SPACE)
  }

  datatype Outcome = Failed | Block(expected: Expected, block: DataBlock)

  /** What a call comes to: nothing, or a block and the sequence numbers expected from then on. */
  function Outcomes(f: Filter, e: Expected, r: Reading): Outcome {
    match r
    case CaptureEnd => Block(e, DataBlock([], true, DirectionUnknown))
    case Available(p) =>
      if !HeadersFit(f, p) || DirectionOf(f, p).DirectionUnknown? then Failed else
      var d := DirectionOf(f, p);
      (match Judge(e.At(d), Number(f, p), |Payload(f, p)|, Flags(f, p))
       case Accept(next) => Block(e.Set(d, next), DataBlock(Payload(f, p), false, d))
       case Repeat => Block(e, DataBlock([], false, d))
       case Hole => Failed)
    case _ => Failed
  }

  class PcapFileSource {
    const filter: Filter
    var clientToServerNext: nat
    var serverToClientNext: nat

    constructor (f: Filter)
      ensures filter == f && Next() == Expected(0, 0)
    {
      filter := f;
      clientToServerNext, serverToClientNext := 0, 0;
    }

    function Next(): Expected
      reads this
    {
      Expected(clientToServerNext, serverToClientNext)
    }

    /** The switch over the direction: whether to go on, and whether the payload is blanked. */
    method Follow(direction: Direction, number: nat, length: nat, flags: byte) returns (ok: bool, blank: bool)
      modifies this
      ensures direction.DirectionUnknown? ==> !ok && !blank && Next() == old(Next())
      ensures !direction.DirectionUnknown? ==>
        match Judge(old(Next()).At(direction), number, length, flags)
        case Accept(next) => ok && !blank && Next() == old(Next()).Set(direction, next)
        case Repeat => ok && blank && Next() == old(Next())
        case Hole => !ok && !blank && Next() == old(Next())
    {
      match direction {
        case ClientToServer =>
          if clientToServerNext != 0 && clientToServerNext != number {
            if number < clientToServerNext {
              return true, true;
            }
            return false, false;
          }
          if length != 0 {
            clientToServerNext := (number + length) % SEQUENCE_SPACE;
          } else {
            clientToServerNext := (number + if flags % 4 != 0 then 1 else 0) % SEQUENCE_SPACE;
          }
        case ServerToClient =>
          if serverToClientNext != 0 && serverToClientNext != number {
            if number < serverToClientNext {
              return true, true;
            }
            return false, false;
          }
          if length != 0 {
            serverToClientNext := (number + length) % SEQUENCE_SPACE;
          } else {
            serverToClientNext := (number + if flags % 4 != 0 then 1 else 0) % SEQUENCE_SPACE;
          }
        case DirectionUnknown =>
          return false, false;
      }
      return true, false;
    }

    method GetData(reading: Reading) returns (ok: bool, block: DataBlock)
      modifies this
      ensures ok <==> Outcomes(filter, old(Next()), reading).Block?
      ensures ok ==> Outcomes(filter, old(Next()), reading) == Block(Next(), block)
      ensures !ok ==> Next() == old(Next())
      ensures ok ==> reading.Available? || reading.CaptureEnd?
      ensures reading.CaptureEnd? ==> ok && block == DataBlock([], true, DirectionUnknown)
    {
      hide Judge;
      hide Number;
      hide Flags;
      hide Source;
      hide Destination;
      hide Tcp;
      hide IpHeader;
      hide TcpHeader;
      block := DataBlock([], false, DirectionUnknown);
      match reading {
        case Available(p) =>
          if |p| < filter.etherLength + IP_HEADER { return false, block; }
          if IpHeader(filter, p) < 20 { return false, block; }
          if |p| < filter.etherLength + IpHeader(filter, p) + TCP_HEADER { return false, block; }
          if TcpHeader(filter, p) < 20 { return false, block; }

          if Destination(filter, p) == filter.endpoint {
            block := block.(direction := if filter.isServer then ClientToServer else ServerToClient);
          } else if Source(filter, p) == filter.endpoint {
            block := block.(direction := if filter.isServer then ServerToClient else ClientToServer);
          }

          var headers := filter.etherLength + IpHeader(filter, p) + TcpHeader(filter, p);
          if |p| < headers { return false, block; }
          if |p| - headers > 0 {
            block := block.(payload := p[headers..]);
          }
          var blank;
          ok, blank := Follow(block.direction, Number(filter, p), |p| - headers, Flags(filter, p));
          if blank {
            block := block.(payload := []);
          }
        case CaptureEnd =>
          block := block.(eof := true);
          ok := true;
        case _ =>
          ok := false;
      }
    }
  }

  // ---------------------------------------------------------------- whole captures

  /** The bytes handed on in one direction before the reading fails or ends. */
  function Delivered(f: Filter, e: Expected, readings: seq<Reading>, d: Direction): seq<byte>
    decreases |readings|
  {
    if readings == [] then [] else
    match Outcomes(f, e, readings[0])
    case Failed => []
    case Block(next, block) =>
      (if block.direction == d then block.payload else []) +
      if block.eof then [] else Delivered(f, next, readings[1..], d)
  }

  function Final(f: Filter, e: Expected, readings: seq<Reading>): Expected
    decreases |readings|
  {
    if readings == [] then e else
    match Outcomes(f, e, readings[0])
    case Failed => e
    case Block(next, block) => if block.eof then next else Final(f, next, readings[1..])
  }

  /** Whether the reading gets to the end of what there is without failing. */
  predicate Succeeds(f: Filter, e: Expected, readings: seq<Reading>)
    decreases |readings|
  {
    readings == [] ||
    match Outcomes(f, e, readings[0])
    case Failed => false
    case Block(next, block) => block.eof || Succeeds(f, next, readings[1..])
  }

  predicate Carries(f: Filter, r: Reading, d: Direction) {
    r.Available? && HeadersFit(f, r.frame) && DirectionOf(f, r.frame) == d
  }

  /**
   * A packet of a stream whose first byte is numbered first: its payload is a slice of the stream, its
   * numbers do not wrap, and a bare SYN comes before the stream, a bare FIN after it.
   */
  predicate IsSlice(f: Filter, p: Packet, stream: seq<byte>, first: nat)
    requires HeadersFit(f, p)
  {
    var n := Number(f, p);
    var payload := Payload(f, p);
    && n + |payload| + 1 < SEQUENCE_SPACE
    && (payload != [] ==>
          && first <= n && n + |payload| <= first + |stream|
          && payload == stream[n - first..][..|payload|])
    && (payload == [] && Flags(f, p) % 4 != 0 ==> n < first || first + |stream| <= n)
  }

  predicate AllSlices(f: Filter, readings: seq<Reading>, d: Direction, stream: seq<byte>, first: nat) {
    forall r :: r in readings && Carries(f, r, d) ==> IsSlice(f, r.frame, stream, first)
  }

  /** What was handed on so far is the slice from a on, and the next byte of it is expected. */
  predicate Holds(sofar: seq<byte>, a: nat, next: nat, stream: seq<byte>, first: nat) {
    && a + |sofar| <= |stream|
    && sofar == stream[a..][..|sofar|]
    && (next == first + a + |sofar| || (next > first + |stream| && a + |sofar| == |stream|))
  }

  /** One accepted packet adds the bytes right behind the slice, if any. */
  lemma AcceptExtends(f: Filter, p: Packet, sofar: seq<byte>, a: nat, next: nat, stream: seq<byte>, first: nat)
    requires HeadersFit(f, p) && IsSlice(f, p, stream, first)
    requires sofar != [] && Holds(sofar, a, next, stream, first)
    requires Judge(next, Number(f, p), |Payload(f, p)|, Flags(f, p)).Accept?
    ensures var after := Judge(next, Number(f, p), |Payload(f, p)|, Flags(f, p)).next;
            Holds(sofar + Payload(f, p), a, after, stream, first)
  {
    var payload := Payload(f, p);
    if payload == [] {
      assert sofar + payload == sofar;
    } else {
      var more := sofar + payload;
      forall k | 0 <= k < |more| ensures more[k] == stream[a + k] {
        if k >= |sofar| { assert payload[k - |sofar|] == stream[a + k]; }
      }
      assert more == stream[a..][..|more|];
    }
  }

  /** What one reading hands on in a direction. */
  function Piece(f: Filter, e: Expected, r: Reading, d: Direction): seq<byte> {
    match Outcomes(f, e, r)
    case Failed => []
    case Block(_, block) => if block.direction == d then block.payload else []
  }

  lemma StepExtends(f: Filter, e: Expected, r: Reading, d: Direction,
                    stream: seq<byte>, first: nat, sofar: seq<byte>, a: nat)
    requires d != DirectionUnknown && Outcomes(f, e, r).Block?
    requires Carries(f, r, d) ==> IsSlice(f, r.frame, stream, first)
    requires sofar != [] && Holds(sofar, a, e.At(d), stream, first)
    ensures Holds(sofar + Piece(f, e, r, d), a, Outcomes(f, e, r).expected.At(d), stream, first)
  {
    if Carries(f, r, d) && Judge(e.At(d), Number(f, r.frame), |Payload(f, r.frame)|, Flags(f, r.frame)).Accept? {
      AcceptExtends(f, r.frame, sofar, a, e.At(d), stream, first);
    } else {
      assert sofar + [] == sofar;
    }
  }

  lemma FirstPiece(f: Filter, e: Expected, r: Reading, d: Direction, stream: seq<byte>, first: nat)
    requires d != DirectionUnknown && Piece(f, e, r, d) != []
    requires Carries(f, r, d) ==> IsSlice(f, r.frame, stream, first)
    ensures Outcomes(f, e, r).Block? && Carries(f, r, d) && Number(f, r.frame) >= first
    ensures Holds(Piece(f, e, r, d), Number(f, r.frame) - first, Outcomes(f, e, r).expected.At(d), stream, first)
  {
  }

  lemma UnfoldFinal(f: Filter, e: Expected, readings: seq<Reading>)
    requires readings != []
    ensures var out := Outcomes(f, e, readings[0]);
            Final(f, e, readings) ==
            if out.Failed? then e else if out.block.eof then out.expected else Final(f, out.expected, readings[1..])
  {
  }

  lemma Unfold(f: Filter, e: Expected, readings: seq<Reading>, d: Direction)
    requires readings != []
    ensures var out := Outcomes(f, e, readings[0]);
            Delivered(f, e, readings, d) ==
            Piece(f, e, readings[0], d) +
            if out.Failed? || out.block.eof then [] else Delivered(f, out.expected, readings[1..], d)
    ensures Outcomes(f, e, readings[0]).Failed? ==> Piece(f, e, readings[0], d) == []
  {
  }

  /** Once something was handed on, the slice only grows at its end. */
  lemma {:induction false} SliceGrows(f: Filter, e: Expected, readings: seq<Reading>, d: Direction,
                                      stream: seq<byte>, first: nat, sofar: seq<byte>, a: nat)
    requires d != DirectionUnknown && AllSlices(f, readings, d, stream, first)
    requires sofar != [] && Holds(sofar, a, e.At(d), stream, first)
    ensures Holds(sofar + Delivered(f, e, readings, d), a, Final(f, e, readings).At(d), stream, first)
    decreases |readings|
  {
    hide Outcomes;
    hide Holds;
    hide IsSlice;
    hide Piece;
    hide Delivered;
    hide Final;
    hide Expected.At;
    if readings == [] {
      NoReading(f, e, d);
      NothingMore(sofar);
    } else {
      var out, piece := Outcomes(f, e, readings[0]), Piece(f, e, readings[0], d);
      Unfold(f, e, readings, d);
      UnfoldFinal(f, e, readings);
      assert readings[0] in readings;
      if out.Failed? {
        NothingMore(sofar);
      } else {
        StepExtends(f, e, readings[0], d, stream, first, sofar, a);
        if out.block.eof {
          NothingMore(piece);
        } else {
          SliceGrows(f, out.expected, readings[1..], d, stream, first, sofar + piece, a);
          Associate(sofar, piece, Delivered(f, out.expected, readings[1..], d));
        }
      }
    }
  }

  lemma NoReading(f: Filter, e: Expected, d: Direction)
    ensures Delivered(f, e, [], d) == [] && Final(f, e, []) == e && Succeeds(f, e, [])
  {
  }

  lemma NothingMore(a: seq<byte>)
    ensures a + [] == a
  {
  }

  lemma Associate(a: seq<byte>, b: seq<byte>, c: seq<byte>)
    ensures (a + b) + c == a + (b + c)
  {
  }

  predicate IsPart(got: seq<byte>, a: nat, stream: seq<byte>) {
    a + |got| <= |stream| && got == stream[a..][..|got|]
  }

  /** got is the slice of the stream from a on, and, unless empty, end is the number expected after it. */
  predicate IsPlaced(got: seq<byte>, a: nat, end: nat, stream: seq<byte>, first: nat) {
    IsPart(got, a, stream) && (got != [] ==> Holds(got, a, end, stream, first))
  }

  /** What a run from its start hands on is a slice, and the number expected in the end is that behind it. */
  lemma {:induction false} DeliveredIsPlaced(f: Filter, e: Expected, readings: seq<Reading>, d: Direction,
                                             stream: seq<byte>, first: nat)
    requires d != DirectionUnknown && AllSlices(f, readings, d, stream, first)
    ensures exists a: nat ::
              IsPlaced(Delivered(f, e, readings, d), a, Final(f, e, readings).At(d), stream, first)
    decreases |readings|
  {
    hide Outcomes;
    hide IsSlice;
    hide Delivered;
    hide Final;
    hide Piece;
    hide Holds;
    hide Expected.At;
    var got, end := Delivered(f, e, readings, d), Final(f, e, readings).At(d);
    if readings == [] {
      NoReading(f, e, d);
      assert IsPlaced(got, 0, end, stream, first);
    } else {
      var out, piece := Outcomes(f, e, readings[0]), Piece(f, e, readings[0], d);
      Unfold(f, e, readings, d);
      UnfoldFinal(f, e, readings);
      assert readings[0] in readings;
      if piece != [] {
        FirstPiece(f, e, readings[0], d, stream, first);
        var a := Number(f, readings[0].frame) - first;
        NothingMore(piece);
        if !out.block.eof { SliceGrows(f, out.expected, readings[1..], d, stream, first, piece, a); }
        HoldsIsPart(got, a, end, stream, first);
        assert IsPlaced(got, a, end, stream, first);
      } else if out.Failed? || out.block.eof {
        assert IsPlaced(got, 0, end, stream, first);
      } else {
        DeliveredIsPlaced(f, out.expected, readings[1..], d, stream, first);
        assert got == Delivered(f, out.expected, readings[1..], d);
      }
    }
  }

  lemma HoldsIsPart(got: seq<byte>, a: nat, end: nat, stream: seq<byte>, first: nat)
    requires Holds(got, a, end, stream, first)
    ensures IsPart(got, a, stream)
  {
  }

  /** In either direction, whatever is handed on of a capture is one contiguous slice of the stream. */
  lemma ContiguousSlice(f: Filter, e: Expected, readings: seq<Reading>, d: Direction, stream: seq<byte>, first: nat)
    requires d != DirectionUnknown && AllSlices(f, readings, d, stream, first)
    ensures exists a: nat :: IsPart(Delivered(f, e, readings, d), a, stream)
  {
    DeliveredIsPlaced(f, e, readings, d, stream, first);
  }

  // ---------------------------------------------------------------- what gets through

  /** The numbers a segment takes up by section 3.4 of RFC 9293: its bytes, and one for a SYN or FIN. */
  function SegmentLength(length: nat, flags: byte): nat {
    length + flags % 2 + flags / 2 % 2
  }

  /** A packet from before the expected number leaves the run as if it had not been captured. */
  lemma RepetitionIsSkipped(f: Filter, e: Expected, p: Packet, more: seq<Reading>, d: Direction, d': Direction)
    requires d != DirectionUnknown && Carries(f, Available(p), d) && Number(f, p) < e.At(d)
    ensures var readings := [Available(p)] + more;
            && Delivered(f, e, readings, d') == Delivered(f, e, more, d')
            && Final(f, e, readings) == Final(f, e, more)
            && Succeeds(f, e, readings) == Succeeds(f, e, more)
  {
    assert ([Available(p)] + more)[1..] == more;
    assert [] + Delivered(f, e, more, d') == Delivered(f, e, more, d');
  }

  /** The number the sender goes on with. */
  function After(f: Filter, p: Packet): nat
    requires HeadersFit(f, p)
  {
    Number(f, p) + SegmentLength(|Payload(f, p)|, Flags(f, p))
  }

  /** The source counts a packet as the sender does: neither SYN nor FIN, or one of the two and no data. */
  predicate CountedAlike(f: Filter, p: Packet)
    requires HeadersFit(f, p)
  {
    Flags(f, p) % 4 == 0 || (Payload(f, p) == [] && Flags(f, p) % 4 != 3)
  }

  /**
   * Packets of a conversation, the two directions in any order between each other: each begins where the one
   * before it in its direction ended by the count of RFC 9293. n holds the numbers the two sides go on with.
   */
  predicate Conversation(f: Filter, packets: seq<Packet>, n: Expected) {
    packets == [] ||
    var p := packets[0];
    && HeadersFit(f, p)
    && var d := DirectionOf(f, p);
    && d != DirectionUnknown
    && Number(f, p) == n.At(d)
    && After(f, p) < SEQUENCE_SPACE
    && Conversation(f, packets[1..], n.Set(d, After(f, p)))
  }

  /** The payload of one direction. */
  function AllPayload(f: Filter, packets: seq<Packet>, d: Direction): seq<byte> {
    if packets == [] then [] else
    (if Carries(f, Available(packets[0]), d) then Payload(f, packets[0]) else []) + AllPayload(f, packets[1..], d)
  }

  function Readings(packets: seq<Packet>): seq<Reading> {
    if packets == [] then [] else [Available(packets[0])] + Readings(packets[1..])
  }

  predicate SameWay(f: Filter, p: Packet, q: Packet) {
    HeadersFit(f, p) && HeadersFit(f, q) && DirectionOf(f, p) == DirectionOf(f, q)
  }

  /** Every packet that another of its direction follows is counted alike. */
  ghost predicate AllFollowedCountedAlike(f: Filter, packets: seq<Packet>) {
    forall i, j :: 0 <= i < j < |packets| && SameWay(f, packets[i], packets[j]) ==> CountedAlike(f, packets[i])
  }

  ghost predicate Absent(f: Filter, packets: seq<Packet>, d: Direction) {
    forall k :: 0 <= k < |packets| ==> !Carries(f, Available(packets[k]), d)
  }

  /** The source expects what the side goes on with, or has not heard of it yet. */
  predicate InStep(e: Expected, n: Expected, d: Direction) {
    e.At(d) == 0 || e.At(d) == n.At(d)
  }

  /** The source expects less than the side has got to. */
  predicate Behind(e: Expected, n: Expected, d: Direction) {
    0 < e.At(d) < n.At(d)
  }

  lemma NextNumber(next: nat, n: nat, length: nat, flags: byte)
    requires next == 0 || next == n
    requires n + SegmentLength(length, flags) < SEQUENCE_SPACE
    ensures var verdict, alike := Judge(next, n, length, flags), flags % 4 == 0 || (length == 0 && flags % 4 != 3);
            && verdict.Accept?
            && (alike ==> verdict.next == n + SegmentLength(length, flags))
            && (!alike ==> 0 < verdict.next < n + SegmentLength(length, flags))
  {
    TwoFlags(flags);
  }

  /** A packet its direction is in step for is handed on; the direction stays in step if it is counted alike. */
  lemma NextReading(f: Filter, e: Expected, p: Packet, n: Expected)
    requires HeadersFit(f, p) && DirectionOf(f, p) != DirectionUnknown && Number(f, p) == n.At(DirectionOf(f, p))
    requires InStep(e, n, DirectionOf(f, p)) && After(f, p) < SEQUENCE_SPACE
    ensures var d, out := DirectionOf(f, p), Outcomes(f, e, Available(p));
            && out.Block? && out.block == DataBlock(Payload(f, p), false, d)
            && out.expected == e.Set(d, out.expected.At(d))
            && (CountedAlike(f, p) ==> InStep(out.expected, n.Set(d, After(f, p)), d))
            && (!CountedAlike(f, p) ==> Behind(out.expected, n.Set(d, After(f, p)), d))
  {
    hide Number;
    hide Payload;
    hide Flags;
    hide DirectionOf;
    hide HeadersBegin;
    hide Judge;
    hide SegmentLength;
    var d := DirectionOf(f, p);
    NextNumber(e.At(d), Number(f, p), |Payload(f, p)|, Flags(f, p));
  }

  lemma BeyondIsHole(f: Filter, e: Expected, p: Packet, d: Direction)
    requires d != DirectionUnknown && Carries(f, Available(p), d) && 0 < e.At(d) < Number(f, p)
    ensures Outcomes(f, e, Available(p)).Failed?
  {
  }

  lemma OtherWay(e: Expected, n: Expected, x: nat, y: nat, d: Direction, d': Direction)
    requires d != DirectionUnknown && d' != DirectionUnknown && d != d'
    ensures InStep(e.Set(d, x), n.Set(d, y), d') <==> InStep(e, n, d')
    ensures Behind(e.Set(d, x), n.Set(d, y), d') <==> Behind(e, n, d')
  {
  }

  lemma AbsentUnfolds(f: Filter, packets: seq<Packet>, d: Direction)
    requires packets != []
    ensures Absent(f, packets, d) <==> !Carries(f, Available(packets[0]), d) && Absent(f, packets[1..], d)
  {
    assert forall k :: 1 <= k < |packets| ==> packets[k] == packets[1..][k - 1];
  }

  lemma FollowedUnfolds(f: Filter, packets: seq<Packet>)
    requires packets != [] && HeadersFit(f, packets[0])
    ensures AllFollowedCountedAlike(f, packets) <==>
            AllFollowedCountedAlike(f, packets[1..]) &&
            (CountedAlike(f, packets[0]) || Absent(f, packets[1..], DirectionOf(f, packets[0])))
  {
    hide CountedAlike;
    hide HeadersBegin;
    hide DirectionOf;
    var more := packets[1..];
    assert forall k :: 0 <= k < |more| ==> more[k] == packets[k + 1];
    assert forall k :: 1 <= k < |packets| ==> packets[k] == more[k - 1];
    assert forall k :: 0 <= k < |more| ==>
             (SameWay(f, packets[0], packets[k + 1]) <==> Carries(f, Available(more[k]), DirectionOf(f, packets[0])));
  }

  lemma PayloadUnfolds(f: Filter, e: Expected, packets: seq<Packet>, d: Direction)
    requires packets != [] && HeadersFit(f, packets[0])
    ensures var out, more := Outcomes(f, e, Available(packets[0])), packets[1..];
            out.Block? && out.block == DataBlock(Payload(f, packets[0]), false, DirectionOf(f, packets[0])) ==>
            && Succeeds(f, e, Readings(packets)) == Succeeds(f, out.expected, Readings(more))
            && (Delivered(f, out.expected, Readings(more), d) == AllPayload(f, more, d) ==>
                Delivered(f, e, Readings(packets), d) == AllPayload(f, packets, d))
  {
    hide Outcomes;
    hide HeadersFit;
    hide DirectionOf;
    hide Payload;
    assert Readings(packets)[1..] == Readings(packets[1..]);
  }

  /** From any point of a conversation on, each direction being in step or behind. */
  lemma {:induction false} RestReadWholeIff(f: Filter, e: Expected, packets: seq<Packet>, n: Expected)
    requires Conversation(f, packets, n)
    requires InStep(e, n, ClientToServer) || Behind(e, n, ClientToServer)
    requires InStep(e, n, ServerToClient) || Behind(e, n, ServerToClient)
    ensures Succeeds(f, e, Readings(packets)) <==>
            && AllFollowedCountedAlike(f, packets)
            && (Behind(e, n, ClientToServer) ==> Absent(f, packets, ClientToServer))
            && (Behind(e, n, ServerToClient) ==> Absent(f, packets, ServerToClient))
    ensures Succeeds(f, e, Readings(packets)) ==>
            && Delivered(f, e, Readings(packets), ClientToServer) == AllPayload(f, packets, ClientToServer)
            && Delivered(f, e, Readings(packets), ServerToClient) == AllPayload(f, packets, ServerToClient)
    decreases |packets|
  {
    hide Outcomes;
    hide After;
    hide CountedAlike;
    hide HeadersBegin;
    hide DirectionOf;
    hide Number;
    hide Payload;
    hide Delivered;
    hide Succeeds;
    hide AllPayload;
    hide InStep;
    hide Behind;
    hide Absent;
    hide AllFollowedCountedAlike;
    if packets == [] {
      NothingRead(f, e);
    } else {
      var p, more := packets[0], packets[1..];
      var d := DirectionOf(f, p);
      var d' := if d.ClientToServer? then ServerToClient else ClientToServer;
      AbsentUnfolds(f, packets, d);
      AbsentUnfolds(f, packets, d');
      FollowedUnfolds(f, packets);
      if Behind(e, n, d) {
        BehindFails(f, e, packets, n);
      } else {
        NextReading(f, e, p, n);
        var out := Outcomes(f, e, Available(p));
        OtherWay(e, n, out.expected.At(d), After(f, p), d, d');
        InStepOrBehind(e, n, d);
        InStepOrBehind(out.expected, n.Set(d, After(f, p)), d);
        RestReadWholeIff(f, out.expected, more, n.Set(d, After(f, p)));
        PayloadUnfolds(f, e, packets, ClientToServer);
        PayloadUnfolds(f, e, packets, ServerToClient);
      }
    }
  }

  lemma InStepOrBehind(e: Expected, n: Expected, d: Direction)
    ensures !(InStep(e, n, d) && Behind(e, n, d))
  {
  }

  lemma NothingRead(f: Filter, e: Expected)
    ensures Readings([]) == [] && Succeeds(f, e, []) && AllFollowedCountedAlike(f, [])
    ensures forall d :: Absent(f, [], d) && Delivered(f, e, [], d) == AllPayload(f, [], d)
  {
  }

  lemma BehindFails(f: Filter, e: Expected, packets: seq<Packet>, n: Expected)
    requires packets != [] && Conversation(f, packets, n) && Behind(e, n, DirectionOf(f, packets[0]))
    ensures !Succeeds(f, e, Readings(packets)) && Carries(f, Available(packets[0]), DirectionOf(f, packets[0]))
  {
    hide Outcomes;
    BeyondIsHole(f, e, packets[0], DirectionOf(f, packets[0]));
  }

  /**
   * A conversation captured without gaps, from its first packets on, is read to its end exactly if every
   * packet that another of the same direction follows is counted as its sender counts it; and then all
   * payload of both directions is handed on.
   */
  lemma ReadWholeIff(f: Filter, packets: seq<Packet>, n: Expected)
    requires Conversation(f, packets, n)
    ensures Succeeds(f, Expected(0, 0), Readings(packets)) <==> AllFollowedCountedAlike(f, packets)
    ensures Succeeds(f, Expected(0, 0), Readings(packets)) ==>
            && Delivered(f, Expected(0, 0), Readings(packets), ClientToServer) == AllPayload(f, packets, ClientToServer)
            && Delivered(f, Expected(0, 0), Readings(packets), ServerToClient) == AllPayload(f, packets, ServerToClient)
  {
    RestReadWholeIff(f, Expected(0, 0), packets, n);
  }

  // ---------------------------------------------------------------- what is lost, and what fails

  /** Whether the next packet, if it is blanked as a repetition, lies within what was handed on. */
  predicate Harmless(f: Filter, e: Expected, r: Reading, d: Direction, start: nat) {
    Carries(f, r, d) && Payload(f, r.frame) != [] && Number(f, r.frame) < e.At(d) ==>
    start <= Number(f, r.frame) && Number(f, r.frame) + |Payload(f, r.frame)| <= e.At(d)
  }

  predicate AllHarmless(f: Filter, e: Expected, readings: seq<Reading>, d: Direction, start: nat)
    decreases |readings|
  {
    readings == [] ||
    (Harmless(f, e, readings[0], d, start) &&
     match Outcomes(f, e, readings[0])
     case Failed => true
     case Block(next, block) => block.eof || AllHarmless(f, next, readings[1..], d, start))
  }

  predicate IsWithin(f: Filter, r: Reading, d: Direction, start: nat, got: seq<byte>) {
    Carries(f, r, d) && Payload(f, r.frame) != [] ==>
    var n, payload := Number(f, r.frame), Payload(f, r.frame);
    start <= n && n + |payload| <= start + |got| && got[n - start..][..|payload|] == payload
  }

  /**
   * If no repetition reached beyond what had been handed on, a reading that does not fail has handed on
   * the payload of every packet, each at its place in the stream.
   */
  lemma {:induction false} NothingIsMissed(f: Filter, e: Expected, readings: seq<Reading>, d: Direction,
                                           stream: seq<byte>, first: nat, sofar: seq<byte>, a: nat)
    requires d != DirectionUnknown && AllSlices(f, readings, d, stream, first)
    requires sofar != [] && Holds(sofar, a, e.At(d), stream, first)
    requires Succeeds(f, e, readings) && CaptureEnd !in readings
    requires AllHarmless(f, e, readings, d, first + a)
    ensures var got := sofar + Delivered(f, e, readings, d);
            forall r :: r in readings ==> IsWithin(f, r, d, first + a, got)
    decreases |readings|
  {
    hide Outcomes;
    hide Holds;
    hide IsSlice;
    hide IsWithin;
    hide Harmless;
    if readings != [] {
      var out, piece := Outcomes(f, e, readings[0]), Piece(f, e, readings[0], d);
      var rest := Delivered(f, out.expected, readings[1..], d);
      NotTheEnd(f, e, readings[0]);
      Unfold(f, e, readings, d);
      assert readings[0] in readings;
      StepExtends(f, e, readings[0], d, stream, first, sofar, a);
      StepReaches(f, e, readings[0], d, stream, first, sofar, a, rest);
      NothingIsMissed(f, out.expected, readings[1..], d, stream, first, sofar + piece, a);
      assert (sofar + piece) + rest == sofar + (piece + rest);
      forall r | r in readings ensures IsWithin(f, r, d, first + a, (sofar + piece) + rest) {
        assert r == readings[0] || r in readings[1..];
      }
    }
  }

  lemma NotTheEnd(f: Filter, e: Expected, r: Reading)
    requires Outcomes(f, e, r).Block? && r != CaptureEnd
    ensures !Outcomes(f, e, r).block.eof
  {
  }

  lemma StepReaches(f: Filter, e: Expected, r: Reading, d: Direction,
                    stream: seq<byte>, first: nat, sofar: seq<byte>, a: nat, rest: seq<byte>)
    requires d != DirectionUnknown && Outcomes(f, e, r).Block?
    requires Carries(f, r, d) ==> IsSlice(f, r.frame, stream, first)
    requires sofar != [] && Holds(sofar, a, e.At(d), stream, first)
    requires Holds(sofar + Piece(f, e, r, d), a, Outcomes(f, e, r).expected.At(d), stream, first)
    requires Harmless(f, e, r, d, first + a)
    ensures IsWithin(f, r, d, first + a, (sofar + Piece(f, e, r, d)) + rest)
  {
    WithinStays(f, r, d, stream, first, a, sofar + Piece(f, e, r, d), rest);
  }

  /** What was handed on at its place stays there, and is the packet's payload. */
  lemma WithinStays(f: Filter, r: Reading, d: Direction, stream: seq<byte>, first: nat, a: nat,
                    got: seq<byte>, rest: seq<byte>)
    requires Carries(f, r, d) ==> IsSlice(f, r.frame, stream, first)
    requires a + |got| <= |stream| && got == stream[a..][..|got|]
    requires Carries(f, r, d) && Payload(f, r.frame) != [] ==>
             first + a <= Number(f, r.frame) &&
             Number(f, r.frame) + |Payload(f, r.frame)| <= first + a + |got|
    ensures IsWithin(f, r, d, first + a, got + rest)
  {
    if Carries(f, r, d) && Payload(f, r.frame) != [] {
      var n, payload := Number(f, r.frame), Payload(f, r.frame);
      var here := (got + rest)[n - (first + a)..][..|payload|];
      forall k | 0 <= k < |payload| ensures here[k] == payload[k] {
        assert here[k] == got[n - (first + a) + k] == stream[n - first + k];
        assert payload[k] == stream[n - first..][..|payload|][k];
      }
    }
  }

  /** Every packet's payload has been handed on, at its place. */
  ghost predicate AllWithin(f: Filter, readings: seq<Reading>, d: Direction, start: nat, got: seq<byte>) {
    forall r :: r in readings ==> IsWithin(f, r, d, start, got)
  }

  /** No packet's payload begins before the first byte handed on, or ends beyond the number expected in the end. */
  ghost predicate AllEndBy(f: Filter, readings: seq<Reading>, d: Direction, start: nat, end: nat) {
    forall r :: r in readings ==> EndsBy(f, r, d, start, end)
  }

  ghost predicate NoPayload(f: Filter, readings: seq<Reading>, d: Direction) {
    forall r :: r in readings && Carries(f, r, d) ==> Payload(f, r.frame) == []
  }

  /**
   * In every run, failed or not: the payload of all packets has been handed on, each at its place, exactly if
   * none begins before the first byte handed on or ends beyond the number expected in the end; and if nothing
   * was handed on, exactly if there was none.
   */
  lemma HandedOnIff(f: Filter, e: Expected, readings: seq<Reading>, d: Direction, stream: seq<byte>, first: nat)
    requires d != DirectionUnknown && AllSlices(f, readings, d, stream, first)
    ensures var got, end := Delivered(f, e, readings, d), Final(f, e, readings).At(d);
            exists a: nat ::
              && IsPlaced(got, a, end, stream, first)
              && (AllWithin(f, readings, d, first + a, got) <==>
                  if got == [] then NoPayload(f, readings, d) else AllEndBy(f, readings, d, first + a, end))
  {
    hide IsSlice;
    hide IsPart;
    hide Holds;
    hide Delivered;
    hide Final;
    hide IsWithin;
    hide EndsBy;
    var got, end := Delivered(f, e, readings, d), Final(f, e, readings).At(d);
    DeliveredIsPlaced(f, e, readings, d, stream, first);
    var a: nat :| IsPlaced(got, a, end, stream, first);
    forall r | r in readings
      ensures got == [] ==> (IsWithin(f, r, d, first + a, got) <==> (Carries(f, r, d) ==> Payload(f, r.frame) == []))
      ensures got != [] ==> (IsWithin(f, r, d, first + a, got) <==> EndsBy(f, r, d, first + a, end))
    {
      if got == [] {
        WithinNothing(f, r, d, first + a);
      } else {
        WithinIff(f, r, d, stream, first, a, got, end);
      }
    }
  }

  lemma WithinNothing(f: Filter, r: Reading, d: Direction, start: nat)
    ensures IsWithin(f, r, d, start, []) <==> (Carries(f, r, d) ==> Payload(f, r.frame) == [])
  {
  }

  predicate EndsBy(f: Filter, r: Reading, d: Direction, start: nat, end: nat) {
    Carries(f, r, d) && Payload(f, r.frame) != [] ==>
    start <= Number(f, r.frame) && Number(f, r.frame) + |Payload(f, r.frame)| <= end
  }

  lemma WithinIff(f: Filter, r: Reading, d: Direction, stream: seq<byte>, first: nat, a: nat, got: seq<byte>, end: nat)
    requires Carries(f, r, d) ==> IsSlice(f, r.frame, stream, first)
    requires Holds(got, a, end, stream, first)
    ensures IsWithin(f, r, d, first + a, got) <==> EndsBy(f, r, d, first + a, end)
  {
    hide Number;
    hide Payload;
    if EndsBy(f, r, d, first + a, end) {
      WithinStays(f, r, d, stream, first, a, got, []);
      assert got + [] == got;
    }
  }

  /** A run that fails nowhere can still go past a repetition that reached beyond: its end came once more. */
  lemma OverlapCanBeMadeGood(f: Filter, e: Expected, p: Packet, q: Packet, d: Direction)
    requires d != DirectionUnknown && Carries(f, Available(p), d) && Carries(f, Available(q), d)
    requires Number(f, p) < e.At(d) == Number(f, q) && Payload(f, q) != []
    requires Number(f, p) + |Payload(f, p)| == Number(f, q) + |Payload(f, q)| < SEQUENCE_SPACE
    ensures var readings := [Available(p), Available(q)];
            && Succeeds(f, e, readings)
            && !AllHarmless(f, e, readings, d, 0)
            && EndsBy(f, Available(p), d, 0, Final(f, e, readings).At(d))
  {
    hide Number;
    hide Payload;
    hide Delivered;
    hide Succeeds;
    hide Final;
    assert [Available(p), Available(q)] == [Available(p)] + [Available(q)];
    RepetitionIsSkipped(f, e, p, [Available(q)], d, d);
    LoneReading(f, e, q, d);
  }

  lemma LoneReading(f: Filter, e: Expected, q: Packet, d: Direction)
    requires d != DirectionUnknown && Carries(f, Available(q), d) && e.At(d) == Number(f, q)
    requires Payload(f, q) != [] && Number(f, q) + |Payload(f, q)| < SEQUENCE_SPACE
    ensures Succeeds(f, e, [Available(q)])
    ensures Final(f, e, [Available(q)]).At(d) == Number(f, q) + |Payload(f, q)|
  {
    hide Number;
    hide Payload;
    assert [Available(q)][1..] == [];
    assert Outcomes(f, e, Available(q)) ==
           Block(e.Set(d, Number(f, q) + |Payload(f, q)|), DataBlock(Payload(f, q), false, d));
  }

  /**
   * A repetition with new bytes behind the old ones is blanked whole, and unless they come again, the
   * packet that follows them on the wire ends the reading: they are lost, and it shows.
   */
  lemma OverlapEndsTheReading(f: Filter, e: Expected, p: Packet, q: Packet, more: seq<Reading>, d: Direction)
    requires d != DirectionUnknown && Carries(f, Available(p), d) && Carries(f, Available(q), d)
    requires Number(f, p) < e.At(d) < Number(f, p) + |Payload(f, p)| == Number(f, q)
    ensures var readings := [Available(p), Available(q)] + more;
            Delivered(f, e, readings, d) == [] && !Succeeds(f, e, readings) && Final(f, e, readings) == e
  {
    TwoReadings(f, e, p, q, more, d);
  }

  lemma TwoReadings(f: Filter, e: Expected, p: Packet, q: Packet, more: seq<Reading>, d: Direction)
    requires Outcomes(f, e, Available(p)).Block?
    requires Outcomes(f, Outcomes(f, e, Available(p)).expected, Available(q)).Failed?
    ensures var readings, out := [Available(p), Available(q)] + more, Outcomes(f, e, Available(p));
            && Delivered(f, e, readings, d) == (if out.block.direction == d then out.block.payload else [])
            && !Succeeds(f, e, readings)
            && Final(f, e, readings) == out.expected
  {
    var readings := [Available(p), Available(q)] + more;
    assert readings[1..] == [Available(q)] + more;
    assert readings[1..][0] == Available(q);
  }

  lemma TwoFlags(flags: byte)
    ensures flags % 4 == flags % 2 + 2 * (flags / 2 % 2)
  {
  }

  /** The source counts them the same way unless SYN or FIN comes with data or with the other. */
  lemma AdvanceIsTcpsIff(n: nat, length: nat, flags: byte)
    requires n + SegmentLength(length, flags) < SEQUENCE_SPACE
    ensures Judge(n, n, length, flags) == Accept(n + SegmentLength(length, flags)) <==>
            (flags % 4 == 0 || (length == 0 && flags % 4 != 3))
  {
    TwoFlags(flags);
  }

  /** So after a FIN that came with data, the sender's next packet ends the reading, with nothing missing. */
  lemma FinWithDataEndsTheReading(f: Filter, e: Expected, p: Packet, q: Packet, more: seq<Reading>, d: Direction)
    requires d != DirectionUnknown && Carries(f, Available(p), d) && Carries(f, Available(q), d)
    requires 0 < Number(f, p) == e.At(d) && Payload(f, p) != [] && Flags(f, p) % 4 != 0
    requires Number(f, q) == Number(f, p) + SegmentLength(|Payload(f, p)|, Flags(f, p)) < SEQUENCE_SPACE
    ensures var readings := [Available(p), Available(q)] + more;
            Delivered(f, e, readings, d) == Payload(f, p) && !Succeeds(f, e, readings)
  {
    TwoFlags(Flags(f, p));
    TwoReadings(f, e, p, q, more, d);
  }
}
