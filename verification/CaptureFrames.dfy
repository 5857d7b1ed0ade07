/**
 * The frames of a capture, field by field: link header, IP header (section 3.1 of RFC 791), TCP header
 * (section 3.1 of RFC 9293) and payload. What reading a packet comes to is said here by those fields.
 */
module CaptureFrames {
  import opened Bytes
  import opened CaptureReassembly

  /** One frame; fields nobody looks at are the bytes they consist of. */
  datatype Segment = Segment(
    link: seq<byte>,
    version: nat, service: byte, totalLength: seq<byte>, identification: seq<byte>, fragment: seq<byte>,
    timeToLive: byte, protocol: byte, ipChecksum: seq<byte>, ipOptions: seq<byte>,
    source: Endpoint, destination: Endpoint,
    number: nat, acknowledgment: nat, reserved: nat, flags: byte,
    window: seq<byte>, tcpChecksum: seq<byte>, urgent: seq<byte>, tcpOptions: seq<byte>,
    payload: seq<byte>)

  predicate IsEndpoint(e: Endpoint) {
    |e.address| == 4 && |e.port| == 2
  }

  /** Options fill whole words, at most ten of them. */
  predicate AreOptions(options: seq<byte>) {
    |options| % 4 == 0 && |options| <= 40
  }

  predicate IsIp(s: Segment) {
    && s.version < 16 && |s.totalLength| == |s.identification| == |s.fragment| == |s.ipChecksum| == 2
    && AreOptions(s.ipOptions)
  }

  predicate IsTcp(s: Segment) {
    && s.number < 0x1_0000_0000 && s.acknowledgment < 0x1_0000_0000 && s.reserved < 16
    && |s.window| == |s.tcpChecksum| == |s.urgent| == 2
    && AreOptions(s.tcpOptions)
  }

  predicate IsSegment(f: Filter, s: Segment) {
    |s.link| == f.etherLength && IsEndpoint(s.source) && IsEndpoint(s.destination) && IsIp(s) && IsTcp(s)
  }

  function EncodeIp(s: Segment): (r: seq<byte>)
    requires IsIp(s)
  {
    [16 * s.version + 5 + |s.ipOptions| / 4, s.service] + s.totalLength + s.identification + s.fragment
      + [s.timeToLive, s.protocol] + s.ipChecksum + s.source.address + s.destination.address + s.ipOptions
  }

  function EncodeTcp(s: Segment): (r: seq<byte>)
    requires IsTcp(s)
  {
    s.source.port + s.destination.port + BigEndianBytes(s.number, 4) + BigEndianBytes(s.acknowledgment, 4)
      + [16 * (5 + |s.tcpOptions| / 4) + s.reserved, s.flags] + s.window + s.tcpChecksum + s.urgent + s.tcpOptions
  }

  function EncodeFrame(s: Segment): Packet
    requires IsIp(s) && IsTcp(s)
  {
    s.link + EncodeIp(s) + EncodeTcp(s) + s.payload
  }

  // ---------------------------------------------------------------- where the fields are

  lemma IpLayout(s: Segment)
    requires IsIp(s) && IsEndpoint(s.source) && IsEndpoint(s.destination)
    ensures var ip := EncodeIp(s);
      && |ip| == 20 + |s.ipOptions| && ip[0] % 16 * 4 == 20 + |s.ipOptions|
      && ip[12..16] == s.source.address && ip[16..20] == s.destination.address
  {
  }

  lemma TcpLayout(s: Segment)
    requires IsTcp(s) && IsEndpoint(s.source) && IsEndpoint(s.destination)
    ensures var tcp := EncodeTcp(s);
      && |tcp| == 20 + |s.tcpOptions| && tcp[12] / 16 * 4 == 20 + |s.tcpOptions|
      && tcp[..2] == s.source.port && tcp[2..4] == s.destination.port
      && BigEndian(tcp[4..8]) == s.number && tcp[13] == s.flags
  {
    hide BigEndianBytes;
    hide BigEndian;
    var tcp := EncodeTcp(s);
    assert tcp[4..8] == BigEndianBytes(s.number, 4);
    FourBytes();
    BigEndianRoundTrip(s.number, 4);
  }

  lemma FourBytes()
    ensures Power256(4) == 0x1_0000_0000
  {
  }

  /** On an encoded frame the fields read are the fields put in. */
  lemma FrameLayout(f: Filter, s: Segment)
    requires IsSegment(f, s)
    ensures var p := EncodeFrame(s);
      && HeadersFit(f, p)
      && Source(f, p) == s.source && Destination(f, p) == s.destination
      && Number(f, p) == s.number && Flags(f, p) == s.flags && Payload(f, p) == s.payload
  {
    hide EncodeIp;
    hide EncodeTcp;
    IpLayout(s);
    TcpLayout(s);
    var n := f.etherLength;
    var ip, tcp, p := EncodeIp(s), EncodeTcp(s), EncodeFrame(s);
    assert p[n..][..|ip|] == ip;
    assert p[n + |ip|..][..|tcp|] == tcp;
    assert p[n + |ip| + |tcp|..] == s.payload;
    assert p[n] == ip[0] && p[n + |ip| + 12] == tcp[12] && p[n + |ip|..][13] == tcp[13];
    assert p[n + 12..n + 16] == ip[12..16] && p[n + 16..n + 20] == ip[16..20];
    assert p[n + |ip|..][..2] == tcp[..2] && p[n + |ip|..][2..4] == tcp[2..4] && p[n + |ip|..][4..8] == tcp[4..8];
  }

  // ---------------------------------------------------------------- every frame that fits is one of these

  function IpPart(f: Filter, p: Packet): (ip: seq<byte>)
    requires HeadersFit(f, p)
    ensures |ip| >= 20
  {
    p[f.etherLength..f.etherLength + IpHeader(f, p)]
  }

  function TcpPart(f: Filter, p: Packet): (tcp: seq<byte>)
    requires HeadersFit(f, p)
    ensures |tcp| >= 20
  {
    p[f.etherLength + IpHeader(f, p)..f.etherLength + IpHeader(f, p) + TcpHeader(f, p)]
  }

  /** The frame taken apart. */
  function Parse(f: Filter, p: Packet): (s: Segment)
    requires HeadersFit(f, p)
  {
    var ip, tcp := IpPart(f, p), TcpPart(f, p);
    Segment(p[..f.etherLength],
            ip[0] / 16, ip[1], ip[2..4], ip[4..6], ip[6..8], ip[8], ip[9], ip[10..12], ip[20..],
            Endpoint(ip[12..16], tcp[..2]), Endpoint(ip[16..20], tcp[2..4]),
            BigEndian(tcp[4..8]), BigEndian(tcp[8..12]), tcp[12] % 16, tcp[13],
            tcp[14..16], tcp[16..18], tcp[18..20], tcp[20..],
            p[f.etherLength + |ip| + |tcp|..])
  }

  /** The length fields count the headers they stand in. */
  lemma PartLengths(f: Filter, p: Packet)
    requires HeadersFit(f, p)
    ensures var ip := IpPart(f, p); |ip| <= 60 && |ip| % 4 == 0 && ip[0] % 16 == |ip| / 4
    ensures var tcp := TcpPart(f, p); |tcp| <= 60 && |tcp| % 4 == 0 && tcp[12] / 16 == |tcp| / 4
  {
  }

  lemma ParsedIsSegment(f: Filter, p: Packet)
    requires HeadersFit(f, p)
    ensures IsSegment(f, Parse(f, p))
  {
    hide BigEndian;
    hide IpPart;
    hide TcpPart;
    var tcp := TcpPart(f, p);
    PartLengths(f, p);
    FourBytes();
    BigEndianBytesRoundTrip(tcp[4..8]);
    BigEndianBytesRoundTrip(tcp[8..12]);
  }

  /** An IP header is the encoding of its fields. */
  lemma IpOfFields(s: Segment, ip: seq<byte>)
    requires IsIp(s) && |ip| == 20 + |s.ipOptions|
    requires ip[0] == 16 * s.version + 5 + |s.ipOptions| / 4 && ip[1] == s.service
    requires ip[2..4] == s.totalLength && ip[4..6] == s.identification && ip[6..8] == s.fragment
    requires ip[8] == s.timeToLive && ip[9] == s.protocol && ip[10..12] == s.ipChecksum
    requires ip[12..16] == s.source.address && ip[16..20] == s.destination.address && ip[20..] == s.ipOptions
    ensures EncodeIp(s) == ip
  {
    assert ip == [ip[0], ip[1]] + ip[2..4] + ip[4..6] + ip[6..8] + [ip[8], ip[9]] + ip[10..12]
                 + ip[12..16] + ip[16..20] + ip[20..];
  }

  lemma ParsedIp(f: Filter, p: Packet)
    requires HeadersFit(f, p) && IsSegment(f, Parse(f, p))
    ensures EncodeIp(Parse(f, p)) == IpPart(f, p)
  {
    hide BigEndian;
    hide EncodeIp;
    hide IpPart;
    hide TcpPart;
    PartLengths(f, p);
    IpOfFields(Parse(f, p), IpPart(f, p));
  }

  /** A TCP header is the encoding of its fields. */
  lemma TcpOfFields(s: Segment, tcp: seq<byte>)
    requires IsTcp(s) && |tcp| == 20 + |s.tcpOptions|
    requires tcp[..2] == s.source.port && tcp[2..4] == s.destination.port
    requires tcp[4..8] == BigEndianBytes(s.number, 4) && tcp[8..12] == BigEndianBytes(s.acknowledgment, 4)
    requires tcp[12] == 16 * (5 + |s.tcpOptions| / 4) + s.reserved && tcp[13] == s.flags
    requires tcp[14..16] == s.window && tcp[16..18] == s.tcpChecksum && tcp[18..20] == s.urgent
    requires tcp[20..] == s.tcpOptions
    ensures EncodeTcp(s) == tcp
  {
    hide BigEndianBytes;
    assert tcp == tcp[..2] + tcp[2..4] + tcp[4..8] + tcp[8..12] + [tcp[12], tcp[13]]
                  + tcp[14..16] + tcp[16..18] + tcp[18..20] + tcp[20..];
  }

  lemma ParsedTcp(f: Filter, p: Packet)
    requires HeadersFit(f, p) && IsSegment(f, Parse(f, p))
    ensures EncodeTcp(Parse(f, p)) == TcpPart(f, p)
  {
    hide BigEndian;
    hide BigEndianBytes;
    hide EncodeTcp;
    hide IpPart;
    hide TcpPart;
    var tcp := TcpPart(f, p);
    PartLengths(f, p);
    BigEndianBytesRoundTrip(tcp[4..8]);
    BigEndianBytesRoundTrip(tcp[8..12]);
    TcpOfFields(Parse(f, p), tcp);
  }

  lemma ParseThenEncode(f: Filter, p: Packet)
    requires HeadersFit(f, p)
    ensures IsSegment(f, Parse(f, p)) && EncodeFrame(Parse(f, p)) == p
  {
    hide EncodeIp;
    hide EncodeTcp;
    ParsedIsSegment(f, p);
    ParsedIp(f, p);
    ParsedTcp(f, p);
    assert p == p[..f.etherLength] + IpPart(f, p) + TcpPart(f, p)
                + p[f.etherLength + |IpPart(f, p)| + |TcpPart(f, p)|..];
  }

  ghost predicate IsFrameOf(f: Filter, p: Packet, s: Segment) {
    IsSegment(f, s) && EncodeFrame(s) == p
  }

  /** The frames whose headers fit are exactly those laid out as the standards say. */
  lemma FitsIff(f: Filter, p: Packet)
    ensures HeadersFit(f, p) <==> exists s :: IsFrameOf(f, p, s)
  {
    if HeadersFit(f, p) {
      ParseThenEncode(f, p);
      assert IsFrameOf(f, p, Parse(f, p));
    }
    if s :| IsFrameOf(f, p, s) {
      FrameLayout(f, s);
    }
  }

  // ---------------------------------------------------------------- what reading one comes to

  /** Which way a segment goes: to or from the endpoint of the filter. */
  function Way(f: Filter, s: Segment): Direction {
    if s.destination == f.endpoint then (if f.isServer then ClientToServer else ServerToClient)
    else if s.source == f.endpoint then (if f.isServer then ServerToClient else ClientToServer)
    else DirectionUnknown
  }

  /** FIN is the lowest of the flags, SYN the next. */
  predicate FinOrSyn(s: Segment) {
    s.flags % 2 == 1 || s.flags / 2 % 2 == 1
  }

  /**
   * The answer for a segment: neither way is a failure, as is a number beyond the one expected; one from
   * before is blanked; otherwise the payload is handed on, and the next number is behind it.
   */
  function Answer(f: Filter, e: Expected, s: Segment): Outcome {
    var way := Way(f, s);
    var next := if way == ClientToServer then e.toServer else e.toClient;
    if way == DirectionUnknown || (next != 0 && s.number > next) then Failed
    else if next != 0 && s.number < next then Block(e, DataBlock([], false, way))
    else
      var length := if s.payload != [] then |s.payload| else if FinOrSyn(s) then 1 else 0;
      var after := (s.number + length) % 0x1_0000_0000;
      Block(if way == ClientToServer then Expected(after, e.toClient) else Expected(e.toServer, after),
            DataBlock(s.payload, false, way))
  }

  /** Reading the frame of a segment comes to the answer for the segment. */
  lemma FrameIsItsSegment(f: Filter, e: Expected, s: Segment)
    requires IsSegment(f, s)
    ensures Outcomes(f, e, Available(EncodeFrame(s))) == Answer(f, e, s)
  {
    hide EncodeFrame;
    hide HeadersFit;
    hide Payload;
    hide Source;
    hide Destination;
    hide Number;
    hide Flags;
    FrameLayout(f, s);
  }

  /** A frame that is not one of these fails. */
  lemma OtherFrameFails(f: Filter, e: Expected, p: Packet)
    requires forall s :: !IsFrameOf(f, p, s)
    ensures Outcomes(f, e, Available(p)) == Failed
  {
    FitsIff(f, p);
  }
}
