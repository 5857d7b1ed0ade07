/**
 * The relay between an inbound connection and the outbound one opened for it: what arrives before the
 * outbound connection is there waits in a buffer, which is handed over when it appears.
 */
module SessionRelay {
  import opened Bytes
  import opened Options

  /** One end. What it is fed waits in the output buffer until the carrier takes it. */
  class RawTcpProtocol {
    const id: nat
    var outputBuffer: seq<byte>
    ghost var given: seq<byte>

    constructor (i: nat)
      ensures id == i && outputBuffer == [] && Valid() && given == []
    {
      id := i;
      outputBuffer := [];
      given := [];
    }

    /** The output buffer is the end of all that was ever fed. */
    ghost predicate Valid()
      reads this
    {
      |outputBuffer| <= |given| && outputBuffer == given[|given| - |outputBuffer|..]
    }

    method GetOutputBuffer() returns (buffer: Option<seq<byte>>)
      ensures buffer == if outputBuffer == [] then None else Some(outputBuffer)
    {
      if |outputBuffer| == 0 {
        return None;
      }
      buffer := Some(outputBuffer);
    }

    /** Whether the carrier could be woken up does not matter to what was appended. */
    method FeedData(buffer: seq<byte>, enqueuedForOutbound: bool) returns (ok: bool)
      requires Valid()
      modifies this
      ensures Valid() && given == old(given) + buffer && outputBuffer == old(outputBuffer) + buffer
      ensures ok == enqueuedForOutbound
    {
      outputBuffer := outputBuffer + buffer;
      given := given + buffer;
      ok := enqueuedForOutbound;
    }
  }

  // ---------------------------------------------------------------- the relay as a machine

  /** What waits, and all that each end was ever given. */
  datatype Relay = Relay(connected: bool, waiting: seq<byte>, toOutbound: seq<byte>, toInbound: seq<byte>)

  datatype Event =
    | FromInbound(data: seq<byte>, peerIsThere: bool, enqueued: bool)
    | FromOutbound(data: seq<byte>, peerIsThere: bool, enqueued: bool)
    | Connect(enqueued: bool)

  /** Whether the event is answered with true; if not, the session's end is near. */
  predicate Accepted(r: Relay, e: Event) {
    match e
    case Connect(enqueued) => enqueued
    case _ => !r.connected || (e.peerIsThere && e.enqueued)
  }

  function Step(r: Relay, e: Event): Relay {
    match e
    case Connect(enqueued) =>
      Relay(true, if enqueued then [] else r.waiting, r.toOutbound + r.waiting, r.toInbound)
    case FromInbound(data, peerIsThere, _) =>
      if !r.connected then r.(waiting := r.waiting + data)
      else if peerIsThere then r.(toOutbound := r.toOutbound + data) else r
    case FromOutbound(data, peerIsThere, _) =>
      if !r.connected then r.(waiting := r.waiting + data)
      else if peerIsThere then r.(toInbound := r.toInbound + data) else r
  }

  class Session {
    var inboundProtocolId: nat
    var outboundProtocolId: nat
    var tempIOBuffer: seq<byte>

    constructor ()
      ensures inboundProtocolId == 0 && outboundProtocolId == 0 && tempIOBuffer == []
    {
      inboundProtocolId, outboundProtocolId, tempIOBuffer := 0, 0, [];
    }

    /** The two ends of the session, as the protocol manager finds them. */
    ghost predicate Valid(active: map<nat, RawTcpProtocol>)
      reads this, active.Values
    {
      && (forall i :: i in active ==> i > 0 && active[i].id == i && active[i].Valid())
      && (inboundProtocolId == outboundProtocolId ==> outboundProtocolId == 0)
    }

    ghost function Given(active: map<nat, RawTcpProtocol>, id: nat): seq<byte>
      reads active.Values
    {
      if id in active then active[id].given else []
    }

    ghost function View(active: map<nat, RawTcpProtocol>): Relay
      reads this, active.Values
    {
      Relay(outboundProtocolId != 0, tempIOBuffer, Given(active, outboundProtocolId), Given(active, inboundProtocolId))
    }

    method SetInboundProtocolId(protocol: RawTcpProtocol)
      requires inboundProtocolId == 0
      modifies this`inboundProtocolId
      ensures inboundProtocolId == protocol.id
    {
      inboundProtocolId := protocol.id;
    }

    /** Hands over what waited; a protocol that cannot be woken up for it is enqueued for deletion. */
    method SetOutboundProtocolId(protocol: RawTcpProtocol, ghost active: map<nat, RawTcpProtocol>, enqueued: bool)
      returns (enqueueForDelete: bool)
      requires outboundProtocolId == 0 && Valid(active)
      requires protocol.id in active && active[protocol.id] == protocol && protocol.id != inboundProtocolId
      modifies this`outboundProtocolId, this`tempIOBuffer, protocol
      ensures Valid(active) && outboundProtocolId == protocol.id
      ensures protocol.given == old(protocol.given) + old(tempIOBuffer)
      ensures Given(active, inboundProtocolId) == old(Given(active, inboundProtocolId))
      ensures tempIOBuffer == if enqueueForDelete then old(tempIOBuffer) else []
      ensures enqueueForDelete <==> !enqueued
    {
      outboundProtocolId := protocol.id;
      var ok := protocol.FeedData(tempIOBuffer, enqueued);
      if ok {
        tempIOBuffer := [];
      }
      enqueueForDelete := !ok;
      assert forall i :: i in active && i != protocol.id ==> active[i].id != protocol.id;
    }

    /** With an outbound protocol that was fed nothing before, that is the step the machine makes. */
    twostate lemma ConnectIsStep(protocol: RawTcpProtocol, active: map<nat, RawTcpProtocol>, enqueued: bool)
      requires old(outboundProtocolId) == 0 && old(Given(active, 0)) == []
      requires inboundProtocolId == old(inboundProtocolId)
      requires outboundProtocolId == protocol.id != 0 && protocol.id in active && active[protocol.id] == protocol
      requires old(protocol.given) == [] && protocol.given == old(protocol.given) + old(tempIOBuffer)
      requires Given(active, inboundProtocolId) == old(Given(active, inboundProtocolId))
      requires tempIOBuffer == if enqueued then [] else old(tempIOBuffer)
      ensures View(active) == Step(old(View(active)), Connect(enqueued))
    {
    }

    method FeedData(buffer: seq<byte>, from: nat, active: map<nat, RawTcpProtocol>, enqueued: bool)
      returns (ok: bool, left: seq<byte>)
      requires Valid(active)
      modifies this`tempIOBuffer, active.Values
      ensures Valid(active)
      ensures forall i :: i in active && i != inboundProtocolId && i != outboundProtocolId ==>
                          active[i].given == old(active[i].given)
      ensures from == inboundProtocolId ==>
              var e := FromInbound(buffer, outboundProtocolId in active, enqueued);
              View(active) == Step(old(View(active)), e) && ok == Accepted(old(View(active)), e)
      ensures from != inboundProtocolId ==>
              var e := FromOutbound(buffer, inboundProtocolId in active, enqueued);
              View(active) == Step(old(View(active)), e) && ok == Accepted(old(View(active)), e)
      ensures left == if ok then [] else buffer
    {
      if outboundProtocolId == 0 {
        tempIOBuffer := tempIOBuffer + buffer;
        return true, [];
      }
      var to := if from == inboundProtocolId then outboundProtocolId else inboundProtocolId;
      if to !in active {
        return false, buffer;
      }
      ok := active[to].FeedData(buffer, enqueued);
      left := if ok then [] else buffer;
    }
  }

  // ---------------------------------------------------------------- every run

  const FRESH := Relay(false, [], [], [])

  function Run(events: seq<Event>): Relay {
    if events == [] then FRESH else Step(Run(events[..|events| - 1]), events[|events| - 1])
  }

  /** There is one outbound connection, and nothing arrives from it before it is there. */
  predicate IsSession(events: seq<Event>) {
    events == [] ||
    (IsSession(events[..|events| - 1]) &&
     (events[|events| - 1].Connect? ==> !Run(events[..|events| - 1]).connected) &&
     (events[|events| - 1].FromOutbound? ==> Run(events[..|events| - 1]).connected))
  }

  /** Bytes that find their other end gone go nowhere. */
  predicate IsLost(r: Relay, e: Event) {
    !e.Connect? && r.connected && !e.peerIsThere
  }

  function Arrived(events: seq<Event>, inbound: bool): seq<byte> {
    if events == [] then [] else
    var before, e := Arrived(events[..|events| - 1], inbound), events[|events| - 1];
    if (if inbound then e.FromInbound? else e.FromOutbound?) then before + e.data else before
  }

  function Lost(events: seq<Event>, inbound: bool): nat {
    if events == [] then 0 else
    var before, e := Lost(events[..|events| - 1], inbound), events[|events| - 1];
    if (if inbound then e.FromInbound? else e.FromOutbound?) && IsLost(Run(events[..|events| - 1]), e)
    then before + |e.data| else before
  }

  /** What was handed on towards the outbound end, or still waits for it. */
  function Forwarded(r: Relay): seq<byte> {
    if r.connected then r.toOutbound else r.waiting
  }

  /** While nothing is lost, each side has been given what arrived from the other, in order. */
  lemma {:induction false} BothWaysConserved(events: seq<Event>)
    requires IsSession(events)
    ensures Lost(events, true) == 0 ==> Forwarded(Run(events)) == Arrived(events, true)
    ensures Lost(events, false) == 0 ==> Run(events).toInbound == Arrived(events, false)
    ensures !Run(events).connected ==> Run(events).toOutbound == []
  {
    if events != [] {
      BothWaysConserved(events[..|events| - 1]);
    }
  }

  /** And byte for byte, what did not get through is what was lost. */
  lemma {:induction false} LengthsAddUp(events: seq<Event>)
    requires IsSession(events)
    ensures |Forwarded(Run(events))| + Lost(events, true) == |Arrived(events, true)|
    ensures |Run(events).toInbound| + Lost(events, false) == |Arrived(events, false)|
  {
    if events != [] {
      BothWaysConserved(events[..|events| - 1]);
      LengthsAddUp(events[..|events| - 1]);
    }
  }

  /** So the relay conserves a direction exactly if no byte of it found its other end gone. */
  lemma ConservedIff(events: seq<Event>)
    requires IsSession(events)
    ensures Forwarded(Run(events)) == Arrived(events, true) <==> Lost(events, true) == 0
    ensures Run(events).toInbound == Arrived(events, false) <==> Lost(events, false) == 0
  {
    BothWaysConserved(events);
    LengthsAddUp(events);
  }

  /** The waiting buffer is empty after the switch, unless the hand-over failed to wake the carrier. */
  predicate HandOverWoke(events: seq<Event>) {
    forall k :: 0 <= k < |events| && events[k].Connect? ==> events[k].enqueued
  }

  lemma {:induction false} NothingWaitsAfterTheSwitch(events: seq<Event>)
    requires IsSession(events) && HandOverWoke(events) && Run(events).connected
    ensures Run(events).waiting == []
    ensures Lost(events, true) == 0 ==> Run(events).toOutbound + Run(events).waiting == Arrived(events, true)
  {
    var prefix := events[..|events| - 1];
    BothWaysConserved(events);
    if Run(prefix).connected {
      assert HandOverWoke(prefix) by {
        forall k | 0 <= k < |prefix| && prefix[k].Connect? ensures prefix[k].enqueued {
          assert events[k] == prefix[k];
        }
      }
      NothingWaitsAfterTheSwitch(prefix);
    }
  }

  /** If it did fail, the buffer keeps a second copy of what was already handed over. */
  lemma FailedHandOverKeepsACopy(events: seq<Event>)
    requires IsSession(events + [Connect(false)])
    ensures var before, after := Run(events), Run(events + [Connect(false)]);
            after.waiting == before.waiting == after.toOutbound
  {
    assert (events + [Connect(false)])[..|events|] == events;
    BothWaysConserved(events);
  }

  /** So what the buffer holds from the switch on is nothing, or everything that had arrived before it. */
  lemma {:induction false} WaitingAfterTheSwitch(events: seq<Event>, k: nat)
    requires IsSession(events) && k < |events| && events[k].Connect?
    ensures Run(events).connected
    ensures Run(events).waiting == if events[k].enqueued then [] else Arrived(events[..k], true)
    decreases |events|
  {
    var last, prefix := |events| - 1, events[..|events| - 1];
    if k < last {
      assert prefix[..k] == events[..k];
      WaitingAfterTheSwitch(prefix, k);
    } else {
      BothWaysConserved(prefix);
      NothingLostBefore(prefix);
    }
  }

  lemma {:induction false} NothingLostBefore(events: seq<Event>)
    requires IsSession(events) && !Run(events).connected
    ensures Lost(events, true) == 0
  {
    if events != [] { NothingLostBefore(events[..|events| - 1]); }
  }

  // ---------------------------------------------------------------- what callers are told

  predicate IsFrom(e: Event, inbound: bool) {
    if inbound then e.FromInbound? else e.FromOutbound?
  }

  /** The bytes of one direction whose event was answered with true. */
  function Told(events: seq<Event>, inbound: bool): seq<byte> {
    if events == [] then [] else
    var prefix, e := events[..|events| - 1], events[|events| - 1];
    if IsFrom(e, inbound) && Accepted(Run(prefix), e) then Told(prefix, inbound) + e.data else Told(prefix, inbound)
  }

  /** The other end is there, but its carrier cannot be woken. */
  predicate CannotBeWoken(r: Relay, e: Event) {
    !e.Connect? && r.connected && e.peerIsThere && !e.enqueued && e.data != []
  }

  /** The bytes that were answered with false and handed on all the same. */
  function Mistold(events: seq<Event>, inbound: bool): nat {
    if events == [] then 0 else
    var prefix, e := events[..|events| - 1], events[|events| - 1];
    Mistold(prefix, inbound) + if IsFrom(e, inbound) && CannotBeWoken(Run(prefix), e) then |e.data| else 0
  }

  predicate NeverUnwoken(events: seq<Event>, inbound: bool) {
    forall k :: 0 <= k < |events| && IsFrom(events[k], inbound) ==> !CannotBeWoken(Run(events[..k]), events[k])
  }

  lemma {:induction false} MistoldIff(events: seq<Event>, inbound: bool)
    ensures Mistold(events, inbound) == 0 <==> NeverUnwoken(events, inbound)
  {
    if events != [] {
      var last, prefix := |events| - 1, events[..|events| - 1];
      MistoldIff(prefix, inbound);
      assert forall k :: 0 <= k < last ==> prefix[k] == events[k] && prefix[..k] == events[..k];
    }
  }

  lemma {:induction false} HandedOnOrTold(events: seq<Event>, inbound: bool)
    requires IsSession(events)
    ensures var given := if inbound then Forwarded(Run(events)) else Run(events).toInbound;
            && |given| == |Told(events, inbound)| + Mistold(events, inbound)
            && (Mistold(events, inbound) == 0 ==> given == Told(events, inbound))
  {
    if events != [] {
      HandedOnOrTold(events[..|events| - 1], inbound);
      BothWaysConserved(events[..|events| - 1]);
    }
  }

  /**
   * Over every session, the bytes callers were told were taken are exactly those handed on, if and only if
   * the carrier of an end that was there could always be woken: an answer of false means that bytes did not
   * get through exactly when their other end was gone.
   */
  lemma AnswersAreTrueIff(events: seq<Event>, inbound: bool)
    requires IsSession(events)
    ensures var given := if inbound then Forwarded(Run(events)) else Run(events).toInbound;
            given == Told(events, inbound) <==> NeverUnwoken(events, inbound)
  {
    HandedOnOrTold(events, inbound);
    MistoldIff(events, inbound);
  }
}
