/** The API protocol's turn: read the head of the queue, append its record to the output, delete the head. */
module ApiFeed {
  import opened Bytes
  import opened FrameParser
  import opened FrameQueue
  import opened FrameDelivery

  /** What the near protocol does with the output buffer it is shown: takes bytes off it, and answers. */
  datatype Near = Near(takes: nat, answers: bool) {
    function Leaves(shown: seq<byte>): seq<byte> {
      if takes < |shown| then shown[takes..] else []
    }
  }

  class ApiProtocol {
    var outputBuffer: seq<byte>
    /** Every buffer the near protocol has been shown. */
    var signalled: seq<seq<byte>>

    constructor ()
      ensures outputBuffer == [] && signalled == []
    {
      outputBuffer, signalled := [], [];
    }

    /**
     * FeedData, when the camera callback does not interfere; FrameDelivery says what it may do in between.
     * The frame is copied out before the deletion gives its buffer up.
     */
    method FeedData(q: Queue, streamType: nat, near: Near) returns (ok: bool)
      requires q.Valid()
      modifies this, q`pushIndex, q.buffers, q.sizes, q.Stamps()
      ensures q.Valid()
      ensures forall b <- q.Blocks() :: b in old(q.Blocks()) || fresh(b)
      ensures old(q.Contents()) == [] || streamType !in {1, 3, 10} ==>
        && ok && outputBuffer == old(outputBuffer) && signalled == old(signalled)
        && q.Contents() == old(q.Contents())
      ensures old(q.Contents()) != [] && streamType in {1, 3, 10} ==>
        var shown := old(outputBuffer) + RecordBytes(streamType, old(q.Contents())[0]);
        && ok == near.answers
        && signalled == old(signalled) + [shown]
        && outputBuffer == near.Leaves(shown)
        && q.Contents() == old(q.Contents())[1..]
    {
      hide RecordBytes;
      hide Milliseconds;
      hide Queue.Contents;
      hide Queue.FrameAt;
      hide Queue.Prefix;
      hide Near.Leaves;
      var info := new FrameInfo();
      if q.pushIndex > 0 {
        q.PopBuffer(info);
        if !Supported(streamType) { return true; }
        ok := Deliver(q, info, streamType, near);
      } else {
        ok := true;
      }
    }

    /** Everything after the peek, for a frame of a supported type. */
    method Deliver(q: Queue, info: FrameInfo, streamType: nat, near: Near) returns (ok: bool)
      requires q.Valid() && q.Contents() != []
      requires info.framePtr != null && info.framePtr[..] == q.Contents()[0].data
      requires info.frameSize == |q.Contents()[0].data| % UINT32
      requires info.frameTimestamp == Milliseconds(q.Contents()[0].pts)
      modifies this, q`pushIndex, q.buffers, q.sizes, q.Stamps()
      ensures q.Valid() && q.Contents() == old(q.Contents())[1..]
      ensures forall b <- q.Blocks() :: b in old(q.Blocks()) || fresh(b)
      ensures var shown := old(outputBuffer) + RecordBytes(streamType, old(q.Contents())[0]);
        ok == near.answers && signalled == old(signalled) + [shown] && outputBuffer == near.Leaves(shown)
    {
      hide RecordBytes;
      hide Milliseconds;
      hide Queue.Contents;
      hide Queue.FrameAt;
      hide Queue.Prefix;
      hide Deleted;
      hide Near.Leaves;
      AppendRecord(info, streamType, q.Contents()[0]);
      DeletedIsTail(q.Contents());
      q.DeleteBuffer();
      ok := SignalInputData(near);
    }

    /** The call on the near protocol. */
    method SignalInputData(near: Near) returns (ok: bool)
      modifies this
      ensures ok == near.answers && signalled == old(signalled) + [old(outputBuffer)]
      ensures outputBuffer == near.Leaves(old(outputBuffer))
    {
      signalled := signalled + [outputBuffer];
      outputBuffer := near.Leaves(outputBuffer);
      ok := near.answers;
    }

    /** Copy the peeked frame out, behind its length, header byte and time stamp. */
    method AppendRecord(info: FrameInfo, streamType: nat, ghost f: Frame)
      requires info.framePtr != null && info.framePtr[..] == f.data && info.frameSize == |f.data| % UINT32
      requires info.frameTimestamp == Milliseconds(f.pts)
      modifies this`outputBuffer
      ensures outputBuffer == old(outputBuffer) + RecordBytes(streamType, f)
    {
      hide BigEndianBytes;
      hide Milliseconds;
      var length := (info.frameSize + 9) % UINT32;
      var header: byte := if streamType == 1 then 0 else 1;
      assert info.framePtr[..info.frameSize] == f.data[..info.frameSize];
      outputBuffer := outputBuffer + (BigEndianBytes(length, 4) + [header]
        + BigEndianBytes(info.frameTimestamp * 1000 % Power256(8), 8) + info.framePtr[..info.frameSize]);
    }
  }
}
