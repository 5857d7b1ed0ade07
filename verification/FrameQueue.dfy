/**
 * The queue between the camera callback and the API protocol: an array of 30 slots, filled from the
 * front, shifted down on every deletion and started afresh when full. Each method is one critical
 * section of the source.
 */
module FrameQueue {
  import opened Bytes
  import opened FrameParser

  const MAX_QUEUESIZE: nat := 30
  const TIMESTAMP_SIZE: nat := 8

  /** frame_size is a 32-bit field. */
  const UINT32: nat := 0x1_0000_0000

  // ---------------------------------------------------------------- the abstract queue

  function Pushed<T>(q: seq<T>, f: T): seq<T> {
    if |q| >= MAX_QUEUESIZE then [f] else q + [f]
  }

  function Deleted<T>(q: seq<T>): seq<T> {
    if q == [] then [] else q[1..]
  }

  lemma DeletedIsTail<T>(q: seq<T>)
    requires q != []
    ensures Deleted(q) == q[1..]
  {
  }

  function PushedAll(q: seq<Frame>, frames: seq<Frame>): seq<Frame> {
    if frames == [] then q else Pushed(PushedAll(q, frames[..|frames| - 1]), frames[|frames| - 1])
  }

  /** The time stamp handed on: nanoseconds turned into milliseconds. */
  function Milliseconds(pts: seq<byte>): nat {
    LittleEndian(pts) / 1000000
  }

  /** What the consumer gets to see of a frame. */
  class FrameInfo {
    var frameSize: nat
    var frameTimestamp: nat
    var framePtr: array?<byte>

    constructor () {
      frameSize, frameTimestamp, framePtr := 0, 0, null;
    }
  }

  /** memcpy. */
  method CopyBytes(to: array<byte>, from: array<byte>, n: nat)
    requires n <= to.Length && n <= from.Length && to != from
    modifies to
    ensures to[..n] == from[..n]
    ensures to[n..] == old(to[n..])
  {
    for i := 0 to n
      invariant to[..i] == from[..i]
      invariant to[n..] == old(to[n..])
    {
      to[i] := from[i];
    }
  }

  /** malloc and memcpy. */
  method Duplicate(from: array<byte>, n: nat) returns (block: array<byte>)
    requires n <= from.Length
    ensures fresh(block) && block[..] == from[..n]
  {
    block := new byte[n];
    CopyBytes(block, from, n);
    assert block[..] == block[..n];
  }

  /** A new array with the given contents. */
  method Allocate(s: seq<byte>) returns (block: array<byte>)
    ensures fresh(block) && block[..] == s
  {
    block := new byte[|s|](i requires 0 <= i < |s| => s[i]);
  }

  class Queue {
    const buffers: array<array?<byte>>
    const stamps: array<array?<byte>>
    const sizes: array<nat>
    var pushIndex: nat

    constructor ()
      ensures Valid() && Contents() == [] && fresh(buffers) && fresh(stamps) && fresh(sizes)
    {
      buffers := new array?<byte>[MAX_QUEUESIZE](_ => null);
      stamps := new array?<byte>[MAX_QUEUESIZE](_ => null);
      sizes := new nat[MAX_QUEUESIZE](_ => 0);
      pushIndex := 0;
    }

    /** The slots below pushIndex are filled, and no time stamp buffer is shared. */
    ghost predicate Valid()
      reads this, buffers, stamps, sizes
    {
      && buffers.Length == stamps.Length == sizes.Length == MAX_QUEUESIZE
      && buffers != stamps
      && pushIndex <= MAX_QUEUESIZE
      && (forall i | 0 <= i < pushIndex ::
            && buffers[i] != null && buffers[i].Length == sizes[i]
            && stamps[i] != null && stamps[i].Length == TIMESTAMP_SIZE)
      && (forall i, j | 0 <= i < pushIndex && 0 <= j < pushIndex :: stamps[i] != buffers[j])
      && (forall i, j | 0 <= i < j < pushIndex :: stamps[i] != stamps[j])
    }

    /** The buffers the filled slots point to. */
    ghost function Blocks(): set<object>
      requires Valid()
      reads this, buffers, stamps, sizes
    {
      (set i | 0 <= i < pushIndex :: buffers[i] as object) + Stamps()
    }

    ghost function Stamps(): set<object>
      requires Valid()
      reads this, buffers, stamps, sizes
    {
      set i | 0 <= i < pushIndex :: stamps[i] as object
    }

    ghost function FrameAt(i: nat): Frame
      requires Valid() && i < pushIndex
      reads this, buffers, stamps, sizes, buffers[i], stamps[i]
    {
      Frame(stamps[i][..], buffers[i][..])
    }

    ghost function Prefix(n: nat): (q: seq<Frame>)
      requires Valid() && n <= pushIndex
      reads this, buffers, stamps, sizes, Blocks()
      ensures |q| == n && forall i | 0 <= i < n :: q[i] == FrameAt(i)
    {
      if n == 0 then [] else Prefix(n - 1) + [FrameAt(n - 1)]
    }

    ghost function Contents(): (q: seq<Frame>)
      requires Valid()
      reads this, buffers, stamps, sizes, Blocks()
      ensures |q| == pushIndex && forall i | 0 <= i < pushIndex :: q[i] == FrameAt(i)
    {
      Prefix(pushIndex)
    }

    /** Put two new buffers into the first free slot. */
    method Store(block: array<byte>, stamp: array<byte>)
      requires Valid() && pushIndex < MAX_QUEUESIZE
      requires stamp.Length == TIMESTAMP_SIZE && stamp != block && block !in Stamps() && stamp !in Blocks()
      modifies this`pushIndex, buffers, stamps, sizes
      ensures Valid() && pushIndex == old(pushIndex) + 1
      ensures FrameAt(pushIndex - 1) == Frame(stamp[..], block[..])
      ensures forall j | 0 <= j < old(pushIndex) :: FrameAt(j) == old(FrameAt(j))
      ensures forall b <- Blocks() :: b in old(Blocks()) || b == block || b == stamp
    {
      buffers[pushIndex] := block;
      stamps[pushIndex] := stamp;
      sizes[pushIndex] := block.Length;
      pushIndex := pushIndex + 1;
    }

    /** pushBuffer: append a copy of the frame, or start afresh with it when every slot is taken. */
    method PushBuffer(frameSize: nat, frame: array<byte>, pts: array<byte>)
      requires Valid() && frameSize <= frame.Length && TIMESTAMP_SIZE <= pts.Length
      modifies this`pushIndex, buffers, stamps, sizes
      ensures Valid()
      ensures Contents() == Pushed(old(Contents()), Frame(pts[..TIMESTAMP_SIZE], frame[..frameSize]))
      ensures |old(Contents())| < 30 ==> Contents() == old(Contents()) + [Frame(pts[..8], frame[..frameSize])]
      ensures |old(Contents())| >= 30 ==> Contents() == [Frame(pts[..8], frame[..frameSize])]
      ensures forall b <- Blocks() :: b in old(Blocks()) || fresh(b)
    {
      if pushIndex >= MAX_QUEUESIZE {
        pushIndex := 0;
      }
      var block := Duplicate(frame, frameSize);
      var stamp := Duplicate(pts, TIMESTAMP_SIZE);
      Store(block, stamp);
    }

    /** popBuffer: describe the head without removing it; the frame pointer is the slot's own buffer. */
    method PopBuffer(info: FrameInfo)
      requires Valid()
      modifies info
      ensures Contents() == [] ==> unchanged(info)
      ensures Contents() != [] ==>
        && info.frameSize == |Contents()[0].data| % UINT32
        && info.frameTimestamp == Milliseconds(Contents()[0].pts) == LittleEndian(Contents()[0].pts) / 1000000
        && info.framePtr != null && info.framePtr == buffers[0] && info.framePtr[..] == Contents()[0].data
    {
      if pushIndex > 0 {
        info.frameSize := sizes[0] % UINT32;
        var timestamp: nat := stamps[0][7];
        for i := 7 downto 0
          invariant timestamp == LittleEndian(stamps[0][i..])
        {
          assert stamps[0][i..][1..] == stamps[0][i + 1..];
          timestamp := 256 * timestamp + stamps[0][i];
        }
        assert stamps[0][0..] == stamps[0][..];
        info.frameTimestamp := timestamp / 1000000;
        info.framePtr := buffers[0];
      }
    }

    /** Move the frame of slot i + 1 into slot i: a reallocated buffer, and the time stamp in place. */
    method MoveDown(i: nat)
      requires Valid() && i + 1 < pushIndex
      modifies buffers, sizes, stamps[i]
      ensures Valid()
      ensures FrameAt(i) == old(FrameAt(i + 1))
      ensures forall j | 0 <= j < pushIndex && j != i :: FrameAt(j) == old(FrameAt(j)) && buffers[j] == old(buffers[j])
      ensures fresh(buffers[i])
      ensures forall b <- Blocks() :: b in old(Blocks()) || fresh(b)
    {
      var block := Duplicate(buffers[i + 1], sizes[i + 1]);
      buffers[i] := block;
      CopyBytes(stamps[i], stamps[i + 1], TIMESTAMP_SIZE);
      sizes[i] := sizes[i + 1];
      assert stamps[i][..] == stamps[i][..TIMESTAMP_SIZE];
      assert stamps[i + 1][..] == stamps[i + 1][..TIMESTAMP_SIZE];
      assert buffers[i + 1][..] == buffers[i + 1][..sizes[i + 1]];
    }

    /** The shift loop: every frame but the first moves down one slot. */
    method ShiftDown()
      requires Valid() && pushIndex > 1
      modifies buffers, sizes, Stamps()
      ensures Valid()
      ensures forall j | 0 <= j < pushIndex - 1 :: FrameAt(j) == old(FrameAt(j + 1))
      ensures forall b <- Blocks() :: b in old(Blocks()) || fresh(b)
    {
      ghost var q := Contents();
      var i := 0;
      while i < pushIndex - 1
        invariant Valid() && 0 <= i <= pushIndex - 1
        invariant forall j | 0 <= j < i :: FrameAt(j) == q[j + 1]
        invariant forall j | i <= j < pushIndex :: FrameAt(j) == q[j]
        invariant forall b <- Blocks() :: b in old(Blocks()) || fresh(b)
      {
        MoveDown(i);
        i := i + 1;
      }
    }

    /** deleteBuffer: shift every frame down one slot and give up the last. */
    method DeleteBuffer()
      requires Valid()
      modifies this`pushIndex, buffers, sizes, Stamps()
      ensures Valid()
      ensures Contents() == Deleted(old(Contents()))
      ensures old(Contents()) != [] ==> Contents() == old(Contents())[1..]
      ensures forall b <- Blocks() :: b in old(Blocks()) || fresh(b)
    {
      hide FrameAt;
      if pushIndex == 1 {
        GiveUpLast();
      } else if pushIndex > 1 {
        ShiftDown();
        GiveUpLast();
      }
    }

    /** Free the last filled slot. */
    method GiveUpLast()
      requires Valid() && pushIndex > 0
      modifies this`pushIndex, sizes
      ensures Valid() && pushIndex == old(pushIndex) - 1
      ensures forall j | 0 <= j < pushIndex :: FrameAt(j) == old(FrameAt(j))
      ensures Blocks() <= old(Blocks())
    {
      pushIndex := pushIndex - 1;
      sizes[pushIndex] := 0;
    }
  }

  /** Another frame arrives. */
  method Arrive(q: Queue, f: Frame)
    requires q.Valid() && |f.pts| == TIMESTAMP_SIZE
    modifies q`pushIndex, q.buffers, q.stamps, q.sizes
    ensures q.Valid() && q.Contents() == Pushed(old(q.Contents()), f)
  {
    hide Queue.Contents;
    hide Queue.FrameAt;
    hide Queue.Prefix;
    hide Pushed;
    ghost var before := q.Contents();
    var frame := Allocate(f.data);
    var pts := Allocate(f.pts);
    assert q.Valid() && q.Contents() == before;
    assert Frame(pts[..TIMESTAMP_SIZE], frame[..frame.Length]) == f;
    q.PushBuffer(frame.Length, frame, pts);
  }

  /**
   * Between the consumer's peek and its delete any number of frames may arrive, an overflow among them:
   * the memory the peeked frame pointer leads to does not change.
   */
  method PeekSurvivesPushes(q: Queue, info: FrameInfo, arrivals: seq<Frame>)
    requires q.Valid() && q.Contents() != []
    requires forall f <- arrivals :: |f.pts| == TIMESTAMP_SIZE
    modifies info, q`pushIndex, q.buffers, q.stamps, q.sizes
    ensures info.framePtr != null && info.framePtr[..] == old(q.Contents()[0].data)
    ensures q.Valid() && q.Contents() == PushedAll(old(q.Contents()), arrivals)
  {
    hide Queue.Contents;
    hide Queue.FrameAt;
    hide Queue.Prefix;
    hide Pushed;
    q.PopBuffer(info);
    var peeked := info.framePtr;
    for k := 0 to |arrivals|
      invariant q.Valid() && q.Contents() == PushedAll(old(q.Contents()), arrivals[..k])
      invariant info.framePtr == peeked && peeked[..] == old(q.Contents()[0].data)
    {
      Arrive(q, arrivals[k]);
      assert arrivals[..k + 1][..k] == arrivals[..k];
    }
    assert arrivals[..|arrivals|] == arrivals;
  }
}
