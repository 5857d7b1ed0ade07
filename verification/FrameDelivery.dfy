/**
 * Camera thread and API thread together. Each step below is atomic in the source: a critical section of
 * the queue, or one access to a variable both threads use without the lock. The consumer checks, peeks,
 * reads the stream type, copies the frame out and deletes in five separate steps, and the camera
 * callback may run between any two of them.
 *
 * Frames carry the number of frames pushed before them, so that "in order" and "at most once" can be said.
 */
module FrameDelivery {
  import opened Bytes
  import opened FrameParser
  import opened FrameQueue

  datatype Item = Item(tag: nat, frame: Frame)

  datatype Consumer =
    | Idle
    | Checked
    | Popped(item: Item)
    | Typed(item: Item, streamType: nat)
    | Copied(item: Item)

  /**
   * `overflowed` records whether the queue was ever started afresh, `queuedAtPeek` and `pushedAtPeek` how many
   * frames were in the queue and had been pushed when the consumer last peeked.
   */
  datatype System = System(
    samples: seq<seq<byte>>,
    parser: Parser,
    pushed: seq<Frame>,
    queue: seq<Item>,
    streamType: nat,
    consumer: Consumer,
    delivered: seq<Item>,
    overflowed: bool,
    queuedAtPeek: nat,
    pushedAtPeek: nat)

  const INIT := System([], START, [], [], 0, Idle, [], false, 0, 0)

  datatype Step =
    | Sample(bytes: seq<byte>)
    | Announce
    | Check
    | Pop
    | ReadType
    | Copy
    | Delete

  // ---------------------------------------------------------------- the steps

  function Push(s: System, f: Frame): System {
    var full := |s.queue| >= MAX_QUEUESIZE;
    s.(pushed := s.pushed + [f],
       queue := Pushed(s.queue, Item(|s.pushed|, f)),
       overflowed := s.overflowed || full)
  }

  predicate Supported(streamType: nat) {
    streamType == 1 || streamType == 3 || streamType == 10
  }

  function Next(s: System, step: Step): System {
    match step
    case Sample(bytes) =>
      var (p, out) := Feed(s.parser, bytes);
      var t := s.(samples := s.samples + [bytes], parser := p);
      if out == [] then t else Push(t, out[0])
    case Announce =>
      if s.pushed != [] then s.(streamType := 1) else s
    case Check =>
      if s.consumer.Idle? && s.queue != [] then s.(consumer := Checked) else s
    case Pop =>
      if s.consumer.Checked? && s.queue != [] then 
        s.(consumer := Popped(s.queue[0]), queuedAtPeek := |s.queue|, pushedAtPeek := |s.pushed|)
      else s
    case ReadType =>
      if s.consumer.Popped? then s.(consumer := Typed(s.consumer.item, s.streamType)) else s
    case Copy =>
      if !s.consumer.Typed? then s
      else if Supported(s.consumer.streamType) then
        s.(consumer := Copied(s.consumer.item), delivered := s.delivered + [s.consumer.item])
      else s.(consumer := Idle)
    case Delete =>
      if s.consumer.Copied? then s.(consumer := Idle, queue := Deleted(s.queue)) else s
  }

  function Run(steps: seq<Step>): System {
    if steps == [] then INIT else Next(Run(steps[..|steps| - 1]), steps[|steps| - 1])
  }

  // ---------------------------------------------------------------- the invariant

  /** The number of the frame at the head of the queue. */
  function Head(s: System): int {
    |s.pushed| - |s.queue|
  }

  /** More frames were in the queue at the last peek and have been pushed since than it has slots. */
  predicate Raced(s: System) {
    s.queuedAtPeek + (|s.pushed| - s.pushedAtPeek) > MAX_QUEUESIZE
  }

  ghost predicate Genuine(s: System, item: Item) {
    item.tag < |s.pushed| && item.frame == s.pushed[item.tag]
  }

  /** The queue holds the latest frames, in order. */
  ghost predicate QueueInv(s: System) {
    && |s.queue| <= MAX_QUEUESIZE && 0 <= Head(s)
    && forall i | 0 <= i < |s.queue| :: s.queue[i].tag == Head(s) + i && Genuine(s, s.queue[i])
  }

  ghost predicate DeliveredInv(s: System) {
    && (forall i | 0 <= i < |s.delivered| :: Genuine(s, s.delivered[i]))
    && (forall i, j | 0 <= i < j < |s.delivered| :: s.delivered[i].tag < s.delivered[j].tag)
  }

  ghost predicate DeliveredBelow(s: System, bound: int) {
    forall i | 0 <= i < |s.delivered| :: s.delivered[i].tag < bound
  }

  /** The frame in hand was the head at the peek, and is as long as the pushes since fit into the queue. */
  ghost predicate InHand(s: System, item: Item) {
    && s.queue != [] && Genuine(s, item)
    && item.tag == s.pushedAtPeek - s.queuedAtPeek
    && s.pushedAtPeek <= |s.pushed|
    && (if Raced(s) then item.tag < Head(s) && s.overflowed else item.tag == Head(s))
  }

  ghost predicate ConsumerInv(s: System) {
    match s.consumer
    case Idle => DeliveredBelow(s, Head(s))
    case Checked => DeliveredBelow(s, Head(s)) && s.queue != []
    case Popped(item) => InHand(s, item) && DeliveredBelow(s, item.tag)
    case Typed(item, _) => InHand(s, item) && DeliveredBelow(s, item.tag)
    case Copied(item) =>
      && InHand(s, item)
      && |s.delivered| > 0 && s.delivered[|s.delivered| - 1] == item
  }

  /** Without an overflow, what is delivered is everything up to the head, and the frame in hand is the head. */
  ghost predicate LosslessInv(s: System) {
    !s.overflowed ==>
      && |s.delivered| == Head(s) + (if s.consumer.Copied? then 1 else 0)
      && forall i | 0 <= i < |s.delivered| :: s.delivered[i].tag == i
  }

  ghost predicate Inv(s: System) {
    && (s.parser, s.pushed) == FeedAll(s.samples)
    && QueueSideInv(s)
    && (s.streamType == 0 || s.streamType == 1)
  }

  // ---------------------------------------------------------------- every step

  lemma PushKeepsInv(s: System, f: Frame)
    requires QueueSideInv(s)
    ensures QueueSideInv(Push(s, f))
  {
    hide QueueInv;
    hide DeliveredInv;
    hide ConsumerInv;
    hide LosslessInv;
    hide Push;
    PushKeepsQueue(s, f);
    PushKeepsDelivered(s, f);
    PushKeepsConsumer(s, f);
    PushKeepsLossless(s, f);
  }

  lemma PushKeepsQueue(s: System, f: Frame)
    requires QueueInv(s)
    ensures QueueInv(Push(s, f)) && Head(s) <= Head(Push(s, f))
  {
    var t := Push(s, f);
    assert forall i | 0 <= i < |s.pushed| :: t.pushed[i] == s.pushed[i];
  }

  lemma PushKeepsDelivered(s: System, f: Frame)
    requires DeliveredInv(s)
    ensures DeliveredInv(Push(s, f))
  {
    assert forall item :: Genuine(s, item) ==> Genuine(Push(s, f), item);
  }

  lemma PushKeepsConsumer(s: System, f: Frame)
    requires QueueInv(s) && ConsumerInv(s)
    ensures ConsumerInv(Push(s, f))
  {
    hide Genuine;
    PushKeepsGenuine(s, f);
  }

  lemma PushKeepsGenuine(s: System, f: Frame)
    ensures forall item :: Genuine(s, item) ==> Genuine(Push(s, f), item)
  {
  }

  lemma PushKeepsLossless(s: System, f: Frame)
    requires QueueInv(s) && LosslessInv(s)
    ensures LosslessInv(Push(s, f))
  {
    hide Genuine;
  }

  ghost predicate QueueSideInv(s: System) {
    QueueInv(s) && DeliveredInv(s) && ConsumerInv(s) && LosslessInv(s)
  }

  /** What has been parsed so far does not matter to the queue and its consumer. */
  lemma ParserIsIndependent(s: System, samples: seq<seq<byte>>, parser: Parser)
    requires QueueSideInv(s)
    ensures QueueSideInv(s.(samples := samples, parser := parser))
  {
    var t := s.(samples := samples, parser := parser);
    assert forall item :: Genuine(s, item) ==> Genuine(t, item);
  }

  lemma SampleKeepsInv(s: System, bytes: seq<byte>)
    requires Inv(s)
    ensures Inv(Next(s, Sample(bytes)))
  {
    hide Feed;
    hide Valid;
    hide Held;
    hide QueueInv;
    hide DeliveredInv;
    hide ConsumerInv;
    hide LosslessInv;
    var (p, out) := Feed(s.parser, bytes);
    var t := s.(samples := s.samples + [bytes], parser := p);
    assert t.samples[..|t.samples| - 1] == s.samples;
    RunConserves(s.samples);
    FeedConserves(s.parser, bytes);
    ParserIsIndependent(s, t.samples, p);
    if out == [] {
      assert s.pushed + out == s.pushed;
    } else {
      assert out == [out[0]];
      PushKeepsInv(t, out[0]);
    }
  }

  lemma DeleteKeepsInv(s: System)
    requires Inv(s) && s.consumer.Copied?
    ensures Inv(Next(s, Delete))
  {
    hide FeedAll;
    var t := Next(s, Delete);
    assert Head(t) == Head(s) + 1;
    forall i | 0 <= i < |s.delivered| ensures s.delivered[i].tag < Head(t) {
      var last := |s.delivered| - 1;
      assert i < last ==> s.delivered[i].tag < s.delivered[last].tag;
    }
  }

  lemma CopyKeepsInv(s: System)
    requires Inv(s) && s.consumer.Typed?
    ensures Inv(Next(s, Copy))
  {
    hide FeedAll;
    hide QueueInv;
    var t := Next(s, Copy);
    assert t.queue == s.queue && t.pushed == s.pushed;
    assert forall item :: Genuine(s, item) ==> Genuine(t, item);
    QueueInvFrame(s, t);
  }

  lemma QueueInvFrame(s: System, t: System)
    requires QueueInv(s) && t.queue == s.queue && t.pushed == s.pushed
    ensures QueueInv(t)
  {
  }

  lemma PeekKeepsInv(s: System, step: Step)
    requires Inv(s) && (step.Check? || step.Pop? || step.ReadType?)
    ensures Inv(Next(s, step))
  {
  }

  lemma AnnounceKeepsInv(s: System)
    requires Inv(s)
    ensures Inv(Next(s, Announce))
  {
    assert forall item :: Genuine(s, item) ==> Genuine(Next(s, Announce), item);
  }

  lemma StepKeepsInv(s: System, step: Step)
    requires Inv(s)
    ensures Inv(Next(s, step))
  {
    hide Inv;
    match step
    case Sample(bytes) => SampleKeepsInv(s, bytes);
    case Announce => AnnounceKeepsInv(s);
    case Delete => if s.consumer.Copied? { DeleteKeepsInv(s); }
    case Copy => if s.consumer.Typed? { CopyKeepsInv(s); }
    case _ => PeekKeepsInv(s, step);
  }

  lemma {:induction false} RunKeepsInv(steps: seq<Step>)
    ensures Inv(Run(steps))
  {
    if steps != [] {
      RunKeepsInv(steps[..|steps| - 1]);
      StepKeepsInv(Run(steps[..|steps| - 1]), steps[|steps| - 1]);
    }
  }

  // ---------------------------------------------------------------- what every interleaving keeps

  /** The delivered frames are pushed frames, in push order, each at most once. */
  lemma DeliveredInOrder(steps: seq<Step>)
    ensures var s := Run(steps);
      && (forall i | 0 <= i < |s.delivered| ::
            s.delivered[i].tag < |s.pushed| && s.delivered[i].frame == s.pushed[s.delivered[i].tag])
      && (forall i, j | 0 <= i < j < |s.delivered| :: s.delivered[i].tag < s.delivered[j].tag)
  {
    RunKeepsInv(steps);
    var s := Run(steps);
    assert forall i | 0 <= i < |s.delivered| :: Genuine(s, s.delivered[i]);
  }

  /** Step k pushes a frame while thirty are waiting. */
  predicate OverflowsAt(steps: seq<Step>, k: nat)
    requires k < |steps|
  {
    |Run(steps[..k]).queue| == 30 && |Run(steps[..k + 1]).pushed| > |Run(steps[..k]).pushed|
  }

  lemma OverflowStep(s: System, step: Step)
    requires Inv(s)
    ensures Next(s, step).overflowed <==> s.overflowed || (|s.queue| == 30 && |Next(s, step).pushed| > |s.pushed|)
  {
    if step.Sample? { FeedBound(s, step.bytes); }
  }

  lemma {:induction false} OverflowIff(steps: seq<Step>)
    ensures Run(steps).overflowed <==> exists k | 0 <= k < |steps| :: OverflowsAt(steps, k)
  {
    hide Inv;
    hide Next;
    if steps != [] {
      var last, prefix := |steps| - 1, steps[..|steps| - 1];
      OverflowIff(prefix);
      RunKeepsInv(prefix);
      OverflowStep(Run(prefix), steps[last]);
      assert steps[..last + 1] == steps;
      forall k | 0 <= k < last ensures OverflowsAt(prefix, k) <==> OverflowsAt(steps, k) {
        assert prefix[..k] == steps[..k] && prefix[..k + 1] == steps[..k + 1];
      }
      assert OverflowsAt(steps, last) <==> |Run(prefix).queue| == 30 && |Run(steps).pushed| > |Run(prefix).pushed|;
    }
  }

  /** An overflow loses every frame that waits, but for the one in hand; the new frame alone is in the queue. */
  lemma OverflowDropsTheQueue(s: System, bytes: seq<byte>)
    requires Inv(s) && |s.queue| == 30 && |Next(s, Sample(bytes)).pushed| > |s.pushed|
    ensures var t := Next(s, Sample(bytes));
      && |t.queue| == 1 && t.queue[0].tag == |s.pushed| && t.queue[0].frame == t.pushed[|s.pushed|]
      && forall i | 0 <= i < 30 && !Holds(s, s.queue[i].tag) :: Lost(t, s.queue[i].tag)
  {
    hide Feed;
    FeedBound(s, bytes);
    StepKeepsInv(s, Sample(bytes));
    forall i | 0 <= i < 30 && !Holds(s, s.queue[i].tag) ensures Lost(Next(s, Sample(bytes)), s.queue[i].tag) {
      WaitingIsNotDelivered(s, i);
    }
  }

  lemma WaitingIsNotDelivered(s: System, i: nat)
    requires Inv(s) && i < |s.queue| && !Holds(s, s.queue[i].tag)
    ensures forall j | 0 <= j < |s.delivered| :: s.delivered[j].tag != s.queue[i].tag
  {
    hide FeedAll;
    hide LosslessInv;
    var last := |s.delivered| - 1;
    assert forall j | 0 <= j < last :: s.delivered[j].tag < s.delivered[last].tag;
  }

  /** Unless the queue overflows, nothing is lost: delivered and waiting frames are the pushed ones, in order. */
  lemma LosslessWithoutOverflow(steps: seq<Step>)
    requires forall k | 0 <= k < |steps| :: !OverflowsAt(steps, k)
    ensures var s := Run(steps);
      && |s.delivered| <= |s.pushed|
      && (forall i | 0 <= i < |s.delivered| :: s.delivered[i].frame == s.pushed[i])
      && (!s.consumer.Copied? ==>
            && |s.delivered| + |s.queue| == |s.pushed|
            && forall i | 0 <= i < |s.queue| :: s.queue[i].frame == s.pushed[|s.delivered| + i])
  {
    hide FeedAll;
    hide DeliveredInv;
    hide OverflowsAt;
    hide Next;
    OverflowIff(steps);
    RunKeepsInv(steps);
    DeliveredInOrder(steps);
    var s := Run(steps);
    assert forall i | 0 <= i < |s.queue| :: Genuine(s, s.queue[i]);
  }

  /** The unlocked check is enough: by the time of the peek there is still a frame. */
  lemma PopNeverFindsNothing(steps: seq<Step>)
    requires Run(steps).consumer.Checked?
    ensures Run(steps).queue != [] && Run(steps + [Pop]).consumer == Popped(Run(steps).queue[0])
  {
    RunKeepsInv(steps);
    assert (steps + [Pop])[..|steps|] == steps;
  }

  predicate InTheMiddle(s: System) {
    s.consumer.Popped? || s.consumer.Typed? || s.consumer.Copied?
  }

  /** Step k is the peek the consumer has not finished with since. */
  ghost predicate IsPeek(steps: seq<Step>, k: nat) {
    && k < |steps| && steps[k].Pop? && Run(steps[..k]).consumer.Checked?
    && forall j | k < j <= |steps| :: InTheMiddle(Run(steps[..j]))
  }

  lemma TakenByPop(s: System, step: Step)
    requires !InTheMiddle(s) && InTheMiddle(Next(s, step))
    ensures step.Pop? && s.consumer.Checked?
  {
    hide Feed;
  }

  /** The peek records what it saw, and nothing else changes the record while the frame is in hand. */
  lemma RecordKept(s: System, step: Step)
    ensures InTheMiddle(s) ==>
      Next(s, step).queuedAtPeek == s.queuedAtPeek && Next(s, step).pushedAtPeek == s.pushedAtPeek
    ensures step.Pop? && s.consumer.Checked? && s.queue != [] ==>
      Next(s, step).queuedAtPeek == |s.queue| && Next(s, step).pushedAtPeek == |s.pushed|
  {
    hide Feed;
  }

  /** A frame in hand has been peeked at some step. */
  lemma {:induction false} PeekExists(steps: seq<Step>)
    requires InTheMiddle(Run(steps))
    ensures exists k: nat :: IsPeek(steps, k)
  {
    hide Next;
    var last, prefix := |steps| - 1, steps[..|steps| - 1];
    assert steps[..|steps|] == steps;
    if InTheMiddle(Run(prefix)) {
      PeekExists(prefix);
      var k: nat :| IsPeek(prefix, k);
      forall j | k < j <= |steps| ensures InTheMiddle(Run(steps[..j])) {
        if j <= last { assert prefix[..j] == steps[..j]; }
      }
      assert prefix[..k] == steps[..k];
      assert IsPeek(steps, k);
    } else {
      TakenByPop(Run(prefix), steps[last]);
      assert IsPeek(steps, last);
    }
  }

  lemma {:induction false} PeekIsRecorded(steps: seq<Step>, k: nat)
    requires IsPeek(steps, k)
    ensures Run(steps).queuedAtPeek == |Run(steps[..k]).queue|
    ensures Run(steps).pushedAtPeek == |Run(steps[..k]).pushed|
  {
    hide Next;
    hide Inv;
    var last, prefix := |steps| - 1, steps[..|steps| - 1];
    RecordKept(Run(prefix), steps[last]);
    if k < last {
      forall j | k < j <= last ensures InTheMiddle(Run(prefix[..j])) { assert prefix[..j] == steps[..j]; }
      assert prefix[..k] == steps[..k] && prefix[..last] == prefix;
      PeekIsRecorded(prefix, k);
    } else {
      RunKeepsInv(prefix);
      CheckedMeansQueued(Run(prefix));
    }
  }

  lemma CheckedMeansQueued(s: System)
    requires Inv(s) && s.consumer.Checked?
    ensures s.queue != []
  {
  }

  /**
   * The deletion that follows a delivery removes the delivered frame if and only if the frames queued at the
   * peek and those pushed since fit into the queue; otherwise it removes a later frame, which is then never
   * delivered.
   */
  lemma DeleteRemovesTheDeliveredIff(steps: seq<Step>, k: nat)
    requires IsPeek(steps, k) && Run(steps).consumer.Copied?
    ensures var peek, s := Run(steps[..k]), Run(steps);
      var fits := |peek.queue| + (|s.pushed| - |peek.pushed|) <= 30;
      && s.queue != []
      && (s.queue[0] == s.consumer.item <==> fits)
      && (!fits ==> forall i | 0 <= i < |s.delivered| :: s.delivered[i].tag < s.queue[0].tag)
      && Run(steps + [Delete]).queue == s.queue[1..]
  {
    hide Inv;
    hide Next;
    RunKeepsInv(steps);
    PeekIsRecorded(steps, k);
    AtDeletion(Run(steps));
    OneMore(steps, Delete);
    DeleteIsDeleted(Run(steps));
  }

  lemma DeleteIsDeleted(s: System)
    requires s.consumer.Copied? && s.queue != []
    ensures Next(s, Delete).queue == s.queue[1..]
  {
  }

  lemma AtDeletion(s: System)
    requires Inv(s) && s.consumer.Copied?
    ensures s.queue != []
    ensures s.queue[0] == s.consumer.item <==> !Raced(s)
    ensures Raced(s) ==> forall i | 0 <= i < |s.delivered| :: s.delivered[i].tag < s.queue[0].tag
  {
    hide FeedAll;
    hide LosslessInv;
    assert Genuine(s, s.queue[0]) && s.queue[0].tag == Head(s);
    var last := |s.delivered| - 1;
    assert forall i | 0 <= i < last :: s.delivered[i].tag < s.delivered[last].tag;
  }

  // ---------------------------------------------------------------- a run in which they do not fit

  const BLANK := Frame([0, 0, 0, 0, 0, 0, 0, 0], [])

  /** A sample that is one whole empty frame. */
  const BLANK_SAMPLE := Sample([0, 0, 0, 0, 0, 0, 0, 0, 0, 0, 0, 0])

  function Blanks(n: nat): seq<Step> {
    if n == 0 then [] else Blanks(n - 1) + [BLANK_SAMPLE]
  }

  lemma {:induction false} BlanksLength(n: nat)
    ensures |Blanks(n)| == n
  {
    if n > 0 { BlanksLength(n - 1); }
  }

  lemma OneBlank(s: System)
    requires s.parser == START
    ensures Next(s, BLANK_SAMPLE) == Push(s.(samples := s.samples + [BLANK_SAMPLE.bytes]), BLANK)
  {
    var bytes := BLANK_SAMPLE.bytes;
    var p0 := START.(buffer := START.buffer + bytes);
    assert p0.buffer == bytes && bytes[..8] == BLANK.pts && bytes[8..] == [0, 0, 0, 0];
    assert LittleEndian([0, 0, 0, 0]) == 0;
    assert [0, 0, 0, 0][..4] == [0, 0, 0, 0] && [0, 0, 0, 0][4..] == [];
    assert TakeSize(TakeStamp(p0)) == Parser([], Data(BLANK.pts, 0));
  }

  /** A queue being filled while the consumer is idle. */
  lemma {:induction false} Filling(n: nat)
    requires n <= MAX_QUEUESIZE
    ensures var s := Run(Blanks(n));
      && s.parser == START && s.consumer.Idle? && s.streamType == 0
      && |s.queue| == |s.pushed| == n && s.delivered == []
  {
    hide Next;
    if n > 0 {
      Filling(n - 1);
      OneMore(Blanks(n - 1), BLANK_SAMPLE);
      OneBlank(Run(Blanks(n - 1)));
    }
  }

  /** Thirty frames, a peek, one more frame, and the frame peeked at is delivered: the deletion takes another. */
  lemma SomeDeleteRemovesAnother()
    ensures var steps := Blanks(MAX_QUEUESIZE) + [Announce, Check, Pop, BLANK_SAMPLE, ReadType, Copy];
      var s := Run(steps);
      && s.consumer.Copied? && IsPeek(steps, MAX_QUEUESIZE + 2)
      && s.queue != [] && s.queue[0] != s.consumer.item
  {
    hide Next;
    var full := Blanks(MAX_QUEUESIZE);
    Filling(MAX_QUEUESIZE);
    BlanksLength(MAX_QUEUESIZE);
    FirstIsZero(full);
    Race(Run(full));
    var r1 := full + [Announce];
    var r2 := r1 + [Check];
    var r3 := r2 + [Pop];
    var r4 := r3 + [BLANK_SAMPLE];
    var r5 := r4 + [ReadType];
    var steps := r5 + [Copy];
    OneMore(full, Announce); OneMore(r1, Check); OneMore(r2, Pop);
    OneMore(r3, BLANK_SAMPLE); OneMore(r4, ReadType); OneMore(r5, Copy);
    var k := MAX_QUEUESIZE + 2;
    assert steps[..k] == r2 && steps[..k + 1] == r3 && steps[..k + 2] == r4 && steps[..k + 3] == r5;
    assert steps[..k + 4] == steps == full + [Announce, Check, Pop, BLANK_SAMPLE, ReadType, Copy];
  }

  lemma FirstIsZero(steps: seq<Step>)
    requires Run(steps).queue != [] && |Run(steps).queue| == |Run(steps).pushed|
    ensures Run(steps).queue[0].tag == 0
  {
    hide FeedAll;
    RunKeepsInv(steps);
  }

  lemma Race(s: System)
    requires s.parser == START && s.consumer.Idle?
    requires |s.queue| == |s.pushed| == MAX_QUEUESIZE && s.queue[0].tag == 0
    ensures var s2 := Next(Next(s, Announce), Check);
      var s3 := Next(s2, Pop);
      var s4 := Next(s3, BLANK_SAMPLE);
      var s5 := Next(s4, ReadType);
      var s6 := Next(s5, Copy);
      && s2.consumer.Checked? && InTheMiddle(s3) && InTheMiddle(s4) && InTheMiddle(s5) && s6.consumer.Copied?
      && s6.queue != [] && s6.queue[0] != s6.consumer.item
  {
    hide Feed;
    OneBlank(Next(Next(Next(s, Announce), Check), Pop));
  }

  lemma OneMore(steps: seq<Step>, step: Step)
    ensures Run(steps + [step]) == Next(Run(steps), step)
  {
    hide Next;
    assert (steps + [step])[..|steps|] == steps;
  }

  // ---------------------------------------------------------------- lost frames

  /** Frame number `tag` is in the consumer's hand. */
  predicate Holds(s: System, tag: nat) {
    match s.consumer
    case Popped(item) => item.tag == tag
    case Typed(item, _) => item.tag == tag
    case Copied(item) => item.tag == tag
    case _ => false
  }

  /** Frame number `tag` has left the queue, and neither been delivered nor been taken in hand. */
  ghost predicate Lost(s: System, tag: nat) {
    && tag < Head(s) && !Holds(s, tag)
    && forall i | 0 <= i < |s.delivered| :: s.delivered[i].tag != tag
  }

  lemma LostStep(s: System, step: Step, tag: nat)
    requires Inv(s) && Lost(s, tag)
    ensures Lost(Next(s, step), tag)
  {
    HeadGrows(s, step);
    if step.Sample? {
      hide Feed;
      FeedBound(s, step.bytes);
    }
  }

  /** A lost frame is never delivered later. */
  lemma {:induction false} LostForever(steps: seq<Step>, more: seq<Step>, tag: nat)
    requires Lost(Run(steps), tag)
    ensures Lost(Run(steps + more), tag)
  {
    hide Lost;
    hide Next;
    if more == [] {
      assert steps + more == steps;
    } else {
      var prefix := more[..|more| - 1];
      assert (steps + more)[..|steps + more| - 1] == steps + prefix;
      LostForever(steps, prefix, tag);
      RunKeepsInv(steps + prefix);
      LostStep(Run(steps + prefix), more[|more| - 1], tag);
    }
  }

  lemma HeadGrows(s: System, step: Step)
    requires Inv(s)
    ensures Head(s) <= Head(Next(s, step))
  {
    if step.Sample? {
      FeedBound(s, step.bytes);
    }
  }

  lemma FeedBound(s: System, bytes: seq<byte>)
    requires Inv(s)
    ensures |Feed(s.parser, bytes).1| <= 1
  {
    RunConserves(s.samples);
    FeedConserves(s.parser, bytes);
  }

  /**
   * From end to end: when the samples are the bytes of a list of frames, cut anywhere, every frame
   * delivered is the frame of that number in the list, and the numbers rise.
   */
  lemma EndToEnd(steps: seq<Step>, frames: seq<Frame>, missing: seq<byte>)
    requires AllEncodable(frames) && Concat(Run(steps).samples) + missing == EncodeAll(frames)
    ensures var s := Run(steps);
      && s.pushed <= frames
      && (forall i | 0 <= i < |s.delivered| ::
            s.delivered[i].tag < |frames| && s.delivered[i].frame == frames[s.delivered[i].tag])
      && (forall i, j | 0 <= i < j < |s.delivered| :: s.delivered[i].tag < s.delivered[j].tag)
  {
    RunKeepsInv(steps);
    DeliveredInOrder(steps);
    EveryChunkingPushesAPrefix(frames, Run(steps).samples, missing);
  }

  // ---------------------------------------------------------------- the records handed to the upper protocol

  datatype Record = Record(header: byte, timestamp: nat, data: seq<byte>)

  /** The record of a delivered frame: its time stamp in microseconds, and its payload. */
  function RecordOf(streamType: nat, f: Frame): Record {
    Record(if streamType == 1 then 0 else 1, Milliseconds(f.pts) * 1000, f.data[..|f.data| % UINT32])
  }

  /** The 32-bit length field, which counts the header byte and the time stamp too. */
  function LengthField(f: Frame): nat {
    (|f.data| % UINT32 + 9) % UINT32
  }

  function RecordBytes(streamType: nat, f: Frame): seq<byte> {
    var r := RecordOf(streamType, f);
    BigEndianBytes(LengthField(f), 4) + [r.header] + BigEndianBytes(r.timestamp % Power256(8), 8) + r.data
  }

  function Output(streamType: nat, frames: seq<Frame>): seq<byte> {
    if frames == [] then [] else RecordBytes(streamType, frames[0]) + Output(streamType, frames[1..])
  }

  /** Reading the records back: length, header, time stamp, payload. */
  function ReadRecords(s: seq<byte>): seq<Record>
    decreases |s|
  {
    if |s| < 13 then []
    else
      var length := BigEndian(s[..4]);
      if length < 9 || |s| < 4 + length then []
      else [Record(s[4], BigEndian(s[5..13]), s[13..4 + length])] + ReadRecords(s[4 + length..])
  }

  predicate LengthFits(f: Frame) {
    |f.data| % UINT32 + 9 < UINT32
  }

  predicate AreStamped(frames: seq<Frame>) {
    forall k | 0 <= k < |frames| :: |frames[k].pts| == TIMESTAMP_SIZE
  }

  function Records(streamType: nat, frames: seq<Frame>): (r: seq<Record>)
    ensures |r| == |frames|
  {
    if frames == [] then [] else [RecordOf(streamType, frames[0])] + Records(streamType, frames[1..])
  }

  /** The records of a list of frames can be read back one by one exactly if no length field wraps. */
  lemma {:induction false} RecordsReadBackIff(streamType: nat, frames: seq<Frame>)
    requires AreStamped(frames)
    ensures ReadRecords(Output(streamType, frames)) == Records(streamType, frames) <==>
            forall k | 0 <= k < |frames| :: LengthFits(frames[k])
    ensures |ReadRecords(Output(streamType, frames))| <= |frames|
  {
    hide RecordBytes;
    hide RecordOf;
    hide ReadRecords;
    hide LengthFits;
    if frames == [] {
      NothingToRead();
    } else {
      var rest := Output(streamType, frames[1..]);
      RecordsReadBackIff(streamType, frames[1..]);
      if LengthFits(frames[0]) {
        OneRecord(streamType, frames[0], rest);
        SameTail(RecordOf(streamType, frames[0]), ReadRecords(rest), Records(streamType, frames[1..]));
      } else {
        WrappedRecord(streamType, frames[0], rest);
      }
      assert forall k | 1 <= k < |frames| :: frames[k] == frames[1..][k - 1];
      assert forall k | 0 <= k < |frames| - 1 :: frames[1..][k] == frames[k + 1];
    }
  }

  /**
   * The k-th record read back: the header says video for stream type 1 and audio for 3 and 10, the time stamp
   * is that of the frame in whole milliseconds, counted in microseconds, and the data are those of the frame.
   */
  lemma {:induction false} RecordsAreTheFrames(streamType: nat, frames: seq<Frame>, k: nat)
    requires k < |frames| && streamType in {1, 3, 10}
    requires AreStamped(frames) && forall j | 0 <= j < |frames| :: LengthFits(frames[j])
    ensures var rs := ReadRecords(Output(streamType, frames));
      && |rs| == |frames|
      && (streamType == 1 ==> rs[k].header == 0)
      && (streamType == 3 || streamType == 10 ==> rs[k].header == 1)
      && rs[k].timestamp == LittleEndian(frames[k].pts) / 1000000 * 1000
      && rs[k].data == frames[k].data[..|frames[k].data| % 0x1_0000_0000]
      && (|frames[k].data| < 0x1_0000_0000 ==> rs[k].data == frames[k].data)
  {
    hide ReadRecords;
    hide Output;
    RecordsReadBackIff(streamType, frames);
    RecordsAt(streamType, frames, k);
  }

  lemma {:induction false} RecordsAt(streamType: nat, frames: seq<Frame>, k: nat)
    requires k < |frames|
    ensures Records(streamType, frames)[k] == RecordOf(streamType, frames[k])
  {
    hide RecordOf;
    if k > 0 { RecordsAt(streamType, frames[1..], k - 1); }
  }

  lemma SameTail(r: Record, a: seq<Record>, b: seq<Record>)
    ensures [r] + a == [r] + b <==> a == b
  {
    assert ([r] + a)[1..] == a && ([r] + b)[1..] == b;
  }

  lemma NothingToRead()
    ensures ReadRecords([]) == []
  {
  }

  /** A length field that wraps is too small for what it has to count, and nothing is read from there on. */
  lemma WrappedRecord(streamType: nat, f: Frame, rest: seq<byte>)
    requires |f.pts| == TIMESTAMP_SIZE && !LengthFits(f)
    ensures ReadRecords(RecordBytes(streamType, f) + rest) == []
  {
    hide BigEndianBytes;
    hide BigEndian;
    var s := RecordBytes(streamType, f) + rest;
    FourBytes();
    assert s[..4] == BigEndianBytes(LengthField(f), 4);
    BigEndianRoundTrip(LengthField(f), 4);
  }

  lemma OneRecord(streamType: nat, f: Frame, rest: seq<byte>)
    requires |f.pts| == TIMESTAMP_SIZE && LengthFits(f)
    ensures ReadRecords(RecordBytes(streamType, f) + rest) == [RecordOf(streamType, f)] + ReadRecords(rest)
  {
    hide BigEndianBytes;
    hide BigEndian;
    var r, s := RecordOf(streamType, f), RecordBytes(streamType, f) + rest;
    var length := |r.data| + 9;
    TimestampFits(f);
    FourBytes();
    assert s[..4] == BigEndianBytes(length, 4);
    BigEndianRoundTrip(length, 4);
    assert s[5..13] == BigEndianBytes(r.timestamp, 8);
    BigEndianRoundTrip(r.timestamp, 8);
    assert s[13..4 + length] == r.data;
    assert s[4 + length..] == rest;
  }

  lemma FourBytes()
    ensures Power256(4) == UINT32
  {
  }

  lemma TimestampFits(f: Frame)
    requires |f.pts| == TIMESTAMP_SIZE
    ensures Milliseconds(f.pts) * 1000 < Power256(8)
    ensures Milliseconds(f.pts) * 1000 % Power256(8) == Milliseconds(f.pts) * 1000
  {
    LittleEndianBytesRoundTrip(f.pts);
  }
}
