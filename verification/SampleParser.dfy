/** The camera callback: the framing state machine of FrameParser, with its flags and buffers, feeding the queue. */
module SampleParser {
  import opened Bytes
  import FrameParser
  import opened FrameQueue

  class CameraCallback {
    var videobuffer: seq<byte>
    var absolutetimeFlag: bool
    var mapsizeFlag: bool
    var mapdataFlag: bool
    var mapsize: nat
    const frameTimestamp: array<byte>

    constructor ()
      ensures Valid() && State() == FrameParser.START && fresh(frameTimestamp)
    {
      videobuffer := [];
      absolutetimeFlag, mapsizeFlag, mapdataFlag := true, false, false;
      mapsize := 0;
      frameTimestamp := new byte[TIMESTAMP_SIZE];
    }

    /** Exactly one of the three flags is set. */
    ghost predicate Valid()
      reads this
    {
      && frameTimestamp.Length == TIMESTAMP_SIZE
      && (absolutetimeFlag || mapsizeFlag || mapdataFlag)
      && !(absolutetimeFlag && mapsizeFlag) && !(mapsizeFlag && mapdataFlag) && !(absolutetimeFlag && mapdataFlag)
    }

    ghost function State(): FrameParser.Parser
      reads this, frameTimestamp
    {
      FrameParser.Parser(videobuffer,
        if absolutetimeFlag then FrameParser.Stamp
        else if mapsizeFlag then FrameParser.Size(frameTimestamp[..])
        else FrameParser.Data(frameTimestamp[..], mapsize))
    }

    /** The first step: the time stamp. */
    method TakeStamp()
      requires Valid()
      modifies `videobuffer, `absolutetimeFlag, `mapsizeFlag, frameTimestamp
      ensures Valid() && State() == FrameParser.TakeStamp(old(State()))
    {
      if |videobuffer| >= FrameParser.ABSOLUTETIME_LENGTH && absolutetimeFlag {
        for i := 0 to TIMESTAMP_SIZE
          invariant unchanged(this) && frameTimestamp[..i] == videobuffer[..i]
        {
          frameTimestamp[i] := videobuffer[i];
        }
        assert frameTimestamp[..] == frameTimestamp[..TIMESTAMP_SIZE];
        videobuffer := videobuffer[FrameParser.ABSOLUTETIME_LENGTH..];
        absolutetimeFlag, mapsizeFlag := false, true;
      }
    }

    /** The second step: the length. */
    method TakeSize()
      requires Valid()
      modifies `videobuffer, `mapsize, `mapsizeFlag, `mapdataFlag
      ensures Valid() && State() == FrameParser.TakeSize(old(State()))
    {
      if |videobuffer| >= FrameParser.MAPLENGTH && mapsizeFlag {
        mapsize := LittleEndian(videobuffer[..FrameParser.MAPLENGTH]);
        videobuffer := videobuffer[FrameParser.MAPLENGTH..];
        mapsizeFlag, mapdataFlag := false, true;
      }
    }

    /** Hand the first mapsize bytes over to the queue. */
    method Submit(q: Queue)
      requires Valid() && q.Valid() && frameTimestamp !in q.Blocks() && mapsize <= |videobuffer|
      modifies q`pushIndex, q.buffers, q.stamps, q.sizes
      ensures q.Valid() && frameTimestamp !in q.Blocks() && frameTimestamp[..] == old(frameTimestamp[..])
      ensures q.Contents() == Pushed(old(q.Contents()), FrameParser.Frame(frameTimestamp[..], videobuffer[..mapsize]))
    {
      hide Queue.Contents;
      hide Queue.FrameAt;
      hide Queue.Prefix;
      hide Pushed;
      var frameBuffer := Allocate(videobuffer[..mapsize]);
      assert frameBuffer[..mapsize] == videobuffer[..mapsize];
      assert frameTimestamp[..TIMESTAMP_SIZE] == frameTimestamp[..];
      q.PushBuffer(mapsize, frameBuffer, frameTimestamp);
    }

    /** The third step: the payload, which goes to the queue as a frame. */
    method TakeData(q: Queue)
      requires Valid() && q.Valid() && frameTimestamp !in q.Blocks()
      modifies `videobuffer, `absolutetimeFlag, `mapdataFlag, q`pushIndex, q.buffers, q.stamps, q.sizes
      ensures Valid() && State() == FrameParser.TakeData(old(State())).0
      ensures q.Valid() && q.Contents() == PushedAll(old(q.Contents()), FrameParser.TakeData(old(State())).1)
      ensures frameTimestamp !in q.Blocks()
    {
      hide PushedAll;
      hide Pushed;
      hide Queue.Contents;
      hide Queue.FrameAt;
      hide Queue.Prefix;
      PushedOne(q.Contents(), FrameParser.Frame([], []));
      if |videobuffer| >= mapsize && mapdataFlag {
        PushedOne(q.Contents(), FrameParser.Frame(frameTimestamp[..], videobuffer[..mapsize]));
        Submit(q);
        videobuffer := videobuffer[mapsize..];
        absolutetimeFlag, mapdataFlag := true, false;
      }
    }

    /** on_new_sample, with a mutex that can always be taken and no stop request pending. */
    method OnNewSample(q: Queue, sample: seq<byte>)
      requires Valid() && q.Valid() && frameTimestamp !in q.Blocks()
      modifies this, frameTimestamp, q`pushIndex, q.buffers, q.stamps, q.sizes
      ensures Valid() && State() == FrameParser.Feed(old(State()), sample).0
      ensures q.Valid() && q.Contents() == PushedAll(old(q.Contents()), FrameParser.Feed(old(State()), sample).1)
      ensures frameTimestamp !in q.Blocks()
    {
      hide FrameParser.TakeStamp;
      hide FrameParser.TakeSize;
      hide FrameParser.TakeData;
      hide PushedAll;
      ghost var contents := q.Contents();
      videobuffer := videobuffer + sample;
      TakeStamp();
      TakeSize();
      assert q.Valid() && q.Contents() == contents;
      TakeData(q);
    }
  }

  lemma PushedOne(q: seq<FrameParser.Frame>, f: FrameParser.Frame)
    ensures PushedAll(q, [f]) == Pushed(q, f)
    ensures PushedAll(q, []) == q
  {
    assert [f][..0] == [];
  }
}
