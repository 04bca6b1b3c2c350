/** The picture queue and the frame timer of the player (amffmpeg/ffplay.c). The decoder thread queues and
    flushes pictures, the main thread shows and pops them, and either may toggle the pause. Every lock
    region is one step; so are the toggle and each unlocked access of the queue. Clocks are exact reals. */
module PlayerTiming {
  import opened Wrappers

  const QUEUE_SIZE := 2
  const NOPTS := -9223372036854775808.0
  const SYNC_THRESHOLD := 0.01
  const NOSYNC_THRESHOLD := 10.0

  datatype Picture = Picture(pts: real, target: real)

  /** Where the decoder thread is. A new thread first finds a flush packet in its queue. */
  datatype Decoder =
    | Starting
    | Idle
    | Waiting(pts: real)  // for room in the queue
    | Writing(pts: real)  // filling the slot at the write index
    | Advanced(pts: real) // past the write index, before the lock
    | FlushWait           // for the queue to run empty
    | FlushReset
    | Stopped

  /** Where the main thread is in `video_refresh`. */
  datatype Refresh = NotShowing | Showing | Popping // past the read index, before the lock

  /** `queue` holds the pictures from the read index on. A picture being popped counts in `pictq_size` only. */
  datatype State = State(
    queue: seq<Picture>,
    frameTimer: real, frameLastPts: real, frameLastDelay: real, videoClock: real,
    currentPts: real, drift: real, paused: bool,
    abort: bool, decoder: Decoder, refresh: Refresh,
    now: real)
  {
    function Size(): nat {
      |queue| + if refresh.Popping? then 1 else 0
    }
  }

  /** `slave` says that the video follows another clock, and `diff` is how far ahead of it the video is. */
  datatype Event =
    | Packet(pts1: real, frameDelay: real)
    | Room
    | WriteSlot
    | Push(slave: bool, diff: real)
    | FlushBegin
    | FlushEmpty
    | FlushEnd(t: real)
    | Abort
    | Stop
    | Reopen
    | Show(t: real)
    | PopIndex
    | PopSize
    | Toggle(t1: real, t2: real, t3: real, pauseUnsupported: bool)

  function Init(now: real): State {
    State([], 0.0, 0.0, 0.0, 0.0, 0.0, 0.0, false, false, Starting, NotShowing, now)
  }

  predicate Enabled(s: State, e: Event) {
    match e
    case Packet(_, _) => s.decoder.Idle? && !s.abort
    case Room => s.decoder.Waiting? && (s.Size() < QUEUE_SIZE || s.abort)
    case WriteSlot => s.decoder.Writing?
    case Push(_, _) => s.decoder.Advanced?
    case FlushBegin => (s.decoder.Idle? || s.decoder.Starting?) && !s.abort
    case FlushEmpty => s.decoder.FlushWait? && (s.Size() == 0 || s.abort)
    case FlushEnd(t) => s.decoder.FlushReset? && s.now <= t
    case Abort => true
    case Stop => (s.decoder.Idle? || s.decoder.Starting? || s.decoder.Writing?) && s.abort
    case Reopen => s.decoder.Stopped?
    case Show(t) => s.refresh.NotShowing? && s.Size() > 0 && s.now <= t && s.queue[0].target <= t
    case PopIndex => s.refresh.Showing? && s.queue != []
    case PopSize => s.refresh.Popping?
    case Toggle(t1, t2, t3, _) => s.now <= t1 <= t2 <= t3
  }

  function Max(x: real, y: real): real {
    if x > y then x else y
  }

  /** The nominal delay of a picture: an implausible one is replaced by the one before. */
  function NominalDelay(s: State, pts: real): real {
    var delay := pts - s.frameLastPts;
    if delay <= 0.0 || delay >= 10.0 then s.frameLastDelay else delay
  }

  /** The delay after the correction towards the master clock. */
  function Corrected(delay: real, slave: bool, diff: real): real {
    var threshold := Max(SYNC_THRESHOLD, delay);
    if slave && -NOSYNC_THRESHOLD < diff < NOSYNC_THRESHOLD then
      if diff <= -threshold then 0.0 else if diff >= threshold then 2.0 * delay else delay
    else delay
  }

  /** The correction is towards the master: a slave that is behind never waits longer than the nominal delay,
      and one that is ahead never shorter. */
  lemma CorrectedTowardsMaster(delay: real, slave: bool, diff: real)
    requires 0.0 <= delay
    ensures diff <= 0.0 ==> 0.0 <= Corrected(delay, slave, diff) <= delay
    ensures diff >= 0.0 ==> delay <= Corrected(delay, slave, diff) <= 2.0 * delay
    ensures slave && -10.0 < diff <= -0.01 && diff <= -delay ==> Corrected(delay, slave, diff) == 0.0
    ensures slave && 0.01 <= diff < 10.0 && delay <= diff ==> Corrected(delay, slave, diff) == 2.0 * delay
    ensures !slave || diff <= -10.0 || 10.0 <= diff || -0.01 < diff < 0.01 || -delay < diff < delay
            ==> Corrected(delay, slave, diff) == delay
  {
  }

  function Flushed(queue: seq<Picture>): (r: seq<Picture>)
    ensures |r| == |queue|
  {
    seq(|queue|, i requires 0 <= i < |queue| => queue[i].(target := 0.0))
  }

  function Step(s: State, e: Event): State
    requires Enabled(s, e)
  {
    match e
    case Packet(pts1, frameDelay) =>
      var pts := if pts1 != 0.0 then pts1 else s.videoClock;
      s.(decoder := Waiting(pts), videoClock := pts + frameDelay)
    case Room => if s.abort then s.(decoder := Stopped) else s.(decoder := Writing(s.decoder.pts))
    case WriteSlot => s.(decoder := Advanced(s.decoder.pts))
    case Push(slave, diff) =>
      var pts := s.decoder.pts;
      var nominal := NominalDelay(s, pts);
      var target := s.frameTimer + Corrected(nominal, slave, diff);
      s.(queue := s.queue + [Picture(pts, target)], decoder := Idle,
         frameTimer := target, frameLastPts := pts, frameLastDelay := nominal)
    case FlushBegin => s.(queue := Flushed(s.queue), decoder := FlushWait)
    case FlushEmpty => s.(decoder := FlushReset)
    case FlushEnd(t) => s.(decoder := Idle, frameLastPts := NOPTS, frameLastDelay := 0.0, frameTimer := t, now := t)
    case Abort => s.(abort := true)
    case Stop => s.(decoder := Stopped)
    case Reopen => s.(decoder := Starting, abort := false)
    case Show(t) => s.(refresh := Showing, currentPts := s.queue[0].pts, drift := s.queue[0].pts - t, now := t)
    case PopIndex => s.(refresh := Popping, queue := s.queue[1..])
    case PopSize => s.(refresh := NotShowing)
    case Toggle(t1, t2, t3, pauseUnsupported) =>
      if !s.paused then s.(paused := true, now := t3) else
      var currentPts := if pauseUnsupported then s.currentPts else s.drift + t2;
      s.(paused := false, frameTimer := s.frameTimer + (t1 + s.drift - s.currentPts),
         currentPts := currentPts, drift := currentPts - t3, now := t3)
  }

  ghost predicate Ascending(queue: seq<Picture>) {
    forall i, j :: 0 <= i < j < |queue| ==> queue[i].target <= queue[j].target
  }

  ghost predicate Inv(s: State) {
    // target clocks are non-decreasing from the read index on, and the frame timer is past them all
    && Ascending(s.queue)
    && (forall p :: p in s.queue ==> 0.0 <= p.target <= s.frameTimer)
    && 0.0 <= s.frameTimer && 0.0 <= s.frameLastDelay
    // the picture on show was shown at a time already past
    && 0.0 <= s.now && s.currentPts - s.drift <= s.now
    // the queue has room for the picture that the decoder is about to add
    && s.Size() + (if s.decoder.Writing? || s.decoder.Advanced? then 1 else 0) <= QUEUE_SIZE
    && (s.refresh.Showing? ==> s.queue != [])
    && (s.decoder.FlushWait? || s.decoder.FlushReset? ==> forall p :: p in s.queue ==> p.target == 0.0)
  }

  lemma PushKeepsInv(s: State, slave: bool, diff: real)
    requires Inv(s) && Enabled(s, Push(slave, diff))
    ensures Inv(Step(s, Push(slave, diff)))
  {
    assert 0.0 <= NominalDelay(s, s.decoder.pts);
    assert 0.0 <= Corrected(NominalDelay(s, s.decoder.pts), slave, diff);
  }

  lemma PopKeepsInv(s: State)
    requires Inv(s) && Enabled(s, PopIndex)
    ensures Inv(Step(s, PopIndex))
  {
    assert forall p :: p in s.queue[1..] ==> p in s.queue;
  }

  lemma FlushKeepsInv(s: State)
    requires Inv(s) && Enabled(s, FlushBegin)
    ensures Inv(Step(s, FlushBegin))
  {
  }

  lemma DecoderKeepsInv(s: State, e: Event)
    requires Inv(s) && Enabled(s, e)
    requires e.Packet? || e.Room? || e.WriteSlot? || e.FlushEmpty? || e.FlushEnd? || e.Abort? || e.Stop? || e.Reopen?
    ensures Inv(Step(s, e))
  {
  }

  lemma RefreshKeepsInv(s: State, e: Event)
    requires Inv(s) && Enabled(s, e) && (e.Show? || e.PopSize? || e.Toggle?)
    ensures Inv(Step(s, e))
  {
  }

  lemma StepKeepsInv(s: State, e: Event)
    requires Inv(s) && Enabled(s, e)
    ensures Inv(Step(s, e))
  {
    match e
    case Push(slave, diff) => PushKeepsInv(s, slave, diff);
    case PopIndex => PopKeepsInv(s);
    case FlushBegin => FlushKeepsInv(s);
    case Show(_) => RefreshKeepsInv(s, e);
    case PopSize => RefreshKeepsInv(s, e);
    case Toggle(_, _, _, _) => RefreshKeepsInv(s, e);
    case _ => DecoderKeepsInv(s, e);
  }

  /** The state after a run of events from `s`, if each was possible in its turn. */
  function Run(s: State, events: seq<Event>): Option<State> {
    if events == [] then Some(s) else
    var before := Run(s, events[..|events| - 1]);
    if before.Some? && Enabled(before.value, events[|events| - 1]) then Some(Step(before.value, events[|events| - 1]))
    else None
  }

  lemma {:induction false} RunKeepsInv(s: State, events: seq<Event>)
    requires Inv(s) && Run(s, events).Some?
    ensures Inv(Run(s, events).value)
  {
    if events != [] {
      RunKeepsInv(s, events[..|events| - 1]);
      StepKeepsInv(Run(s, events[..|events| - 1]).value, events[|events| - 1]);
    }
  }

  /** What may happen while the main thread is between two reads: anything but its own steps. */
  predicate Concurrent(events: seq<Event>) {
    forall e :: e in events ==> !e.Show? && !e.PopIndex? && !e.PopSize?
  }

  lemma BetweenReads(s: State, e: Event)
    requires Inv(s) && s.refresh.Showing? && |s.queue| > 1 && Concurrent([e]) && Enabled(s, e)
    ensures Step(s, e).refresh.Showing?
    ensures Step(s, e).queue == if e.FlushBegin? then Flushed(s.queue) else s.queue
  {
    assert e in [e];
  }

  /** Meanwhile the queue changes by a flush only. */
  lemma {:induction false} QueueWhileShowing(s: State, events: seq<Event>)
    requires Inv(s) && s.refresh.Showing? && |s.queue| > 1 && Concurrent(events) && Run(s, events).Some?
    ensures var t := Run(s, events).value;
            && Inv(t) && t.refresh.Showing?
            && t.queue == if FlushBegin in events then Flushed(s.queue) else s.queue
  {
    if events != [] {
      var before, e := events[..|events| - 1], events[|events| - 1];
      assert events == before + [e];
      QueueWhileShowing(s, before);
      var t := Run(s, before).value;
      BetweenReads(t, e);
      StepKeepsInv(t, e);
      assert Flushed(Flushed(s.queue)) == Flushed(s.queue);
    }
  }

  /** The comparison is really two reads, and C leaves their order open. If the clock of the picture on show
      is read first, in `s`, and that of the next one later, the assertion holds exactly if no flush begins
      between the reads, or the first clock was 0 anyway. */
  lemma NextReadLast(s: State, events: seq<Event>)
    requires Inv(s) && s.refresh.Showing? && |s.queue| > 1 && Concurrent(events) && Run(s, events).Some?
    ensures var t := Run(s, events).value;
            && |t.queue| == |s.queue|
            && (t.queue[1].target >= s.queue[0].target <==> s.queue[0].target == 0.0 || FlushBegin !in events)
  {
    QueueWhileShowing(s, events);
    assert s.queue[0] in s.queue;
  }

  /** In the other order it always holds. */
  lemma NextReadFirst(s: State, events: seq<Event>)
    requires Inv(s) && s.refresh.Showing? && |s.queue| > 1 && Concurrent(events) && Run(s, events).Some?
    ensures var t := Run(s, events).value;
            |t.queue| == |s.queue| && s.queue[1].target >= t.queue[0].target
  {
    QueueWhileShowing(s, events);
    assert s.queue[1] in s.queue;
  }

  /** So in every interleaving, whenever `video_refresh` compares the next picture's target clock to that of the
      picture on show: its assertion can only fail if a flush begins after the first of two reads. */
  lemma AssertionNeverFails(now: real, events: seq<Event>, between: seq<Event>)
    requires 0.0 <= now && Run(Init(now), events).Some?
    requires Concurrent(between) && Run(Run(Init(now), events).value, between).Some?
    ensures var s := Run(Init(now), events).value;
            var t := Run(s, between).value;
            s.refresh.Showing? ==>
              && s.queue != []
              && (|s.queue| > 1 ==>
                    && |t.queue| == |s.queue| && s.queue[1].target >= t.queue[0].target
                    && (t.queue[1].target >= s.queue[0].target <==> s.queue[0].target == 0.0 || FlushBegin !in between))
  {
    var s := Run(Init(now), events).value;
    RunKeepsInv(Init(now), events);
    if s.refresh.Showing? && |s.queue| > 1 {
      NextReadLast(s, between);
      NextReadFirst(s, between);
    }
  }

  lemma RunNext(s: State, events: seq<Event>, e: Event)
    requires Run(s, events).Some? && Enabled(Run(s, events).value, e)
    ensures Run(s, events + [e]) == Some(Step(Run(s, events).value, e))
  {
    assert (events + [e])[..|events|] == events;
  }

  /** And a flush can begin there: this run ends with a picture on show, a later one queued behind it, and the
      flush that makes the second read give 0. */
  lemma TornComparisonFails() returns (events: seq<Event>)
    ensures Run(Init(0.0), events).Some?
    ensures var s := Run(Init(0.0), events).value;
            && s.refresh.Showing? && |s.queue| > 1 && Enabled(s, FlushBegin)
            && Step(s, FlushBegin).queue[1].target < s.queue[0].target
  {
    events := [];
    var script := [FlushBegin, FlushEmpty, FlushEnd(1.0),
                   Packet(1.0, 0.04), Room, WriteSlot, Push(false, 0.0),
                   Packet(1.04, 0.04), Room, WriteSlot, Push(false, 0.0), Show(2.0)];
    var s := Init(0.0);
    s := Follow(events, script[0], s); events := events + [script[0]];
    s := Follow(events, script[1], s); events := events + [script[1]];
    s := Follow(events, script[2], s); events := events + [script[2]];
    s := Follow(events, script[3], s); events := events + [script[3]];
    s := Follow(events, script[4], s); events := events + [script[4]];
    s := Follow(events, script[5], s); events := events + [script[5]];
    s := Follow(events, script[6], s); events := events + [script[6]];
    s := Follow(events, script[7], s); events := events + [script[7]];
    s := Follow(events, script[8], s); events := events + [script[8]];
    s := Follow(events, script[9], s); events := events + [script[9]];
    s := Follow(events, script[10], s); events := events + [script[10]];
    s := Follow(events, script[11], s); events := events + [script[11]];
  }

  lemma Follow(events: seq<Event>, e: Event, s: State) returns (next: State)
    requires Run(Init(0.0), events) == Some(s) && Enabled(s, e)
    ensures next == Step(s, e) && Run(Init(0.0), events + [e]) == Some(next)
  {
    RunNext(Init(0.0), events, e);
    next := Step(s, e);
  }

  class VideoState {
    const pictq: array<Picture>
    var size: nat   // pictq_size
    var rindex: nat
    var windex: nat
    var frameTimer: real
    var frameLastPts: real
    var frameLastDelay: real
    var videoClock: real
    var currentPts: real // video_current_pts
    var drift: real      // video_current_pts_drift
    var paused: bool
    var abort: bool      // videoq.abort_request
    ghost var decoder: Decoder
    ghost var refresh: Refresh
    ghost var now: real

    ghost function Queued(): nat
      reads this
    {
      if refresh.Popping? && size > 0 then size - 1 else size
    }

    ghost predicate Valid()
      reads this, pictq
    {
      && pictq.Length == QUEUE_SIZE && rindex < QUEUE_SIZE && windex < QUEUE_SIZE
      && size + (if decoder.Writing? || decoder.Advanced? then 1 else 0) <= QUEUE_SIZE
      && (refresh.Popping? || refresh.Showing? ==> size > 0)
      // the write index is where the queue ends, or one further if the decoder has moved it already
      && windex == (rindex + Queued() + if decoder.Advanced? then 1 else 0) % QUEUE_SIZE
      // and then the slot it has filled is still as it left it
      && (decoder.Advanced? ==> pictq[(windex + 1) % QUEUE_SIZE].pts == decoder.pts)
    }

    ghost function Queue(): (q: seq<Picture>)
      reads this, pictq
      requires Valid()
      ensures |q| == Queued()
    {
      if Queued() == 0 then []
      else if Queued() == 1 then [pictq[rindex]]
      else [pictq[rindex], pictq[(rindex + 1) % QUEUE_SIZE]]
    }

    ghost function View(): State
      reads this, pictq
      requires Valid()
    {
      State(Queue(), frameTimer, frameLastPts, frameLastDelay, videoClock, currentPts, drift, paused,
            abort, decoder, refresh, now)
    }

    constructor (now: real)
      ensures Valid() && fresh(pictq) && View() == Init(now)
    {
      pictq := new Picture[QUEUE_SIZE](_ => Picture(0.0, 0.0));
      size, rindex, windex := 0, 0, 0;
      frameTimer, frameLastPts, frameLastDelay, videoClock, currentPts, drift := 0.0, 0.0, 0.0, 0.0, 0.0, 0.0;
      paused, abort := false, false;
      decoder, refresh, this.now := Starting, NotShowing, now;
    }

    /** `queue_picture` up to its wait. */
    method PredictPts(pts1: real, frameDelay: real)
      requires Valid() && Enabled(View(), Packet(pts1, frameDelay))
      modifies this
      ensures Valid() && View() == Step(old(View()), Packet(pts1, frameDelay))
      ensures decoder == Waiting(if pts1 != 0.0 then pts1 else old(videoClock))
      ensures videoClock == decoder.pts + frameDelay && Queue() == old(Queue())
    {
      var pts := pts1;
      if pts != 0.0 {
        videoClock := pts;
      } else {
        pts := videoClock;
      }
      videoClock := videoClock + frameDelay;
      decoder := Waiting(pts);
    }

    /** The end of the wait for room. */
    method FindRoom()
      requires Valid() && Enabled(View(), Room)
      modifies this
      ensures Valid() && View() == Step(old(View()), Room)
      ensures decoder == (if abort then Stopped else Writing(old(decoder.pts))) && (!abort ==> size < 2)
    {
      decoder := if abort then Stopped else Writing(decoder.pts);
    }

    /** The slot at the write index is filled, and the index moved on, outside the lock. As the view is
        unchanged but for the decoder's position, no queued picture is written over. */
    method FillSlot(pts: real)
      requires Valid() && Enabled(View(), WriteSlot) && pts == decoder.pts
      modifies this, pictq
      ensures Valid() && View() == Step(old(View()), WriteSlot)
      ensures pictq[old(windex)].pts == pts && Queue() == old(Queue())
    {
      pictq[windex] := pictq[windex].(pts := pts);
      windex := windex + 1;
      if windex == QUEUE_SIZE {
        windex := 0;
      }
      decoder := Advanced(pts);
    }

    /** `compute_target_time`. */
    method ComputeTargetTime(pts: real, slave: bool, diff: real) returns (target: real)
      modifies this`frameTimer, this`frameLastPts, this`frameLastDelay
      ensures frameLastPts == pts
      ensures frameLastDelay
              == (var d := pts - old(frameLastPts); if d <= 0.0 || d >= 10.0 then old(frameLastDelay) else d)
      ensures target == frameTimer == old(frameTimer) + Corrected(frameLastDelay, slave, diff)
      // a slave that is behind by the threshold or more shows the picture at once, one that is ahead by as much
      // after twice the delay, and any other after the delay
      ensures var d := frameLastDelay;
              var th := if d > 0.01 then d else 0.01;
              && (slave && -10.0 < diff <= -th ==> target == old(frameTimer))
              && (slave && th <= diff < 10.0 ==> target == old(frameTimer) + 2.0 * d)
              && (!slave || -th < diff < th || diff <= -10.0 || 10.0 <= diff ==> target == old(frameTimer) + d)
    {
      var delay := pts - frameLastPts;
      if delay <= 0.0 || delay >= 10.0 {
        delay := frameLastDelay;
      } else {
        frameLastDelay := delay;
      }
      frameLastPts := pts;
      if slave {
        var threshold := Max(SYNC_THRESHOLD, delay);
        if -NOSYNC_THRESHOLD < diff < NOSYNC_THRESHOLD {
          if diff <= -threshold {
            delay := 0.0;
          } else if diff >= threshold {
            delay := 2.0 * delay;
          }
        }
      }
      frameTimer := frameTimer + delay;
      return frameTimer;
    }

    /** The locked end of `queue_picture`. `slot` is the slot just filled. */
    method CountPicture(slot: nat, slave: bool, diff: real)
      requires Valid() && Enabled(View(), Push(slave, diff))
      requires slot == (windex + 1) % QUEUE_SIZE
      modifies this, pictq
      ensures Valid() && View() == Step(old(View()), Push(slave, diff))
      ensures Queue() == old(Queue()) + [Picture(old(decoder.pts), frameTimer)] && decoder == Idle
    {
      var target := ComputeTargetTime(pictq[slot].pts, slave, diff);
      pictq[slot] := pictq[slot].(target := target);
      size := size + 1;
      decoder := Idle;
    }

    /** The locked start of the flush branch of `get_video_frame`. */
    method BeginFlush()
      requires Valid() && Enabled(View(), FlushBegin)
      modifies this, pictq
      ensures Valid() && View() == Step(old(View()), FlushBegin)
      ensures |Queue()| == |old(Queue())|
      ensures forall k :: 0 <= k < |Queue()| ==> Queue()[k] == Picture(old(Queue())[k].pts, 0.0)
    {
      for i := 0 to QUEUE_SIZE
        invariant forall k :: 0 <= k < QUEUE_SIZE ==>
                    pictq[k] == if k < i then old(pictq[k]).(target := 0.0) else old(pictq[k])
        invariant unchanged(this)
      {
        pictq[i] := pictq[i].(target := 0.0);
      }
      decoder := FlushWait;
    }

    /** The unlocked end of the flush branch. */
    method EndFlush(t: real)
      requires Valid() && Enabled(View(), FlushEnd(t))
      modifies this
      ensures Valid() && View() == Step(old(View()), FlushEnd(t))
      ensures frameTimer == t && frameLastPts == NOPTS && frameLastDelay == 0.0 && Queue() == old(Queue())
    {
      frameLastPts := NOPTS;
      frameLastDelay := 0.0;
      frameTimer := t;
      decoder, now := Idle, t;
    }

    /** `video_refresh` up to the comparison of target clocks. */
    method ShowPicture(time: real)
      requires Valid() && refresh.NotShowing? && now <= time
      modifies this
      ensures Valid()
      ensures Enabled(old(View()), Show(time)) ==> View() == Step(old(View()), Show(time))
      ensures !Enabled(old(View()), Show(time)) ==> View() == old(View())
      // it is shown exactly if there is one and its time has come
      ensures Queue() == old(Queue()) && (refresh.Showing? <==> Queue() != [] && Queue()[0].target <= time)
      ensures refresh.Showing? ==> currentPts == Queue()[0].pts && currentPts == drift + time
    {
      if size == 0 {
        return;
      }
      if time < pictq[rindex].target {
        return;
      }
      currentPts := pictq[rindex].pts;
      drift := currentPts - time;
      refresh, now := Showing, time;
    }

    /** The comparison itself, as the main thread reads it from the ring: the clock of the next picture and that
        of the one on show. With no next picture, nothing is compared. */
    method CompareClocks() returns (holds: bool, clocks: Option<(real, real)>)
      requires Valid() && refresh.Showing?
      ensures clocks == if |Queue()| > 1 then Some((Queue()[1].target, Queue()[0].target)) else None
      ensures holds == (clocks.None? || clocks.value.0 >= clocks.value.1)
      ensures Inv(View()) ==> holds
    {
      holds, clocks := true, None;
      if size > 1 {
        assert Queue()[0] == pictq[rindex] && Queue()[1] == pictq[(rindex + 1) % QUEUE_SIZE];
        clocks := Some((pictq[(rindex + 1) % QUEUE_SIZE].target, pictq[rindex].target));
        holds := clocks.value.0 >= clocks.value.1;
      }
    }

    /** The read index moves on outside the lock. */
    method AdvanceRead()
      requires Valid() && Enabled(View(), PopIndex)
      modifies this
      ensures Valid() && View() == Step(old(View()), PopIndex)
      ensures Queue() == old(Queue())[1..] && size == old(size)
    {
      rindex := rindex + 1;
      if rindex == QUEUE_SIZE {
        rindex := 0;
      }
      refresh := Popping;
    }

    /** The locked end of a pop. */
    method CountPop()
      requires Valid() && Enabled(View(), PopSize)
      modifies this
      ensures Valid() && View() == Step(old(View()), PopSize)
      ensures Queue() == old(Queue()) && size == old(size) - 1
    {
      size := size - 1;
      refresh := NotShowing;
    }

    /** `stream_toggle_pause`, which reads the clock up to three times. */
    method TogglePause(t1: real, t2: real, t3: real, pauseUnsupported: bool)
      requires Valid() && Enabled(View(), Toggle(t1, t2, t3, pauseUnsupported))
      modifies this
      ensures Valid() && View() == Step(old(View()), Toggle(t1, t2, t3, pauseUnsupported))
      ensures paused == !old(paused) && Queue() == old(Queue())
      ensures paused ==> frameTimer == old(frameTimer) && currentPts == old(currentPts) && drift == old(drift)
      // resuming moves the timer on by the time since the picture on show was shown, and the clock goes on from
      // where it stood, or where it would stand
      ensures !paused ==> frameTimer == old(frameTimer) + (t1 - old(currentPts - drift)) && drift + t3 == currentPts
      ensures !paused ==> currentPts == if pauseUnsupported then old(currentPts) else old(drift) + t2
    {
      if paused {
        frameTimer := frameTimer + (t1 + drift - currentPts);
        if !pauseUnsupported {
          currentPts := drift + t2;
        }
        drift := currentPts - t3;
      }
      paused := !paused;
      now := t3;
    }
  }
}
