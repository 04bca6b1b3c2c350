/** Frame duplication and dropping (`do_video_out` in amffmpeg/ffmpeg.c), with times as exact reals in
    units of the encoder's time base. */
module FrameRate {
  /** `lrintf` in the default rounding mode: the nearest integer, ties to even. */
  function Round(x: real): (n: int)
    ensures x - 0.5 <= n as real <= x + 0.5
    ensures n as real == x - 0.5 || n as real == x + 0.5 ==> n % 2 == 0
  {
    var f := x.Floor;
    var d := x - f as real;
    if d < 0.5 || (d == 0.5 && f % 2 == 0) then f else f + 1
  }

  datatype Mode = Passthrough | Variable | Constant

  /** Which branch `video_sync_method` and the container's variable-rate flag select. */
  function ModeOf(syncMethod: int, variableFps: bool): Mode {
    if syncMethod == 0 then Passthrough
    else if syncMethod == 2 || (syncMethod < 0 && variableFps) then Variable
    else Constant
  }

  /** `pts` lists the timestamps handed to the encoder so far, `cut` counts frames the limit suppressed. */
  datatype State = State(syncOpts: int, frameNumber: nat, drops: nat, dups: nat, cut: nat, pts: seq<int>)

  /** The counter after the decision, and how many copies of the frame are wanted. */
  function Decide(mode: Mode, syncOpts: int, ipts: real): (r: (int, nat)) {
    var vdelta := ipts - syncOpts as real;
    match mode
    case Passthrough => (Round(ipts), 1)
    case Variable =>
      if vdelta <= -0.6 then (syncOpts, 0) else if vdelta > 0.6 then (Round(ipts), 1) else (syncOpts, 1)
    case Constant =>
      if vdelta < -1.1 then (syncOpts, 0) else if vdelta > 1.1 then (syncOpts, Copies(vdelta)) else (syncOpts, 1)
  }

  function Copies(vdelta: real): (n: nat)
    requires vdelta > 1.1
    ensures n >= 1
  {
    Round(vdelta)
  }

  /** `n` consecutive timestamps from `first` on. */
  function Ticks(first: int, n: nat): (s: seq<int>)
    ensures |s| == n
  {
    seq(n, i => first + i)
  }

  function Step(mode: Mode, maxFrames: int, st: State, ipts: real): State {
    var (syncOpts, wanted) := Decide(mode, st.syncOpts, ipts);
    var n := if maxFrames - st.frameNumber <= 0 then 0 else if wanted <= maxFrames - st.frameNumber then wanted
             else maxFrames - st.frameNumber;
    State(syncOpts + n, st.frameNumber + n,
          st.drops + (if wanted == 0 then 1 else 0),
          st.dups + (if wanted > 1 then wanted - 1 else 0),
          st.cut + (wanted - n),
          st.pts + Ticks(syncOpts, n))
  }

  function Run(mode: Mode, maxFrames: int, start: State, times: seq<real>): State {
    if times == [] then start
    else Step(mode, maxFrames, Run(mode, maxFrames, start, times[..|times| - 1]), times[|times| - 1])
  }

  /** One constant-rate call that the frame limit does not cut never leaves the counter more than half a
      frame behind its input, and leaves it at most 2.1 ahead exactly when it was so before. */
  lemma ConstantRateCall(maxFrames: int, st: State, ipts: real)
    requires Step(Constant, maxFrames, st, ipts).cut == st.cut
    ensures var after := Step(Constant, maxFrames, st, ipts).syncOpts as real;
            && ipts - 0.5 <= after
            && (after <= ipts + 2.1 <==> st.syncOpts as real <= ipts + 2.1)
  {
  }

  /** A variable-rate call drops its frame exactly when the counter is 0.6 or more ahead; else it gives one frame,
      whose time stamp is at most 0.6 off, if the limit allows one more. */
  lemma VariableRateCall(maxFrames: int, st: State, ipts: real)
    ensures var after := Step(Variable, maxFrames, st, ipts);
            if ipts <= st.syncOpts as real - 0.6 then after == st.(drops := st.drops + 1)
            else
              && after.drops == st.drops && after.dups == st.dups
              && if maxFrames <= st.frameNumber then after.pts == st.pts
                 else
                   && |after.pts| == |st.pts| + 1 && after.pts[..|st.pts|] == st.pts
                   && after.syncOpts == after.pts[|st.pts|] + 1
                   && ipts - 0.6 <= after.pts[|st.pts|] as real < ipts + 0.6
                   && (ipts <= st.syncOpts as real + 0.6 ==> after.pts[|st.pts|] == st.syncOpts)
  {
  }

  predicate NonDecreasing(times: seq<real>) {
    forall i, j :: 0 <= i < j < |times| ==> times[i] <= times[j]
  }

  /** The drift bound over a whole run. */
  lemma {:induction false} BoundedDrift(maxFrames: int, start: State, times: seq<real>)
    requires times != [] && NonDecreasing(times)
    requires start.syncOpts as real <= times[0] + 2.1
    requires Run(Constant, maxFrames, start, times).cut == start.cut
    ensures var ipts, after := times[|times| - 1], Run(Constant, maxFrames, start, times).syncOpts as real;
            ipts - 0.5 <= after <= ipts + 2.1
  {
    var before := times[..|times| - 1];
    var st := Run(Constant, maxFrames, start, before);
    CutGrows(Constant, maxFrames, start, before);
    if before != [] {
      BoundedDrift(maxFrames, start, before);
    }
    ConstantRateCall(maxFrames, st, times[|times| - 1]);
  }

  lemma {:induction false} CutGrows(mode: Mode, maxFrames: int, start: State, times: seq<real>)
    ensures start.cut <= Run(mode, maxFrames, start, times).cut
  {
    if times != [] {
      CutGrows(mode, maxFrames, start, times[..|times| - 1]);
    }
  }

  /** Frames emitted are calls less drops plus dups, but for those that the frame limit cuts off. */
  lemma {:induction false} FramesAddUp(mode: Mode, maxFrames: int, start: State, times: seq<real>)
    ensures var end := Run(mode, maxFrames, start, times);
            && |end.pts| - |start.pts| == end.frameNumber - start.frameNumber
            && end.frameNumber - start.frameNumber + (end.cut - start.cut)
               == |times| - (end.drops - start.drops) + (end.dups - start.dups)
  {
    if times != [] {
      FramesAddUp(mode, maxFrames, start, times[..|times| - 1]);
    }
  }

  predicate StrictlyIncreasing(pts: seq<int>) {
    forall i, j :: 0 <= i < j < |pts| ==> pts[i] < pts[j]
  }

  /** Timestamps so far strictly increase and are all below the counter. */
  predicate Ordered(st: State) {
    && StrictlyIncreasing(st.pts)
    && (forall i :: 0 <= i < |st.pts| ==> st.pts[i] < st.syncOpts)
  }

  lemma StepOrdered(mode: Mode, maxFrames: int, st: State, ipts: real)
    requires mode != Passthrough && Ordered(st)
    ensures Ordered(Step(mode, maxFrames, st, ipts))
  {
  }

  /** Whatever the input times, a run with a sync method other than 0 gives the encoder strictly
      increasing timestamps. */
  lemma {:induction false} TimestampsIncrease(mode: Mode, maxFrames: int, start: State, times: seq<real>)
    requires mode != Passthrough && Ordered(start)
    ensures Ordered(Run(mode, maxFrames, start, times))
  {
    if times != [] {
      TimestampsIncrease(mode, maxFrames, start, times[..|times| - 1]);
      StepOrdered(mode, maxFrames, Run(mode, maxFrames, start, times[..|times| - 1]), times[|times| - 1]);
    }
  }

  function Rounded(times: seq<real>): (r: seq<int>)
    ensures |r| == |times|
  {
    seq(|times|, i requires 0 <= i < |times| => Round(times[i]))
  }

  /** How many of `calls` frames the limit lets through. */
  function Allowed(maxFrames: int, frameNumber: nat, calls: nat): nat {
    if maxFrames <= frameNumber then 0 else if calls <= maxFrames - frameNumber then calls else maxFrames - frameNumber
  }

  /** Sync method 0 gives no such promise: its timestamps are the rounded input times, as far as the frame
      limit allows, so they increase exactly when those do. */
  lemma {:induction false} PassthroughFollowsInput(maxFrames: int, start: State, times: seq<real>)
    ensures var end, n := Run(Passthrough, maxFrames, start, times), Allowed(maxFrames, start.frameNumber, |times|);
            end.pts == start.pts + Rounded(times)[..n] && end.frameNumber == start.frameNumber + n
  {
    if times != [] {
      var before := times[..|times| - 1];
      PassthroughFollowsInput(maxFrames, start, before);
      assert Rounded(times) == Rounded(before) + [Round(times[|times| - 1])];
    }
  }

  class OutputStream {
    const syncMethod: int
    const variableFps: bool
    const maxFrames: int
    var syncOpts: int
    var frameNumber: nat
    var nbFramesDrop: nat
    var nbFramesDup: nat
    ghost var cut: nat
    ghost var encoded: seq<int>

    ghost function View(): State
      reads this
    {
      State(syncOpts, frameNumber, nbFramesDrop, nbFramesDup, cut, encoded)
    }

    constructor (syncMethod: int, variableFps: bool, maxFrames: int)
      ensures View() == State(0, 0, 0, 0, 0, [])
      ensures this.syncMethod == syncMethod && this.variableFps == variableFps && this.maxFrames == maxFrames
    {
      this.syncMethod := syncMethod;
      this.variableFps := variableFps;
      this.maxFrames := maxFrames;
      syncOpts, frameNumber, nbFramesDrop, nbFramesDup, cut, encoded := 0, 0, 0, 0, 0, [];
    }

    /** `wanted` copies of the frame are wanted, with time stamps from `first` on. */
    method DoVideoOut(syncIpts: real) returns (ghost first: int, ghost wanted: nat)
      modifies this
      ensures View() == Step(ModeOf(syncMethod, variableFps), maxFrames, old(View()), syncIpts)
      ensures var vdelta := syncIpts - old(syncOpts) as real;
              if syncMethod == 0 then first == Round(syncIpts) && wanted == 1
              else if syncMethod == 2 || (syncMethod < 0 && variableFps) then
                && first == (if vdelta > 0.6 then Round(syncIpts) else old(syncOpts))
                && wanted == (if vdelta <= -0.6 then 0 else 1)
              else
                && first == old(syncOpts)
                && wanted == (if vdelta < -1.1 then 0 else if vdelta > 1.1 then Round(vdelta) else 1)
      ensures var room := if old(frameNumber) < maxFrames then maxFrames - old(frameNumber) else 0;
              var n := if wanted <= room then wanted else room;
              && syncOpts == first + n && frameNumber == old(frameNumber) + n
              && encoded == old(encoded) + seq(n, i => first + i)
              && nbFramesDrop == old(nbFramesDrop) + (if wanted == 0 then 1 else 0)
              && nbFramesDup == old(nbFramesDup) + (if wanted > 1 then wanted - 1 else 0)
    {
      var nbFrames := Drift(syncIpts);
      first, wanted := syncOpts, nbFrames;
      nbFrames := if nbFrames > maxFrames - frameNumber then maxFrames - frameNumber else nbFrames;
      cut := cut + if nbFrames <= 0 then wanted else wanted - nbFrames;
      if nbFrames <= 0 {
        return;
      }
      Encode(nbFrames);
    }

    /** How many copies of the frame are wanted, by how far its time is from the counter. */
    method Drift(syncIpts: real) returns (nbFrames: nat)
      modifies this`syncOpts, this`nbFramesDrop, this`nbFramesDup
      ensures (syncOpts, nbFrames) == Decide(ModeOf(syncMethod, variableFps), old(syncOpts), syncIpts)
      ensures nbFramesDrop == old(nbFramesDrop) + (if nbFrames == 0 then 1 else 0)
      ensures nbFramesDup == old(nbFramesDup) + (if nbFrames > 1 then nbFrames - 1 else 0)
    {
      nbFrames := 1;
      if syncMethod != 0 {
        var vdelta := syncIpts - syncOpts as real;
        if vdelta < -1.1 {
          nbFrames := 0;
        } else if syncMethod == 2 || (syncMethod < 0 && variableFps) {
          if vdelta <= -0.6 {
            nbFrames := 0;
          } else if vdelta > 0.6 {
            syncOpts := Round(syncIpts);
          }
        } else if vdelta > 1.1 {
          nbFrames := Round(vdelta);
        }
        if nbFrames == 0 {
          nbFramesDrop := nbFramesDrop + 1;
        } else if nbFrames > 1 {
          nbFramesDup := nbFramesDup + nbFrames - 1;
        }
      } else {
        syncOpts := Round(syncIpts);
      }
    }

    /** The loop that hands `nbFrames` copies to the encoder. */
    method Encode(nbFrames: nat)
      modifies this`syncOpts, this`frameNumber, this`encoded
      ensures syncOpts == old(syncOpts) + nbFrames && frameNumber == old(frameNumber) + nbFrames
      ensures encoded == old(encoded) + Ticks(old(syncOpts), nbFrames)
    {
      for i := 0 to nbFrames
        invariant syncOpts == old(syncOpts) + i && frameNumber == old(frameNumber) + i
        invariant encoded == old(encoded) + Ticks(old(syncOpts), i)
      {
        encoded := encoded + [syncOpts];
        syncOpts := syncOpts + 1;
        frameNumber := frameNumber + 1;
      }
    }
  }
}
