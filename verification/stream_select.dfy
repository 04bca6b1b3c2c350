/** Which input stream feeds which output stream (`transcode` in amffmpeg/ffmpeg.c, without explicit maps):
    a bitwise threshold search per media type, then a greedy assignment. */
module StreamSelect {
  import opened Wrappers

  const INT_MAX := 0x7FFF_FFFF

  type int31 = n: int | 0 <= n <= INT_MAX

  /** `probed` is `codec_info_nb_frames`; `inProgram` says that the selected program contains the stream. */
  datatype Input = Input(mediaType: nat, discardAll: bool, inProgram: bool, probed: int31)

  predicate Eligible(input: Input, programSelected: bool) {
    !input.discardAll && (programSelected ==> input.inProgram)
  }

  /** The eligible inputs of one type, among the first `upTo`, that were probed for `threshold` frames or more. */
  function Meeting(inputs: seq<Input>, programSelected: bool, mediaType: nat, threshold: int, upTo: nat): set<nat>
    requires upTo <= |inputs|
  {
    set j: nat | 0 <= j < upTo && Eligible(inputs[j], programSelected) && inputs[j].mediaType == mediaType
                 && threshold <= inputs[j].probed
  }

  /** Which inputs these are: not discarded for good, in the program if one is selected, of the type, and probed
      for as many frames. */
  lemma MeetingIs(inputs: seq<Input>, programSelected: bool, mediaType: nat, threshold: int, j: nat)
    ensures j in Meeting(inputs, programSelected, mediaType, threshold, |inputs|)
            <==> && j < |inputs| && inputs[j].mediaType == mediaType && threshold <= inputs[j].probed
                 && !inputs[j].discardAll && (programSelected ==> inputs[j].inProgram)
  {
  }

  function OutputsOf(outputs: seq<nat>, mediaType: nat): set<nat> {
    set n: nat | 0 <= n < |outputs| && outputs[n] == mediaType
  }

  lemma SubsetSize<T>(a: set<T>, b: set<T>)
    requires a <= b
    ensures |a| <= |b|
  {
    if a != {} {
      var x :| x in a;
      SubsetSize(a - {x}, b - {x});
    }
  }

  /** The greatest threshold that at least `needed` inputs meet, or 0 if there is none. */
  ghost predicate GreatestThreshold(inputs: seq<Input>, programSelected: bool, mediaType: nat, needed: nat,
                                    threshold: int) {
    && 0 <= threshold <= INT_MAX
    && (threshold > 0 ==> |Meeting(inputs, programSelected, mediaType, threshold, |inputs|)| >= needed)
    && (forall u :: threshold < u <= INT_MAX ==> |Meeting(inputs, programSelected, mediaType, u, |inputs|)| < needed)
  }

  lemma MeetingShrinks(inputs: seq<Input>, programSelected: bool, mediaType: nat, low: int, high: int)
    requires low <= high
    ensures |Meeting(inputs, programSelected, mediaType, high, |inputs|)|
            <= |Meeting(inputs, programSelected, mediaType, low, |inputs|)|
  {
    SubsetSize(Meeting(inputs, programSelected, mediaType, high, |inputs|),
               Meeting(inputs, programSelected, mediaType, low, |inputs|));
  }

  function Pow2(k: nat): (p: nat)
    ensures p > 0
  {
    if k == 0 then 1 else 2 * Pow2(k - 1)
  }

  lemma Pow2Values()
    ensures Pow2(30) == 0x4000_0000 && Pow2(31) == 0x8000_0000
  {
    assert Pow2(10) == 0x400;
    assert Pow2(20) == 0x10_0000;
  }

  /** The search has narrowed the greatest threshold down to `threshold` and the `gap` values from it on. */
  ghost predicate Narrowed(inputs: seq<Input>, programSelected: bool, mediaType: nat, needed: nat, threshold: int,
                           gap: int) {
    && 0 <= threshold && threshold + gap <= INT_MAX + 1
    && (threshold > 0 ==> |Meeting(inputs, programSelected, mediaType, threshold, |inputs|)| >= needed)
    && (forall u :: threshold + gap <= u <= INT_MAX ==>
          |Meeting(inputs, programSelected, mediaType, u, |inputs|)| < needed)
  }

  /** Halving the gap, by the count of the inputs that meet the middle value. */
  lemma Halve(inputs: seq<Input>, programSelected: bool, mediaType: nat, needed: nat, threshold: int, step: int)
    requires step > 0 && Narrowed(inputs, programSelected, mediaType, needed, threshold, 2 * step)
    ensures var enough := |Meeting(inputs, programSelected, mediaType, threshold + step, |inputs|)| >= needed;
            Narrowed(inputs, programSelected, mediaType, needed, if enough then threshold + step else threshold, step)
  {
    if |Meeting(inputs, programSelected, mediaType, threshold + step, |inputs|)| < needed {
      forall u | threshold + step <= u <= INT_MAX
        ensures |Meeting(inputs, programSelected, mediaType, u, |inputs|)| < needed
      {
        MeetingShrinks(inputs, programSelected, mediaType, threshold + step, u);
      }
    }
  }

  lemma MeetingNext(inputs: seq<Input>, programSelected: bool, mediaType: nat, threshold: int, j: nat)
    requires j < |inputs|
    ensures |Meeting(inputs, programSelected, mediaType, threshold, j + 1)|
            == |Meeting(inputs, programSelected, mediaType, threshold, j)|
               + if Eligible(inputs[j], programSelected) && inputs[j].mediaType == mediaType
                    && threshold <= inputs[j].probed then 1 else 0
  {
    var before := Meeting(inputs, programSelected, mediaType, threshold, j);
    var after := Meeting(inputs, programSelected, mediaType, threshold, j + 1);
    if j in after {
      assert after == before + {j};
    } else {
      assert after == before;
    }
  }

  /** One pass of the threshold loop over all inputs: how many meet the threshold of their own type. */
  method CountMeeting(inputs: seq<Input>, programSelected: bool, thresholds: array<int>) returns (found: array<nat>)
    requires forall i :: i in inputs ==> i.mediaType < thresholds.Length
    ensures fresh(found) && found.Length == thresholds.Length
    ensures forall t :: 0 <= t < found.Length ==>
              found[t] == |Meeting(inputs, programSelected, t, thresholds[t], |inputs|)|
  {
    found := new nat[thresholds.Length](_ => 0);
    for j := 0 to |inputs|
      invariant forall t :: 0 <= t < found.Length ==>
                  found[t] == |Meeting(inputs, programSelected, t, thresholds[t], j)|
    {
      var ist := inputs[j];
      forall t | 0 <= t < found.Length
        ensures |Meeting(inputs, programSelected, t, thresholds[t], j + 1)|
                == |Meeting(inputs, programSelected, t, thresholds[t], j)|
                   + if Eligible(ist, programSelected) && ist.mediaType == t && thresholds[t] <= ist.probed then 1
                     else 0
      {
        MeetingNext(inputs, programSelected, t, thresholds[t], j);
      }
      if Eligible(ist, programSelected) && thresholds[ist.mediaType] <= ist.probed {
        found[ist.mediaType] := found[ist.mediaType] + 1;
      }
    }
  }

  method CountOutputs(outputs: seq<nat>, types: nat) returns (nbStreams: array<nat>)
    requires forall t :: t in outputs ==> t < types
    ensures fresh(nbStreams) && nbStreams.Length == types
    ensures forall t :: 0 <= t < types ==> nbStreams[t] == |OutputsOf(outputs, t)|
  {
    nbStreams := new nat[types](_ => 0);
    for n := 0 to |outputs|
      invariant forall t :: 0 <= t < types ==> nbStreams[t] == |OutputsOf(outputs[..n], t)|
    {
      forall t | 0 <= t < types
        ensures |OutputsOf(outputs[..n + 1], t)| == |OutputsOf(outputs[..n], t)| + if outputs[n] == t then 1 else 0
      {
        OutputsNext(outputs, n, t);
      }
      assert outputs[n] in outputs;
      nbStreams[outputs[n]] := nbStreams[outputs[n]] + 1;
    }
    assert outputs[..|outputs|] == outputs;
  }

  lemma OutputsNext(outputs: seq<nat>, n: nat, t: nat)
    requires n < |outputs|
    ensures |OutputsOf(outputs[..n + 1], t)| == |OutputsOf(outputs[..n], t)| + if outputs[n] == t then 1 else 0
  {
    if outputs[n] == t {
      assert OutputsOf(outputs[..n + 1], t) == OutputsOf(outputs[..n], t) + {n};
    } else {
      assert OutputsOf(outputs[..n + 1], t) == OutputsOf(outputs[..n], t);
    }
  }

  /** One round of the threshold loop: raise every threshold by `step`, and lower again those that too few
      inputs meet. */
  method Round(inputs: seq<Input>, programSelected: bool, nbStreams: array<nat>, thresholds: array<int>, step: int)
    requires forall i :: i in inputs ==> i.mediaType < nbStreams.Length
    requires thresholds.Length == nbStreams.Length && step > 0
    requires forall t :: 0 <= t < thresholds.Length ==>
               Narrowed(inputs, programSelected, t, nbStreams[t], thresholds[t], 2 * step)
    modifies thresholds
    ensures forall t :: 0 <= t < thresholds.Length ==>
              Narrowed(inputs, programSelected, t, nbStreams[t], thresholds[t], step)
  {
    ghost var was, needed := thresholds[..], nbStreams[..];
    for j := 0 to thresholds.Length
      invariant forall t :: 0 <= t < thresholds.Length ==> thresholds[t] == was[t] + if t < j then step else 0
    {
      thresholds[j] := thresholds[j] + step;
    }
    var found := CountMeeting(inputs, programSelected, thresholds);
    ghost var counts := found[..];
    assert forall t :: 0 <= t < |counts| ==>
              counts[t] == |Meeting(inputs, programSelected, t, was[t] + step, |inputs|)|;
    for j := 0 to thresholds.Length
      invariant found[..] == counts && nbStreams[..] == needed
      invariant forall t :: 0 <= t < thresholds.Length ==>
                  thresholds[t] == if t < j && counts[t] < needed[t] then was[t] else was[t] + step
    {
      if found[j] < nbStreams[j] {
        thresholds[j] := thresholds[j] - step;
      }
    }
    forall t | 0 <= t < thresholds.Length
      ensures Narrowed(inputs, programSelected, t, nbStreams[t], thresholds[t], step)
    {
      Halve(inputs, programSelected, t, needed[t], was[t], step);
    }
  }

  /** The descending-power-of-two loop. */
  method ThresholdSearch(inputs: seq<Input>, programSelected: bool, nbStreams: array<nat>)
    returns (thresholds: array<int>)
    requires forall i :: i in inputs ==> i.mediaType < nbStreams.Length
    ensures fresh(thresholds) && thresholds.Length == nbStreams.Length
    ensures forall t :: 0 <= t < thresholds.Length ==>
              GreatestThreshold(inputs, programSelected, t, nbStreams[t], thresholds[t])
  {
    thresholds := new int[nbStreams.Length](_ => 0);
    var step := 0x4000_0000;
    ghost var k := 31;
    Pow2Values();
    while step > 0
      invariant 0 <= k <= 31 && step == (if k == 0 then 0 else Pow2(k - 1))
      invariant forall t :: 0 <= t < thresholds.Length ==>
                  Narrowed(inputs, programSelected, t, nbStreams[t], thresholds[t], Pow2(k))
      decreases step
    {
      Round(inputs, programSelected, nbStreams, thresholds, step);
      k := k - 1;
      step := step / 2;
    }
    assert forall t :: 0 <= t < thresholds.Length ==>
              Narrowed(inputs, programSelected, t, nbStreams[t], thresholds[t], 1);
  }

  /** Each type has at least as many eligible inputs as outputs. (No input was probed for fewer than 0 frames.) */
  ghost predicate Enough(inputs: seq<Input>, programSelected: bool, outputs: seq<nat>) {
    forall t :: t in outputs ==> |Meeting(inputs, programSelected, t, 0, |inputs|)| >= |OutputsOf(outputs, t)|
  }

  ghost predicate Usable(inputs: seq<Input>, mediaType: nat, j: nat) {
    j < |inputs| && inputs[j].mediaType == mediaType && !inputs[j].discardAll
  }

  ghost predicate LastUsable(inputs: seq<Input>, mediaType: nat, j: nat) {
    Usable(inputs, mediaType, j) && forall i :: j < i < |inputs| ==> !Usable(inputs, mediaType, i)
  }

  /** `j` is the choice for an output of type `mediaType` when the inputs in `used` are taken: the first one
      of those that meet the threshold and are not taken, or, if there is none, the last usable one. */
  ghost predicate IsChoice(inputs: seq<Input>, programSelected: bool, mediaType: nat, threshold: int, used: seq<nat>,
                           j: nat) {
    var meeting := Meeting(inputs, programSelected, mediaType, threshold, |inputs|);
    if exists i :: i in meeting && i !in used
    then j in meeting && j !in used && forall i :: i in meeting && i !in used ==> j <= i
    else !programSelected && LastUsable(inputs, mediaType, j)
  }

  /** Every output was given what the source's greedy rule gives it. */
  ghost predicate Greedy(inputs: seq<Input>, programSelected: bool, outputs: seq<nat>, source: seq<nat>,
                         thresholds: seq<int>)
    requires |source| <= |outputs| && forall t :: t in outputs ==> t < |thresholds|
  {
    forall n :: 0 <= n < |source| ==>
      outputs[n] in outputs
        && IsChoice(inputs, programSelected, outputs[n], thresholds[outputs[n]], source[..n], source[n])
  }

  /** Each output has an input of its type that is not discarded for good. */
  ghost predicate Sound(inputs: seq<Input>, outputs: seq<nat>, source: seq<nat>) {
    |source| <= |outputs| && forall n :: 0 <= n < |source| ==> Usable(inputs, outputs[n], source[n])
  }

  ghost predicate Distinct(source: seq<nat>) {
    forall m, n :: 0 <= m < n < |source| ==> source[m] != source[n]
  }

  /** No input is used twice, and every one is eligible and meets the threshold of its type. */
  ghost predicate Exclusive(inputs: seq<Input>, programSelected: bool, outputs: seq<nat>, source: seq<nat>,
                            thresholds: seq<int>)
    requires |source| <= |outputs| && forall t :: t in outputs ==> t < |thresholds|
  {
    && Distinct(source)
    && forall n :: 0 <= n < |source| ==>
         outputs[n] in outputs
           && source[n] in Meeting(inputs, programSelected, outputs[n], thresholds[outputs[n]], |inputs|)
  }

  function Image(source: seq<nat>, s: set<nat>): set<nat>
    requires forall n :: n in s ==> n < |source|
  {
    set n | n in s :: source[n]
  }

  lemma ImageSize(source: seq<nat>, s: set<nat>)
    requires forall n :: n in s ==> n < |source|
    ensures |Image(source, s)| <= |s|
    ensures Distinct(source) ==> |Image(source, s)| == |s|
  {
    if s != {} {
      var n :| n in s;
      ImageSize(source, s - {n});
      assert Image(source, s) == Image(source, s - {n}) + {source[n]};
      if Distinct(source) {
        assert source[n] !in Image(source, s - {n});
      }
    }
  }

  /** As long as there are enough eligible inputs, the next output finds an unused one. */
  lemma UnusedInputExists(inputs: seq<Input>, programSelected: bool, outputs: seq<nat>, source: seq<nat>,
                          thresholds: seq<int>) returns (j: nat)
    requires Enough(inputs, programSelected, outputs) && |source| < |outputs|
    requires forall t :: t in outputs ==>
               t < |thresholds| && GreatestThreshold(inputs, programSelected, t, |OutputsOf(outputs, t)|, thresholds[t])
    requires Exclusive(inputs, programSelected, outputs, source, thresholds)
    ensures var t := outputs[|source|];
            t in outputs && j in Meeting(inputs, programSelected, t, thresholds[t], |inputs|) && j !in source
  {
    var t := outputs[|source|];
    assert t in outputs;
    var before := OutputsOf(outputs[..|source|], t);
    var used := Image(source, before);
    ImageSize(source, before);
    var all := OutputsOf(outputs, t);
    assert before + {|source|} <= all;
    SubsetSize(before + {|source|}, all);
    var meeting := Meeting(inputs, programSelected, t, thresholds[t], |inputs|);
    assert |used| < |meeting|;
    if meeting <= used {
      SubsetSize(meeting, used);
    }
    j :| j in meeting && j !in used;
    forall n | 0 <= n < |source|
      ensures source[n] != j
    {
      if outputs[n] == t {
        assert n in before;
      }
    }
  }

  /** Conversely, an exclusive assignment shows that there were enough. */
  lemma ExclusiveNeedsEnough(inputs: seq<Input>, programSelected: bool, outputs: seq<nat>, source: seq<nat>,
                             thresholds: seq<int>)
    requires |source| == |outputs| && forall t :: t in outputs ==> 0 <= t < |thresholds| && 0 <= thresholds[t]
    requires Exclusive(inputs, programSelected, outputs, source, thresholds)
    ensures Enough(inputs, programSelected, outputs)
  {
    forall t | t in outputs
      ensures |Meeting(inputs, programSelected, t, 0, |inputs|)| >= |OutputsOf(outputs, t)|
    {
      ImageSize(source, OutputsOf(outputs, t));
      SubsetSize(Image(source, OutputsOf(outputs, t)), Meeting(inputs, programSelected, t, 0, |inputs|));
    }
  }

  /** Any other choice of that many eligible inputs holds one that was probed for no more frames than the
      threshold: the greedy choice, all at or above it, has the largest possible minimum. */
  lemma NoChoiceIsBetter(inputs: seq<Input>, programSelected: bool, t: nat, needed: nat, threshold: int,
                         choice: set<nat>)
      returns (worst: nat)
    requires GreatestThreshold(inputs, programSelected, t, needed, threshold)
    requires choice <= Meeting(inputs, programSelected, t, 0, |inputs|) && |choice| >= needed > 0
    ensures worst in choice && inputs[worst].probed <= threshold
  {
    if forall c :: c in choice ==> inputs[c].probed > threshold {
      var c :| c in choice;
      SubsetSize(choice, Meeting(inputs, programSelected, t, threshold + 1, |inputs|));
      assert false;
    }
    worst :| worst in choice && inputs[worst].probed <= threshold;
  }

  /** The first unused eligible input of the right type that meets the threshold. */
  method FindUnused(inputs: seq<Input>, programSelected: bool, discard: array<bool>, mediaType: nat, threshold: int)
    returns (found: Option<nat>)
    requires discard.Length == |inputs|
    ensures found.Some? ==>
              found.value in Meeting(inputs, programSelected, mediaType, threshold, |inputs|) && discard[found.value]
    ensures found.Some? ==>
              forall j :: j in Meeting(inputs, programSelected, mediaType, threshold, |inputs|) && discard[j] ==>
                        found.value <= j
    ensures found.None? ==> forall j :: j in Meeting(inputs, programSelected, mediaType, threshold, |inputs|) ==>
              !discard[j]
  {
    for j := 0 to |inputs|
      invariant forall i :: 0 <= i < j && i in Meeting(inputs, programSelected, mediaType, threshold, |inputs|) ==>
                !discard[i]
    {
      if discard[j] && Eligible(inputs[j], programSelected) && inputs[j].mediaType == mediaType
         && threshold <= inputs[j].probed {
        return Some(j);
      }
    }
    return None;
  }

  /** The last usable input of the right type, used already or not. */
  method FindReusable(inputs: seq<Input>, mediaType: nat) returns (found: Option<nat>)
    ensures found.Some? ==> LastUsable(inputs, mediaType, found.value)
    ensures found.None? ==> forall j :: !Usable(inputs, mediaType, j)
  {
    found := None;
    for j := 0 to |inputs|
      invariant found.Some? ==> found.value < j && Usable(inputs, mediaType, found.value)
                                && forall i :: found.value < i < j ==> !Usable(inputs, mediaType, i)
      invariant found.None? ==> forall i :: 0 <= i < j ==> !Usable(inputs, mediaType, i)
    {
      if inputs[j].mediaType == mediaType && !inputs[j].discardAll {
        found := Some(j);
      }
    }
  }

  lemma GreedyNext(inputs: seq<Input>, programSelected: bool, outputs: seq<nat>, source: seq<nat>, thresholds: seq<int>,
                   j: nat)
    requires |source| < |outputs| && forall t :: t in outputs ==> t < |thresholds|
    requires Greedy(inputs, programSelected, outputs, source, thresholds)
    requires outputs[|source|] in outputs
    requires IsChoice(inputs, programSelected, outputs[|source|], thresholds[outputs[|source|]], source, j)
    ensures Greedy(inputs, programSelected, outputs, source + [j], thresholds)
  {
  }

  /** The search for one output: `None` if no input of its type may be used. */
  method PickInput(inputs: seq<Input>, programSelected: bool, discard: array<bool>, mediaType: nat, threshold: int,
                   ghost used: seq<nat>)
    returns (found: Option<nat>)
    requires discard.Length == |inputs| && 0 <= threshold
    requires forall j :: 0 <= j < |inputs| ==> (discard[j] <==> j !in used)
    ensures found.Some? ==> Usable(inputs, mediaType, found.value)
                            && IsChoice(inputs, programSelected, mediaType, threshold, used, found.value)
    ensures found.None? ==>
              && (forall j :: j in Meeting(inputs, programSelected, mediaType, threshold, |inputs|) ==> j in used)
              && (!programSelected ==> forall j :: !Usable(inputs, mediaType, j))
  {
    ghost var meeting := Meeting(inputs, programSelected, mediaType, threshold, |inputs|);
    found := FindUnused(inputs, programSelected, discard, mediaType, threshold);
    if found.None? {
      assert !exists i :: i in meeting && i !in used;
      if !programSelected {
        found := FindReusable(inputs, mediaType);
      }
    } else {
      assert found.value in meeting && found.value !in used;
    }
  }

  /** As long as no output had to reuse an input, the greedy rule never gives one twice: always if a program
      is selected, and also if there are enough inputs. */
  lemma {:induction false} GreedyIsExclusive(inputs: seq<Input>, programSelected: bool, outputs: seq<nat>,
                                             source: seq<nat>, thresholds: seq<int>)
    requires |source| <= |outputs|
    requires forall t :: t in outputs ==>
               t < |thresholds| && GreatestThreshold(inputs, programSelected, t, |OutputsOf(outputs, t)|, thresholds[t])
    requires Greedy(inputs, programSelected, outputs, source, thresholds)
    requires programSelected || Enough(inputs, programSelected, outputs)
    ensures Exclusive(inputs, programSelected, outputs, source, thresholds)
    decreases |source|
  {
    if source != [] {
      GreedyPrefix(inputs, programSelected, outputs, source, thresholds);
      GreedyIsExclusive(inputs, programSelected, outputs, source[..|source| - 1], thresholds);
      LastIsExclusive(inputs, programSelected, outputs, source, thresholds);
    }
  }

  lemma LastIsExclusive(inputs: seq<Input>, programSelected: bool, outputs: seq<nat>, source: seq<nat>,
                        thresholds: seq<int>)
    requires 0 < |source| <= |outputs| && outputs[|source| - 1] in outputs
    requires forall t :: t in outputs ==>
               t < |thresholds| && GreatestThreshold(inputs, programSelected, t, |OutputsOf(outputs, t)|, thresholds[t])
    requires programSelected || Enough(inputs, programSelected, outputs)
    requires Exclusive(inputs, programSelected, outputs, source[..|source| - 1], thresholds)
    requires var n := |source| - 1;
             IsChoice(inputs, programSelected, outputs[n], thresholds[outputs[n]], source[..n], source[n])
    ensures Exclusive(inputs, programSelected, outputs, source, thresholds)
  {
    var before, last := source[..|source| - 1], source[|source| - 1];
    ChoiceIsFresh(inputs, programSelected, outputs, before, thresholds, last);
    ExclusiveGrows(inputs, programSelected, outputs, before, thresholds, last);
    assert source == before + [last];
  }

  lemma GreedyPrefix(inputs: seq<Input>, programSelected: bool, outputs: seq<nat>, source: seq<nat>,
                     thresholds: seq<int>)
    requires 0 < |source| <= |outputs| && forall t :: t in outputs ==> t < |thresholds|
    requires Greedy(inputs, programSelected, outputs, source, thresholds)
    ensures Greedy(inputs, programSelected, outputs, source[..|source| - 1], thresholds)
    ensures var n := |source| - 1;
            outputs[n] in outputs
              && IsChoice(inputs, programSelected, outputs[n], thresholds[outputs[n]], source[..n], source[n])
  {
  }

  lemma ChoiceIsFresh(inputs: seq<Input>, programSelected: bool, outputs: seq<nat>, source: seq<nat>,
                      thresholds: seq<int>, j: nat)
    requires |source| < |outputs| && outputs[|source|] in outputs
    requires forall t :: t in outputs ==>
               t < |thresholds| && GreatestThreshold(inputs, programSelected, t, |OutputsOf(outputs, t)|, thresholds[t])
    requires Exclusive(inputs, programSelected, outputs, source, thresholds)
    requires programSelected || Enough(inputs, programSelected, outputs)
    requires IsChoice(inputs, programSelected, outputs[|source|], thresholds[outputs[|source|]], source, j)
    ensures j in Meeting(inputs, programSelected, outputs[|source|], thresholds[outputs[|source|]], |inputs|)
            && j !in source
  {
    if !programSelected {
      var unused := UnusedInputExists(inputs, programSelected, outputs, source, thresholds);
    }
  }

  lemma ExclusiveGrows(inputs: seq<Input>, programSelected: bool, outputs: seq<nat>, source: seq<nat>,
                       thresholds: seq<int>, j: nat)
    requires |source| < |outputs| && outputs[|source|] in outputs && forall t :: t in outputs ==> t < |thresholds|
    requires Exclusive(inputs, programSelected, outputs, source, thresholds)
    requires j in Meeting(inputs, programSelected, outputs[|source|], thresholds[outputs[|source|]], |inputs|)
             && j !in source
    ensures Exclusive(inputs, programSelected, outputs, source + [j], thresholds)
  {
  }

  /** So the search fails only if there are not enough inputs. */
  lemma StuckMeansNotEnough(inputs: seq<Input>, programSelected: bool, outputs: seq<nat>, source: seq<nat>,
                            thresholds: seq<int>)
    requires |source| < |outputs|
    requires forall t :: t in outputs ==>
               t < |thresholds| && GreatestThreshold(inputs, programSelected, t, |OutputsOf(outputs, t)|, thresholds[t])
    requires Greedy(inputs, programSelected, outputs, source, thresholds) && outputs[|source|] in outputs
    requires var t := outputs[|source|];
             forall j :: j in Meeting(inputs, programSelected, t, thresholds[t], |inputs|) ==> j in source
    ensures !Enough(inputs, programSelected, outputs)
  {
    if Enough(inputs, programSelected, outputs) {
      GreedyIsExclusive(inputs, programSelected, outputs, source, thresholds);
      var unused := UnusedInputExists(inputs, programSelected, outputs, source, thresholds);
      assert false;
    }
  }

  /** The assignment loop. `None` is the source's exit with "could not find input stream". */
  method Assign(inputs: seq<Input>, programSelected: bool, outputs: seq<nat>, thresholds: array<int>,
                discard: array<bool>)
    returns (result: Option<seq<nat>>)
    requires discard.Length == |inputs| && forall j :: 0 <= j < |inputs| ==> discard[j]
    requires forall t :: t in outputs ==>
               t < thresholds.Length
                 && GreatestThreshold(inputs, programSelected, t, |OutputsOf(outputs, t)|, thresholds[t])
    modifies discard
    ensures result.Some? ==> |result.value| == |outputs| && Sound(inputs, outputs, result.value)
    ensures result.Some? ==> forall j :: 0 <= j < |inputs| ==> (discard[j] <==> j !in result.value)
    ensures result.Some? ==> Greedy(inputs, programSelected, outputs, result.value, thresholds[..])
    ensures Enough(inputs, programSelected, outputs) ==>
              result.Some? && Exclusive(inputs, programSelected, outputs, result.value, thresholds[..])
    ensures programSelected ==> (result.Some? <==> Enough(inputs, programSelected, outputs))
    ensures !programSelected ==> (result.Some? <==> forall t :: t in outputs ==> exists j :: Usable(inputs, t, j))
  {
    var source: seq<nat> := [];
    ghost var limits := thresholds[..];
    for n := 0 to |outputs|
      invariant |source| == n && Sound(inputs, outputs, source)
      invariant forall j :: 0 <= j < |inputs| ==> (discard[j] <==> j !in source)
      invariant Greedy(inputs, programSelected, outputs, source, limits)
    {
      var t := outputs[n];
      assert t in outputs;
      var found := PickInput(inputs, programSelected, discard, t, thresholds[t], source);
      if found.None? {
        StuckMeansNotEnough(inputs, programSelected, outputs, source, limits);
        return None;
      }
      GreedyNext(inputs, programSelected, outputs, source, limits, found.value);
      discard[found.value] := false;
      source := source + [found.value];
    }
    AllServed(inputs, programSelected, outputs, source, limits);
    return Some(source);
  }

  lemma AllServed(inputs: seq<Input>, programSelected: bool, outputs: seq<nat>, source: seq<nat>, thresholds: seq<int>)
    requires |source| == |outputs| && Sound(inputs, outputs, source)
    requires forall t :: t in outputs ==>
               t < |thresholds| && GreatestThreshold(inputs, programSelected, t, |OutputsOf(outputs, t)|, thresholds[t])
    requires Greedy(inputs, programSelected, outputs, source, thresholds)
    ensures programSelected || Enough(inputs, programSelected, outputs) ==>
              Exclusive(inputs, programSelected, outputs, source, thresholds)
                && Enough(inputs, programSelected, outputs)
    ensures forall t :: t in outputs ==> exists j :: Usable(inputs, t, j)
  {
    if programSelected || Enough(inputs, programSelected, outputs) {
      GreedyIsExclusive(inputs, programSelected, outputs, source, thresholds);
      ExclusiveNeedsEnough(inputs, programSelected, outputs, source, thresholds);
    }
    forall t | t in outputs
      ensures exists j :: Usable(inputs, t, j)
    {
      var n :| 0 <= n < |outputs| && outputs[n] == t;
      assert Usable(inputs, t, source[n]);
    }
  }

  /** The least probed input of any `|outputs of type t|` eligible inputs is no better than each one chosen. */
  ghost predicate LargestMinimum(inputs: seq<Input>, programSelected: bool, outputs: seq<nat>, source: seq<nat>, t: nat)
    requires |source| == |outputs| && forall n :: 0 <= n < |source| ==> source[n] < |inputs|
  {
    forall choice: set<nat> ::
      choice <= Meeting(inputs, programSelected, t, 0, |inputs|) && |choice| >= |OutputsOf(outputs, t)| ==>
        exists worst :: worst in choice
                        && forall n :: 0 <= n < |outputs| && outputs[n] == t ==>
                                  inputs[worst].probed <= inputs[source[n]].probed
  }

  /** The whole selection. `types` is the number of media types. */
  method SelectStreams(inputs: seq<Input>, programSelected: bool, outputs: seq<nat>, types: nat, discard: array<bool>)
    returns (result: Option<seq<nat>>, ghost limits: seq<int>)
    requires discard.Length == |inputs| && forall j :: 0 <= j < |inputs| ==> discard[j]
    requires (forall i :: i in inputs ==> i.mediaType < types) && (forall t :: t in outputs ==> t < types)
    modifies discard
    ensures |limits| == types
    ensures forall t :: t in outputs ==>
              GreatestThreshold(inputs, programSelected, t, |OutputsOf(outputs, t)|, limits[t])
    ensures result.Some? ==> |result.value| == |outputs| && Sound(inputs, outputs, result.value)
    ensures result.Some? ==> Greedy(inputs, programSelected, outputs, result.value, limits)
    // each output gets an input of its own type, not discarded for good, and of the program if one is selected
    ensures result.Some? ==>
              forall n :: 0 <= n < |outputs| ==>
                && result.value[n] < |inputs| && inputs[result.value[n]].mediaType == outputs[n]
                && !inputs[result.value[n]].discardAll && (programSelected ==> inputs[result.value[n]].inProgram)
    ensures programSelected ==> (result.Some? <==> Enough(inputs, programSelected, outputs))
    ensures !programSelected ==> (result.Some? <==> forall t :: t in outputs ==> exists j :: Usable(inputs, t, j))
    ensures Enough(inputs, programSelected, outputs) ==>
              && result.Some? && Distinct(result.value)
              && (forall n :: 0 <= n < |outputs| ==>
                    result.value[n] in Meeting(inputs, programSelected, outputs[n], 0, |inputs|))
              && (forall t :: t in outputs ==> LargestMinimum(inputs, programSelected, outputs, result.value, t))
  {
    var nbStreams := CountOutputs(outputs, types);
    var thresholds := ThresholdSearch(inputs, programSelected, nbStreams);
    limits := thresholds[..];
    result := Assign(inputs, programSelected, outputs, thresholds, discard);
    if Enough(inputs, programSelected, outputs) {
      forall t | t in outputs
        ensures LargestMinimum(inputs, programSelected, outputs, result.value, t)
      {
        GreedyIsBest(inputs, programSelected, outputs, result.value, limits, t);
      }
    }
  }

  lemma GreedyIsBest(inputs: seq<Input>, programSelected: bool, outputs: seq<nat>, source: seq<nat>,
                     thresholds: seq<int>, t: nat)
    requires |source| == |outputs| && (forall u :: u in outputs ==> u < |thresholds|) && t in outputs
    requires Exclusive(inputs, programSelected, outputs, source, thresholds)
    requires GreatestThreshold(inputs, programSelected, t, |OutputsOf(outputs, t)|, thresholds[t])
    ensures LargestMinimum(inputs, programSelected, outputs, source, t)
  {
    var i :| 0 <= i < |outputs| && outputs[i] == t;
    assert i in OutputsOf(outputs, t);
    forall choice: set<nat> |
      choice <= Meeting(inputs, programSelected, t, 0, |inputs|) && |choice| >= |OutputsOf(outputs, t)|
      ensures exists worst :: worst in choice
                && forall n :: 0 <= n < |outputs| && outputs[n] == t ==>
                          inputs[worst].probed <= inputs[source[n]].probed
    {
      var worst := NoChoiceIsBetter(inputs, programSelected, t, |OutputsOf(outputs, t)|, thresholds[t], choice);
      assert worst in choice;
    }
  }
}
