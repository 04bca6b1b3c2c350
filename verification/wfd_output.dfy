/** The wireless-display PCM output (amadec/adec-wfd-out.cpp): a cache that feeds the device in multiples
    of 64 bytes, in-place volume scaling, and the expansion of stereo to eight 32-bit channels. */
module WfdOutput {
  import opened Bytes

  const ALIGNMENT := 64
  const OUTBUF_SIZE := 8192

  type sample = s: int | -0x8000 <= s < 0x8000

  /** A 16-bit little-endian sample. */
  function Sample(lo: byte, hi: byte): sample {
    var u := lo + 256 * hi;
    if u < 0x8000 then u else u - 0x1_0000
  }

  function Lo(s: sample): byte {
    (if s < 0 then s + 0x1_0000 else s) % 256
  }

  function Hi(s: sample): byte {
    (if s < 0 then s + 0x1_0000 else s) / 256
  }

  lemma SampleBytes(s: sample, lo: byte, hi: byte)
    ensures Sample(Lo(s), Hi(s)) == s
    ensures Lo(Sample(lo, hi)) == lo && Hi(Sample(lo, hi)) == hi
  {
  }

  type volume = v: real | 0.0 <= v <= 1.0

  /** C's conversion to an integer: truncation towards zero. */
  function Truncate(x: real): int {
    if x >= 0.0 then x.Floor else -((-x).Floor)
  }

  function Scale(vol: volume, s: sample): sample {
    var x := vol * (s as real);
    ScaleBounds(vol, s as real);
    Truncate(x)
  }

  lemma ScaleBounds(vol: volume, x: real)
    ensures 0.0 <= x ==> 0.0 <= vol * x <= x
    ensures x <= 0.0 ==> x <= vol * x <= 0.0
  {
  }

  /** A sample is scaled by the volume and truncated: it never grows, keeps its sign, and is less than 1 off. */
  lemma ScaleIsProduct(vol: volume, s: sample)
    ensures var x, n := vol * s as real, Scale(vol, s) as real;
            && (s >= 0 ==> 0.0 <= n <= x < n + 1.0)
            && (s <= 0 ==> n - 1.0 < x <= n <= 0.0)
  {
    ScaleBounds(vol, s as real);
  }

  /** The two bytes of a sample are its value as an unsigned word, the low byte first. */
  lemma SampleIsLittleEndian(lo: byte, hi: byte)
    ensures Sample(lo, hi) == lo + 256 * hi - if hi >= 128 then 65536 else 0
  {
  }

  lemma {:induction false} ScaledSample(vol: volume, s: seq<byte>, i: nat)
    requires 2 * i + 1 < |s|
    ensures var r := Scaled(vol, s);
            Sample(r[2 * i], r[2 * i + 1]) == Scale(vol, Sample(s[2 * i], s[2 * i + 1]))
  {
    if i == 0 {
      SampleBytes(Scale(vol, Sample(s[0], s[1])), 0, 0);
    } else {
      ScaledSample(vol, s[2..], i - 1);
    }
  }

  /** So sample `i` of a scaled buffer is sample `i` of the buffer times the volume, truncated towards zero. */
  lemma ScaledIsProduct(vol: volume, s: seq<byte>, i: nat) returns (was: sample, now: sample)
    requires 2 * i + 1 < |s|
    ensures was == Sample(s[2 * i], s[2 * i + 1]) && now == Sample(Scaled(vol, s)[2 * i], Scaled(vol, s)[2 * i + 1])
    ensures was >= 0 ==> 0 <= now && now as real <= vol * was as real < now as real + 1.0
    ensures was <= 0 ==> now <= 0 && now as real - 1.0 < vol * was as real <= now as real
  {
    was := Sample(s[2 * i], s[2 * i + 1]);
    now := Scale(vol, was);
    ScaledSample(vol, s, i);
    ScaleIsProduct(vol, was);
  }

  lemma {:induction false} OddByteStays(vol: volume, s: seq<byte>)
    requires |s| % 2 == 1
    ensures Scaled(vol, s)[|s| - 1] == s[|s| - 1]
  {
    if |s| > 1 {
      OddByteStays(vol, s[2..]);
    }
  }

  /** A buffer after the volume is applied: whole samples are scaled, an odd last byte is kept. */
  function Scaled(vol: volume, s: seq<byte>): (r: seq<byte>)
    ensures |r| == |s|
  {
    if |s| < 2 then s else
    var x := Scale(vol, Sample(s[0], s[1]));
    [Lo(x), Hi(x)] + Scaled(vol, s[2..])
  }

  lemma {:induction false} ScaledNext(vol: volume, s: seq<byte>, i: nat)
    requires 2 * i + 1 < |s|
    ensures var x := Scale(vol, Sample(s[2 * i], s[2 * i + 1]));
            Scaled(vol, s[..2 * i + 2]) == Scaled(vol, s[..2 * i]) + [Lo(x), Hi(x)]
  {
    if i > 0 {
      ScaledNext(vol, s[2..], i - 1);
      assert s[..2 * i + 2][2..] == s[2..][..2 * (i - 1) + 2];
      assert s[..2 * i][2..] == s[2..][..2 * (i - 1)];
    }
  }

  lemma {:induction false} ScaledTail(vol: volume, s: seq<byte>, i: nat)
    requires 2 * i <= |s| < 2 * i + 2
    ensures Scaled(vol, s) == Scaled(vol, s[..2 * i]) + s[2 * i..]
  {
    if i > 0 {
      ScaledTail(vol, s[2..], i - 1);
      assert s[..2 * i][2..] == s[2..][..2 * (i - 1)];
      assert s[2..][2 * (i - 1)..] == s[2 * i..];
    }
  }

  method ApplyStreamVolume(vol: volume, buf: array<byte>, size: nat)
    requires size <= buf.Length
    modifies buf
    ensures buf[..size] == Scaled(vol, old(buf[..size]))
    ensures buf[size..] == old(buf[size..])
  {
    ghost var was := buf[..size];
    for i := 0 to size / 2
      invariant buf[..2 * i] == Scaled(vol, was[..2 * i])
      invariant buf[2 * i..] == old(buf[2 * i..])
    {
      ScaledNext(vol, was, i);
      ScaleSample(vol, buf, 2 * i);
    }
    ghost var half := size / 2;
    ScaledTail(vol, was, half);
    assert buf[..size] == buf[..2 * half] + was[2 * half..];
  }

  method ScaleSample(vol: volume, buf: array<byte>, k: nat)
    requires k + 1 < buf.Length
    modifies buf
    ensures var x := Scale(vol, Sample(old(buf[k]), old(buf[k + 1]))); buf[..k + 2] == old(buf[..k]) + [Lo(x), Hi(x)]
    ensures buf[k + 2..] == old(buf[k + 2..])
  {
    var x := Scale(vol, Sample(buf[k], buf[k + 1]));
    buf[k], buf[k + 1] := Lo(x), Hi(x);
  }

  /** Eight 32-bit channels out of two 16-bit ones: front and rear pairs repeat the stereo pair in the
      upper half-words, the last four channels are silent. */
  function Frame(left: sample, right: sample): seq<int> {
    [0x1_0000 * left, 0x1_0000 * right, 0x1_0000 * left, 0x1_0000 * right, 0, 0, 0, 0]
  }

  function Expand(chunk: seq<byte>): seq<int> {
    if |chunk| < 4 then []
    else Frame(Sample(chunk[0], chunk[1]), Sample(chunk[2], chunk[3])) + Expand(chunk[4..])
  }

  lemma {:induction false} ExpandNext(chunk: seq<byte>, i: nat)
    requires 4 * i + 4 <= |chunk|
    ensures Expand(chunk[..4 * i + 4])
            == Expand(chunk[..4 * i])
              + Frame(Sample(chunk[4 * i], chunk[4 * i + 1]), Sample(chunk[4 * i + 2], chunk[4 * i + 3]))
  {
    if i > 0 {
      ExpandNext(chunk[4..], i - 1);
      assert chunk[..4 * i + 4][4..] == chunk[4..][..4 * (i - 1) + 4];
      assert chunk[..4 * i][4..] == chunk[4..][..4 * (i - 1)];
    }
  }

  /** Word `k` of frame `i`: the left samples in channels 0 and 2, the right ones in 1 and 3, in the upper half of
      the word; the last four channels are silent. */
  lemma {:induction false} ExpandAt(chunk: seq<byte>, i: nat, k: nat)
    requires 4 * i + 4 <= |chunk| && k < 8
    ensures 8 * i + 8 <= |Expand(chunk)|
    ensures var b := 4 * i + 2 * (k % 2);
            Expand(chunk)[8 * i + k] == if k < 4 then 65536 * Sample(chunk[b], chunk[b + 1]) else 0
  {
    if i > 0 {
      ExpandAt(chunk[4..], i - 1, k);
      assert Expand(chunk)[8 * i + k] == Expand(chunk[4..])[8 * (i - 1) + k];
    }
  }

  /** The upper half of a 32-bit word, read as a sample. */
  function UpperHalf(word: int): sample {
    var u := word / 0x1_0000 % 0x1_0000;
    if u < 0x8000 then u else u - 0x1_0000
  }

  lemma UpperHalfOfSample(s: sample)
    ensures UpperHalf(0x1_0000 * s) == s
  {
  }

  /** The 16-bit stream in channels 0 and 1 of an eight-channel buffer. */
  function FrontPair(words: seq<int>): seq<byte> {
    if |words| < 8 then []
    else
      var left, right := UpperHalf(words[0]), UpperHalf(words[1]);
      [Lo(left), Hi(left), Lo(right), Hi(right)] + FrontPair(words[8..])
  }

  /** Expansion loses nothing: channels 0 and 1 give back the stereo stream. */
  lemma {:induction false} ExpandKeepsStereo(chunk: seq<byte>)
    requires |chunk| % 4 == 0
    ensures |Expand(chunk)| == 2 * |chunk|
    ensures FrontPair(Expand(chunk)) == chunk
  {
    if chunk != [] {
      ExpandKeepsStereo(chunk[4..]);
      SampleBytes(0, chunk[0], chunk[1]);
      SampleBytes(0, chunk[2], chunk[3]);
      UpperHalfOfSample(Sample(chunk[0], chunk[1]));
      UpperHalfOfSample(Sample(chunk[2], chunk[3]));
      assert Expand(chunk)[8..] == Expand(chunk[4..]);
      assert chunk == [chunk[0], chunk[1], chunk[2], chunk[3]] + chunk[4..];
    }
  }

  function AlignDown(n: nat): nat {
    n - n % ALIGNMENT
  }

  /** So whole frames of four bytes are sent. */
  lemma WholeFrames(n: nat)
    ensures AlignDown(n) % 4 == 0
  {
    MultipleOfFour(16 * (n / ALIGNMENT), AlignDown(n));
  }

  lemma MultipleOfFour(q: nat, x: nat)
    requires x == 4 * q
    ensures x % 4 == 0
  {
  }

  /** One buffer as handed to the sound device. */
  datatype DeviceWrite = Stereo(bytes: seq<byte>) | Surround(words: seq<int>)

  function Rendering(tvMode: bool, chunk: seq<byte>): DeviceWrite {
    if tvMode then Surround(Expand(chunk)) else Stereo(chunk)
  }

  /** The stereo stream in what the device was given. */
  function Recovered(w: DeviceWrite): seq<byte> {
    match w
    case Stereo(bytes) => bytes
    case Surround(words) => FrontPair(words)
  }

  /** The stereo streams of all the buffers, one after the other. */
  function Heard(device: seq<DeviceWrite>): seq<byte> {
    if device == [] then [] else Heard(device[..|device| - 1]) + Recovered(device[|device| - 1])
  }

  /** What the device has been given, and what waits in the cache. */
  datatype State = State(device: seq<DeviceWrite>, cached: seq<byte>)

  /** A call: the bytes after the volume is applied, and whether memory for an expansion would be had. */
  datatype Call = Call(bytes: seq<byte>, mallocOk: bool)

  /** A write of fewer than 64 bytes is thrown away; any other sends the longest aligned prefix of the
      cache followed by the new bytes, unless there is no memory to expand it. */
  function Step(tvMode: bool, st: State, call: Call): State {
    if |call.bytes| < ALIGNMENT then st else
    var total := st.cached + call.bytes;
    var n := AlignDown(|total|);
    State(if tvMode && !call.mallocOk then st.device else st.device + [Rendering(tvMode, total[..n])], total[n..])
  }

  function After(tvMode: bool, calls: seq<Call>): State {
    if calls == [] then State([], [])
    else Step(tvMode, After(tvMode, calls[..|calls| - 1]), calls[|calls| - 1])
  }

  function Input(calls: seq<Call>): seq<byte> {
    if calls == [] then [] else Input(calls[..|calls| - 1]) + calls[|calls| - 1].bytes
  }

  /** A call that loses bytes: a short one that is not empty, or one whose expansion finds no memory. */
  predicate Loses(tvMode: bool, call: Call) {
    if |call.bytes| < 64 then call.bytes != [] else tvMode && !call.mallocOk
  }

  lemma HeardNext(device: seq<DeviceWrite>, w: DeviceWrite)
    ensures Heard(device + [w]) == Heard(device) + Recovered(w)
  {
    assert (device + [w])[..|device|] == device;
  }

  lemma RenderingKeepsChunk(tvMode: bool, chunk: seq<byte>)
    requires |chunk| % 4 == 0
    ensures Recovered(Rendering(tvMode, chunk)) == chunk
  {
    ExpandKeepsStereo(chunk);
  }

  /** What is heard, and what the cache still holds. */
  function Output(st: State): seq<byte> {
    Heard(st.device) + st.cached
  }

  lemma OutputNext(tvMode: bool, st: State, total: seq<byte>, n: nat)
    requires n <= |total| && n % 4 == 0
    ensures Output(State(st.device + [Rendering(tvMode, total[..n])], total[n..])) == Heard(st.device) + total
  {
    HeardNext(st.device, Rendering(tvMode, total[..n]));
    RenderingKeepsChunk(tvMode, total[..n]);
    Split(Heard(st.device), total, n);
  }

  lemma Split<T>(a: seq<T>, b: seq<T>, n: nat)
    requires n <= |b|
    ensures a + b[..n] + b[n..] == a + b
  {
  }

  lemma AlignDownBounds(n: nat)
    ensures AlignDown(n) <= n < AlignDown(n) + ALIGNMENT && AlignDown(n) % 4 == 0
    ensures n >= ALIGNMENT ==> AlignDown(n) > 0
  {
    WholeFrames(n);
  }

  /** One call extends the output by exactly its bytes, or else leaves it shorter than that. */
  lemma StepConserves(tvMode: bool, st: State, call: Call)
    requires |st.cached| < ALIGNMENT
    ensures |Step(tvMode, st, call).cached| < ALIGNMENT
    ensures !Loses(tvMode, call) ==> Output(Step(tvMode, st, call)) == Output(st) + call.bytes
    ensures Loses(tvMode, call) ==> |Output(Step(tvMode, st, call))| < |Output(st)| + |call.bytes|
  {
    if |call.bytes| >= ALIGNMENT {
      StepSends(tvMode, st, call);
    }
  }

  lemma StepSends(tvMode: bool, st: State, call: Call)
    requires |st.cached| < ALIGNMENT <= |call.bytes|
    ensures |Step(tvMode, st, call).cached| < ALIGNMENT
    ensures if tvMode && !call.mallocOk then |Output(Step(tvMode, st, call))| < |Output(st)| + |call.bytes|
            else Output(Step(tvMode, st, call)) == Output(st) + call.bytes
  {
    var total := st.cached + call.bytes;
    AlignDownBounds(|total|);
    if !tvMode || call.mallocOk {
      OutputNext(tvMode, st, total, AlignDown(|total|));
      Regroup(Heard(st.device), st.cached, call.bytes);
    }
  }

  lemma Regroup<T>(a: seq<T>, b: seq<T>, c: seq<T>)
    ensures a + (b + c) == a + b + c
  {
  }

  predicate Aligned(w: DeviceWrite) {
    |Recovered(w)| % 64 == 0
  }

  lemma StepAligned(tvMode: bool, st: State, call: Call)
    requires |st.cached| < ALIGNMENT && forall w :: w in st.device ==> Aligned(w)
    ensures forall w :: w in Step(tvMode, st, call).device ==> Aligned(w)
  {
    if |call.bytes| >= ALIGNMENT {
      var total := st.cached + call.bytes;
      AlignDownBounds(|total|);
      RenderingKeepsChunk(tvMode, total[..AlignDown(|total|)]);
    }
  }

  lemma {:induction false} ChunksAreAligned(tvMode: bool, calls: seq<Call>)
    ensures var st := After(tvMode, calls);
            |st.cached| < 64 && forall w :: w in st.device ==> Aligned(w)
  {
    if calls != [] {
      var before, last := calls[..|calls| - 1], calls[|calls| - 1];
      ChunksAreAligned(tvMode, before);
      StepAligned(tvMode, After(tvMode, before), last);
      StepConserves(tvMode, After(tvMode, before), last);
    }
  }

  predicate Lossless(tvMode: bool, calls: seq<Call>) {
    forall c :: c in calls ==> !Loses(tvMode, c)
  }

  /** Over any calls, what is heard followed by the cache is the input if no call loses bytes, and shorter
      otherwise: it is the input exactly if no write has 1 to 63 bytes and no expansion lacks memory. */
  lemma {:induction false} StreamIsKept(tvMode: bool, calls: seq<Call>)
    ensures var output := Output(After(tvMode, calls));
            && (output == Input(calls) <==> Lossless(tvMode, calls))
            && (output != Input(calls) ==> |output| < |Input(calls)|)
  {
    if calls != [] {
      var before, last := calls[..|calls| - 1], calls[|calls| - 1];
      StreamIsKept(tvMode, before);
      ChunksAreAligned(tvMode, before);
      var st := After(tvMode, before);
      StepConserves(tvMode, st, last);
      assert calls == before + [last];
      LosslessNext(tvMode, before, last);
      KeptNext(Output(st), Output(Step(tvMode, st, last)), Input(before), last.bytes, Lossless(tvMode, before),
               Loses(tvMode, last));
    }
  }

  /** An output that is the input or shorter stays so. */
  lemma KeptNext(output: seq<byte>, next: seq<byte>, input: seq<byte>, bytes: seq<byte>, lossless: bool, loses: bool)
    requires (output == input <==> lossless) && (output != input ==> |output| < |input|)
    requires if loses then |next| < |output| + |bytes| else next == output + bytes
    ensures (next == input + bytes <==> lossless && !loses) && (next != input + bytes ==> |next| < |input + bytes|)
  {
  }

  lemma LosslessNext(tvMode: bool, calls: seq<Call>, call: Call)
    ensures Lossless(tvMode, calls + [call]) <==> Lossless(tvMode, calls) && !Loses(tvMode, call)
  {
    assert forall c :: c in calls + [call] <==> c in calls || c == call;
  }

  class PcmOutput {
    var cachedLen: nat
    var cache: array<byte>
    const tvMode: bool
    ghost var state: State

    ghost predicate Valid()
      reads this, cache
    {
      && cache.Length == 64
      && cachedLen == |state.cached| < ALIGNMENT
      && (forall k :: 0 <= k < cachedLen ==> cache[k] == state.cached[k])
    }

    constructor (tvMode: bool)
      ensures Valid() && fresh(cache) && state == After(tvMode, []) && this.tvMode == tvMode
    {
      cachedLen := 0;
      cache := new byte[64](_ => 0);
      this.tvMode := tvMode;
      state := State([], []);
    }

    /** `pcm_output_write`. `deviceRet` is what the sound device answers. */
    method Write(buf: array<byte>, size: nat, vol: volume, mallocOk: bool, deviceRet: int) returns (ret: int)
      requires Valid() && buf != cache && size <= buf.Length
      requires AlignDown(cachedLen + size) <= OUTBUF_SIZE
      modifies this`cachedLen, this`state, cache, buf
      ensures Valid()
      ensures buf[..size] == Scaled(vol, old(buf[..size])) && buf[size..] == old(buf[size..])
      ensures state == Step(tvMode, old(state), Call(buf[..size], mallocOk))
      ensures ret == if size < 64 then 0 else if tvMode && !mallocOk then -1 else deviceRet
    {
      ApplyStreamVolume(vol, buf, size);
      if size < ALIGNMENT {
        return 0;
      }
      ghost var bytes := buf[..size];
      var outbuf := new byte[OUTBUF_SIZE];
      var outputLen := Realign(outbuf, buf, size, bytes);
      ret := Emit(outbuf, outputLen, mallocOk, deviceRet);
    }

    /** The output part of `pcm_output_write`. */
    method Emit(outbuf: array<byte>, outputLen: nat, mallocOk: bool, deviceRet: int) returns (ret: int)
      requires outputLen <= outbuf.Length && outputLen % 4 == 0
      modifies this`state
      ensures ret == if tvMode && !mallocOk then -1 else deviceRet
      ensures state == if tvMode && !mallocOk then old(state)
                       else old(state).(device := old(state).device + [Rendering(tvMode, outbuf[..outputLen])])
    {
      if tvMode {
        if !mallocOk {
          return -1;
        }
        var words := ExpandFrames(outbuf, outputLen);
        state := state.(device := state.device + [Surround(words[..])]);
      } else {
        state := state.(device := state.device + [Stereo(outbuf[..outputLen])]);
      }
      return deviceRet;
    }

    /** The copying part of `pcm_output_write`: the cache and the head of `buf` go to `outbuf`, the tail of
        `buf` becomes the cache. */
    method Realign(outbuf: array<byte>, buf: array<byte>, size: nat, ghost bytes: seq<byte>) returns (outputLen: nat)
      requires Valid() && buf != cache && outbuf != buf && outbuf != cache && ALIGNMENT <= size <= buf.Length
      requires outbuf.Length == OUTBUF_SIZE && AlignDown(cachedLen + size) <= OUTBUF_SIZE
      requires bytes == buf[..size]
      modifies this`cachedLen, this`state, cache, outbuf
      ensures Valid() && outputLen <= OUTBUF_SIZE && outputLen % 4 == 0
      ensures var total := old(state).cached + bytes;
              && outputLen == AlignDown(|total|) && outbuf[..outputLen] == total[..outputLen]
              && state == old(state).(cached := total[outputLen..])
    {
      var totalLen := size + cachedLen;
      ghost var total := state.cached + bytes;
      outputLen := AlignDown(totalLen);
      WholeFrames(totalLen);
      var rest := outputLen - cachedLen;
      assert total[outputLen..] == buf[rest..rest + totalLen % ALIGNMENT];
      FillOutput(outbuf, buf, rest, total);
      KeepTail(buf, rest, totalLen % ALIGNMENT, total[outputLen..]);
      state := state.(cached := total[outputLen..]);
    }

    method FillOutput(outbuf: array<byte>, buf: array<byte>, rest: nat, ghost total: seq<byte>)
      requires Valid() && outbuf != buf && outbuf != cache && rest <= buf.Length && cachedLen + rest <= outbuf.Length
      requires cachedLen + rest <= |total| && total[..cachedLen] == state.cached
      requires forall k :: 0 <= k < rest ==> total[cachedLen + k] == buf[k]
      modifies outbuf
      ensures outbuf[..cachedLen + rest] == total[..cachedLen + rest]
    {
      assert forall k :: 0 <= k < cachedLen ==> cache[k] == total[k];
      if cachedLen > 0 {
        MemCpy(outbuf, 0, cache, 0, cachedLen);
      }
      MemCpy(outbuf, cachedLen, buf, 0, rest);
    }

    method KeepTail(buf: array<byte>, rest: nat, left: nat, ghost tail: seq<byte>)
      requires cache.Length == 64 && buf != cache && left < ALIGNMENT && rest + left <= buf.Length
      requires tail == buf[rest..rest + left]
      modifies this`cachedLen, cache
      ensures cachedLen == left && cache[..left] == tail
    {
      cachedLen := left;
      if cachedLen > 0 {
        MemCpy(cache, 0, buf, rest, cachedLen);
      }
      assert cache[..left] == buf[rest..rest + left];
    }
  }

  method ExpandFrames(outbuf: array<byte>, outputLen: nat) returns (words: array<int>)
    requires outputLen % 4 == 0 && outputLen <= outbuf.Length
    ensures fresh(words) && words[..] == Expand(outbuf[..outputLen])
  {
    words := new int[outputLen * 2];
    ghost var chunk := outbuf[..outputLen];
    var i := 0;
    while i < outputLen / 4
      invariant 0 <= i <= outputLen / 4
      invariant words[..8 * i] == Expand(chunk[..4 * i])
    {
      ExpandNext(chunk, i);
      var left := Sample(outbuf[4 * i], outbuf[4 * i + 1]);
      var right := Sample(outbuf[4 * i + 2], outbuf[4 * i + 3]);
      WriteFrame(words, i, left, right);
      assert words[..8 * i + 8] == words[..8 * i] + words[8 * i..8 * i + 8];
      i := i + 1;
    }
    assert chunk[..4 * i] == chunk;
    assert words[..8 * i] == words[..];
  }

  method WriteFrame(words: array<int>, i: nat, left: int, right: int)
    requires 8 * i + 8 <= words.Length
    requires -0x8000 <= left < 0x8000 && -0x8000 <= right < 0x8000
    modifies words
    ensures words[8 * i..8 * i + 8] == Frame(left, right)
    ensures words[..8 * i] == old(words[..8 * i])
  {
    words[8 * i] := 0x1_0000 * left;
    words[8 * i + 1] := 0x1_0000 * right;
    words[8 * i + 2] := 0x1_0000 * left;
    words[8 * i + 3] := 0x1_0000 * right;
    words[8 * i + 4] := 0;
    words[8 * i + 5] := 0;
    words[8 * i + 6] := 0;
    words[8 * i + 7] := 0;
  }
}
