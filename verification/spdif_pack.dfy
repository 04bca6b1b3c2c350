/** Packing a frame for the S/PDIF output (amadec/spdif_api.c): the IEC 61937-1 burst around compressed
    audio, and the de-interleaving of every 64 bytes into 16 left samples followed by 16 right ones. */
module SpdifPack {
  import opened Bytes

  const BLOCK := 64
  const BURST := 6144
  const DTS_BURST := 2048

  datatype StreamType = Ac3 | Dts | Raw

  /** Where byte `k` of a de-interleaved block comes from. */
  function Origin(k: nat): nat
    requires k < BLOCK
  {
    4 * (k % 32 / 2) + 2 * (k / 32) + k % 2
  }

  /** Where byte `m` of an interleaved block goes to. */
  function Target(m: nat): nat
    requires m < BLOCK
  {
    32 * (m % 4 / 2) + 2 * (m / 4) + m % 2
  }

  lemma OriginAt(half: nat, i: nat, c: nat)
    requires half < 2 && i < 16 && c < 2
    ensures Origin(32 * half + 2 * i + c) == 4 * i + 2 * half + c
  {
  }

  lemma TargetAt(half: nat, i: nat, c: nat)
    requires half < 2 && i < 16 && c < 2
    ensures Target(4 * i + 2 * half + c) == 32 * half + 2 * i + c
  {
  }

  lemma TargetOfOrigin(k: nat)
    requires k < BLOCK
    ensures Origin(k) < BLOCK && Target(Origin(k)) == k
  {
    assert k == 32 * (k / 32) + 2 * (k % 32 / 2) + k % 2;
    TargetAt(k / 32, k % 32 / 2, k % 2);
  }

  lemma OriginOfTarget(k: nat)
    requires k < BLOCK
    ensures Target(k) < BLOCK && Origin(Target(k)) == k
  {
    assert k == 4 * (k / 4) + 2 * (k % 4 / 2) + k % 2;
    OriginAt(k % 4 / 2, k / 4, k % 2);
  }

  lemma TargetInvertsOrigin(k: nat)
    requires k < BLOCK
    ensures Origin(k) < BLOCK && Target(Origin(k)) == k
    ensures Target(k) < BLOCK && Origin(Target(k)) == k
  {
    TargetOfOrigin(k);
    OriginOfTarget(k);
  }

  function DeinterleaveBlock(s: seq<byte>): (r: seq<byte>)
    requires |s| == BLOCK
    ensures |r| == BLOCK
  {
    seq(BLOCK, k requires 0 <= k < BLOCK => TargetInvertsOrigin(k); s[Origin(k)])
  }

  lemma BlockAt(s: seq<byte>, i: nat)
    requires |s| == BLOCK && i < 16
    ensures var d := DeinterleaveBlock(s);
            && d[2 * i] == s[4 * i] && d[2 * i + 1] == s[4 * i + 1]
            && d[32 + 2 * i] == s[4 * i + 2] && d[32 + 2 * i + 1] == s[4 * i + 3]
  {
    OriginAt(0, i, 0);
    OriginAt(0, i, 1);
    OriginAt(1, i, 0);
    OriginAt(1, i, 1);
  }

  function InterleaveBlock(s: seq<byte>): (r: seq<byte>)
    requires |s| == BLOCK
    ensures |r| == BLOCK
  {
    seq(BLOCK, m requires 0 <= m < BLOCK => TargetInvertsOrigin(m); s[Target(m)])
  }

  lemma BlockRoundTrip(s: seq<byte>)
    requires |s| == BLOCK
    ensures InterleaveBlock(DeinterleaveBlock(s)) == s
    ensures DeinterleaveBlock(InterleaveBlock(s)) == s
  {
    forall k | 0 <= k < BLOCK
      ensures InterleaveBlock(DeinterleaveBlock(s))[k] == s[k] && DeinterleaveBlock(InterleaveBlock(s))[k] == s[k]
    {
      TargetInvertsOrigin(k);
    }
  }

  function Deinterleave(s: seq<byte>): (r: seq<byte>)
    requires |s| % BLOCK == 0
    ensures |r| == |s|
  {
    if s == [] then [] else DeinterleaveBlock(s[..BLOCK]) + Deinterleave(s[BLOCK..])
  }

  function Interleave(s: seq<byte>): (r: seq<byte>)
    requires |s| % BLOCK == 0
    ensures |r| == |s|
  {
    if s == [] then [] else InterleaveBlock(s[..BLOCK]) + Interleave(s[BLOCK..])
  }

  /** De-interleaving is a permutation of the bytes: `Interleave` undoes it, on either side. */
  lemma {:induction false} RoundTrip(s: seq<byte>)
    requires |s| % BLOCK == 0
    ensures Interleave(Deinterleave(s)) == s
    ensures Deinterleave(Interleave(s)) == s
  {
    if s != [] {
      RoundTrip(s[BLOCK..]);
      BlockRoundTrip(s[..BLOCK]);
      var d, i := Deinterleave(s), Interleave(s);
      assert d[..BLOCK] == DeinterleaveBlock(s[..BLOCK]) && d[BLOCK..] == Deinterleave(s[BLOCK..]);
      assert i[..BLOCK] == InterleaveBlock(s[..BLOCK]) && i[BLOCK..] == Interleave(s[BLOCK..]);
    }
  }

  lemma {:induction false} BlockOf(s: seq<byte>, b: nat)
    requires |s| % BLOCK == 0 && 64 * b + 64 <= |s|
    ensures Deinterleave(s)[64 * b..64 * b + 64] == DeinterleaveBlock(s[64 * b..64 * b + 64])
  {
    var head, rest := DeinterleaveBlock(s[..BLOCK]), s[BLOCK..];
    assert Deinterleave(s) == head + Deinterleave(rest);
    if b > 0 {
      var k := 64 * (b - 1);
      BlockOf(rest, b - 1);
      assert rest[k..k + 64] == s[64 * b..64 * b + 64];
      assert (head + Deinterleave(rest))[64 * b..64 * b + 64] == Deinterleave(rest)[k..k + 64];
    }
  }

  /** Of each block, the even 16-bit samples come first and then the odd ones. */
  lemma DeinterleavedAt(s: seq<byte>, b: nat, i: nat) returns (d: seq<byte>, block: seq<byte>)
    requires |s| % BLOCK == 0 && 64 * b + 64 <= |s| && i < 16
    ensures d == Deinterleave(s)[64 * b..64 * b + 64] && block == s[64 * b..64 * b + 64]
    ensures d[2 * i] == block[4 * i] && d[2 * i + 1] == block[4 * i + 1]
    ensures d[32 + 2 * i] == block[4 * i + 2] && d[32 + 2 * i + 1] == block[4 * i + 3]
  {
    block := s[64 * b..64 * b + 64];
    d := DeinterleaveBlock(block);
    BlockOf(s, b);
    BlockAt(block, i);
  }

  /** A 16-bit word as a little-endian processor stores it. */
  function Word(w: nat): seq<byte> {
    [w % 256, w / 256 % 256]
  }

  /** An IEC 61937-1 burst: the preamble Pa, Pb, Pc, Pd, the payload, and zero stuffing up to 6144 bytes. */
  function Burst(pc: nat, pd: nat, payload: seq<byte>): (s: seq<byte>)
    requires |payload| <= BURST - 8
    ensures |s| == BURST
  {
    Word(0xF872) + Word(0x4E1F) + Word(pc) + Word(pd) + payload + seq(BURST - 8 - |payload|, _ => 0)
  }

  function Ac3Burst(payload: seq<byte>): (s: seq<byte>)
    requires |payload| <= BURST - 8
    ensures |s| == BURST
  {
    Burst(1, 8 * |payload|, payload)[..BURST]
  }

  function DtsBurst(payload: seq<byte>): (s: seq<byte>)
    requires |payload| <= BURST - 8
    ensures |s| == DTS_BURST
  {
    Burst(11, 2040 * 8, payload)[..DTS_BURST]
  }

  /** `(n >> 6) << 6`. */
  function RoundDown(n: nat): (r: nat)
    ensures r % BLOCK == 0 && r <= n < r + BLOCK
  {
    n / BLOCK * BLOCK
  }

  function RoundUp(n: nat): (r: nat)
    ensures r % BLOCK == 0 && n <= r < n + BLOCK
    ensures n <= BURST ==> r <= BURST
    ensures RoundDown(n) <= r
  {
    RoundDown(n + BLOCK - 1)
  }

  /** A raw frame cut to whole blocks. */
  function WholeBlocks(frame: seq<byte>): (r: seq<byte>)
    ensures |r| % BLOCK == 0 && |r| == RoundDown(|frame|)
  {
    frame[..RoundDown(|frame|)]
  }

  /** The whole blocks of a raw frame do not depend on what follows them in the buffer. */
  lemma RawPrefix(s: seq<byte>, frame: seq<byte>)
    requires |s| == RoundUp(|frame|) && s[..|frame|] == frame
    ensures Deinterleave(s)[..RoundDown(|frame|)] == Deinterleave(WholeBlocks(frame))
  {
    var n := RoundDown(|frame|);
    DeinterleavePrefix(s, n);
    assert s[..n] == s[..|frame|][..n];
  }

  /** What `PackFrame` leaves at the front of its buffer. */
  function Packed(streamType: StreamType, frame: seq<byte>): seq<byte>
    requires |frame| <= if streamType.Raw? then BURST else BURST - 8
  {
    match streamType
    case Ac3 => Deinterleave(Ac3Burst(frame))
    case Dts => Deinterleave(DtsBurst(frame))
    case Raw => Deinterleave(WholeBlocks(frame))
  }

  /** What a receiver finds in a burst: the preamble, the payload, and then zeros only. */
  ghost predicate IsBurst(s: seq<byte>, pc: nat, pd: nat, payload: seq<byte>) {
    && 8 + |payload| <= |s|
    && s[..8] == [0x72, 0xF8, 0x1F, 0x4E, pc % 256, pc / 256 % 256, pd % 256, pd / 256 % 256]
    && s[8..8 + |payload|] == payload
    && forall k :: 8 + |payload| <= k < |s| ==> s[k] == 0
  }

  lemma BurstReadsBack(pc: nat, pd: nat, payload: seq<byte>, length: nat)
    requires |payload| <= BURST - 8 && 8 <= length <= BURST
    ensures IsBurst(Burst(pc, pd, payload)[..length], pc, pd, payload[..Min(|payload|, length - 8)])
  {
    var n := Min(|payload|, length - 8);
    var head := Word(0xF872) + Word(0x4E1F) + Word(pc) + Word(pd);
    assert Word(0xF872) == [0x72, 0xF8] && Word(0x4E1F) == [0x1F, 0x4E];
    CutReadsBack(head, payload, BURST - 8 - |payload|, length, n);
  }

  /** A header, a payload and zeros, cut to `length`. */
  lemma CutReadsBack(head: seq<byte>, payload: seq<byte>, zeros: nat, length: nat, n: nat)
    requires |head| == 8 && 8 <= length <= 8 + |payload| + zeros && n == Min(|payload|, length - 8)
    ensures var s := (head + payload + seq(zeros, _ => 0))[..length];
            && s[..8] == head && s[8..8 + n] == payload[..n]
            && forall k :: 8 + n <= k < |s| ==> s[k] == 0
  {
  }

  /** A receiver that re-interleaves an AC3 frame finds the preamble with the payload length in bits, the
      payload itself and then zeros. */
  lemma Ac3Received(payload: seq<byte>)
    requires |payload| <= BURST - 8
    ensures |Packed(Ac3, payload)| == BURST
    ensures IsBurst(Interleave(Packed(Ac3, payload)), 1, 8 * |payload|, payload)
  {
    RoundTrip(Ac3Burst(payload));
    BurstReadsBack(1, 8 * |payload|, payload, BURST);
    assert Ac3Burst(payload)[..BURST] == Ac3Burst(payload);
    assert payload[..|payload|] == payload;
  }

  /** Likewise for DTS, whose 2048-byte burst holds at most 2040 bytes of payload: a longer frame is cut. */
  lemma DtsReceived(payload: seq<byte>)
    requires |payload| <= BURST - 8
    ensures |Packed(Dts, payload)| == DTS_BURST
    ensures IsBurst(Interleave(Packed(Dts, payload)), 11, 2040 * 8, payload[..Min(|payload|, 2040)])
  {
    RoundTrip(DtsBurst(payload));
    BurstReadsBack(11, 2040 * 8, payload, DTS_BURST);
  }

  /** A raw frame comes back whole exactly when its size is a multiple of 64. */
  lemma RawReceived(frame: seq<byte>)
    requires |frame| <= BURST
    ensures Interleave(Packed(Raw, frame)) == WholeBlocks(frame)
    ensures Interleave(Packed(Raw, frame)) == frame <==> |frame| % BLOCK == 0
  {
    RoundTrip(WholeBlocks(frame));
  }

  lemma {:induction false} DeinterleaveNext(s: seq<byte>, j: nat)
    requires j % BLOCK == 0 && j + BLOCK <= |s|
    ensures Deinterleave(s[..j + BLOCK]) == Deinterleave(s[..j]) + DeinterleaveBlock(s[j..j + BLOCK])
  {
    var next := s[..j + BLOCK];
    if j == 0 {
      assert next[..BLOCK] == s[0..BLOCK] == next;
      assert next[BLOCK..] == [];
    } else {
      DeinterleaveNext(s[BLOCK..], j - BLOCK);
      assert next[..BLOCK] == s[..j][..BLOCK];
      assert next[BLOCK..] == s[BLOCK..][..j - BLOCK + BLOCK];
      assert s[..j][BLOCK..] == s[BLOCK..][..j - BLOCK];
      assert s[j..j + BLOCK] == s[BLOCK..][j - BLOCK..j - BLOCK + BLOCK];
    }
  }

  lemma BlockFits(j: nat, n: nat)
    requires j % BLOCK == 0 && n % BLOCK == 0 && j < n
    ensures j + BLOCK <= n && (j + BLOCK) % BLOCK == 0
  {
  }

  lemma BlocksEnd(j: nat, n: nat, limit: nat)
    requires j % BLOCK == 0 && n % BLOCK == 0 && limit <= j <= n < limit + BLOCK
    ensures j == n
  {
  }

  lemma LessABlock(n: nat)
    requires n % BLOCK == 0 && n > 0
    ensures n >= BLOCK && (n - BLOCK) % BLOCK == 0
  {
  }

  lemma {:induction false} DeinterleavePrefix(s: seq<byte>, j: nat)
    requires |s| % BLOCK == 0 && j % BLOCK == 0 && j <= |s|
    ensures Deinterleave(s)[..j] == Deinterleave(s[..j])
  {
    if j > 0 {
      LessABlock(j);
      LessABlock(|s|);
      var first, rest, t := s[..BLOCK], s[BLOCK..], s[..j];
      DeinterleavePrefix(rest, j - BLOCK);
      assert t[..BLOCK] == first && t[BLOCK..] == rest[..j - BLOCK];
      assert Deinterleave(t) == DeinterleaveBlock(first) + Deinterleave(rest[..j - BLOCK]);
    }
  }

  /** How many bytes of the caller's buffer are written. */
  function Written(streamType: StreamType, frameSize: nat): nat {
    match streamType
    case Ac3 => BURST
    case Dts => DTS_BURST
    case Raw => RoundUp(frameSize)
  }

  class Packer {
    var streamType: StreamType
    const iecBuf: array<byte> // iec958_buf, as bytes

    constructor (streamType: StreamType)
      ensures this.streamType == streamType && iecBuf.Length == BURST && fresh(iecBuf)
    {
      this.streamType := streamType;
      iecBuf := new byte[BURST](_ => 0);
    }

    method SetWord(k: nat, w: nat)
      requires iecBuf.Length == BURST && 2 * k + 1 < BURST
      modifies iecBuf
      ensures iecBuf[2 * k] == Word(w)[0] && iecBuf[2 * k + 1] == Word(w)[1]
      ensures forall m :: 0 <= m < BURST && m != 2 * k && m != 2 * k + 1 ==> iecBuf[m] == old(iecBuf[m])
    {
      iecBuf[2 * k] := w % 256;
      iecBuf[2 * k + 1] := w / 256 % 256;
    }

    /** The burst branches fill the static buffer: preamble, payload, and zeros up to its end. */
    method FillBurst(buf: array<byte>, frameSize: nat, pc: nat, pd: nat)
      requires iecBuf.Length == BURST && buf != iecBuf && frameSize <= buf.Length && frameSize <= BURST - 8
      modifies iecBuf
      ensures iecBuf[..] == Burst(pc, pd, buf[..frameSize])
    {
      SetWord(0, 0xF872);
      SetWord(1, 0x4E1F);
      SetWord(2, pc);
      SetWord(3, pd);
      MemCpy(iecBuf, 8, buf, 0, frameSize);
      var k := frameSize + 8;
      while k < BURST
        invariant frameSize + 8 <= k <= BURST
        invariant forall m :: 0 <= m < frameSize + 8 ==> iecBuf[m] == Burst(pc, pd, buf[..frameSize])[m]
        invariant forall m :: frameSize + 8 <= m < k ==> iecBuf[m] == 0
      {
        iecBuf[k] := 0;
        k := k + 1;
      }
    }

    /** The two nested copying loops, the same in all three branches; `n` is `limit` rounded up to whole blocks. */
    method Rewrite(buf: array<byte>, limit: nat, ghost n: nat)
      requires iecBuf.Length == BURST && buf != iecBuf
      requires n % BLOCK == 0 && limit <= n < limit + BLOCK && n <= BURST && n <= buf.Length
      modifies buf
      ensures buf[..n] == Deinterleave(iecBuf[..n]) && buf[n..] == old(buf[n..])
    {
      var pp, left, right := 0, 0, 16; // in samples
      var j := 0;
      while j < limit
        invariant 0 <= j <= n && j % BLOCK == 0
        invariant 2 * pp == 2 * left == j && right == left + 16
        invariant buf[..j] == Deinterleave(iecBuf[..j])
        invariant buf[j..] == old(buf[j..])
      {
        BlockFits(j, n);
        pp, left, right := NextBlock(buf, pp, left, right, j);
        left := left + 16;
        right := right + 16;
        j := j + 64;
      }
      BlocksEnd(j, n, limit);
    }

    /** One more block is rewritten. */
    method NextBlock(buf: array<byte>, pp0: nat, left0: nat, right0: nat, ghost j: nat)
      returns (pp: nat, left: nat, right: nat)
      requires iecBuf.Length == BURST && buf != iecBuf
      requires j + BLOCK <= BURST && j + BLOCK <= buf.Length && j % BLOCK == 0
      requires 2 * pp0 == 2 * left0 == j && right0 == left0 + 16
      requires buf[..j] == Deinterleave(iecBuf[..j])
      modifies buf
      ensures pp == pp0 + 32 && left == left0 + 16 && right == right0 + 16
      ensures buf[..j + BLOCK] == Deinterleave(iecBuf[..j + BLOCK])
      ensures buf[j + BLOCK..] == old(buf[j + BLOCK..])
    {
      ghost var head := buf[..j];
      pp, left, right := RewriteBlock(buf, pp0, left0, right0);
      DeinterleaveNext(iecBuf[..], j);
      assert iecBuf[..][..j] == iecBuf[..j] && iecBuf[..][j..j + BLOCK] == iecBuf[j..j + BLOCK];
      assert iecBuf[..][..j + BLOCK] == iecBuf[..j + BLOCK];
      assert buf[..j + BLOCK] == head + buf[j..j + BLOCK];
    }

    /** The inner loop. `pp`, `left` and `right` point to 16-bit samples. */
    method RewriteBlock(buf: array<byte>, pp0: nat, left0: nat, right0: nat) returns (pp: nat, left: nat, right: nat)
      requires iecBuf.Length == BURST && buf != iecBuf && 2 * left0 + 64 <= BURST && 2 * left0 + 64 <= buf.Length
      requires pp0 == left0 && right0 == left0 + 16
      modifies buf
      ensures pp == pp0 + 32 && left == left0 + 16 && right == right0 + 16
      ensures buf[2 * left0..2 * left0 + 64] == DeinterleaveBlock(iecBuf[2 * pp0..2 * pp0 + 64])
      ensures buf[..2 * left0] == old(buf[..2 * left0]) && buf[2 * left0 + 64..] == old(buf[2 * left0 + 64..])
    {
      pp, left, right := pp0, left0, right0;
      ghost var d := DeinterleaveBlock(iecBuf[2 * pp0..2 * pp0 + 64]);
      var i := 0;
      while i < 16
        invariant 0 <= i <= 16 && pp == pp0 + 2 * i && left == left0 + i && right == right0 + i
        invariant forall p :: 0 <= p < buf.Length ==>
                    if 2 * left0 <= p < 2 * left || 2 * left0 + 32 <= p < 2 * right then buf[p] == d[p - 2 * left0]
                    else buf[p] == old(buf[p])
      {
        CopyPair(buf, left, right, pp, pp0, i);
        left, pp := left + 1, pp + 1;
        right, pp := right + 1, pp + 1;
        i := i + 1;
      }
    }

    /** A sample of the left half and one of the right half, from two that follow each other. */
    method CopyPair(buf: array<byte>, left: nat, right: nat, pp: nat, ghost pp0: nat, ghost i: nat)
      requires iecBuf.Length == BURST && buf != iecBuf && 2 * pp0 + 64 <= BURST && 2 * pp0 + 64 <= buf.Length
      requires i < 16 && pp == pp0 + 2 * i && left == pp0 + i && right == left + 16
      modifies buf
      ensures var d := DeinterleaveBlock(iecBuf[2 * pp0..2 * pp0 + 64]);
              forall p :: 0 <= p < buf.Length ==>
                buf[p] == if 2 * left <= p < 2 * left + 2 || 2 * right <= p < 2 * right + 2 then d[p - 2 * pp0]
                  else old(buf[p])
    {
      BlockAt(iecBuf[2 * pp0..2 * pp0 + 64], i);
      CopySample(buf, left, pp);
      CopySample(buf, right, pp + 1);
    }

    method CopySample(buf: array<byte>, to: nat, from: nat)
      requires buf != iecBuf && 2 * to + 1 < buf.Length && 2 * from + 1 < iecBuf.Length
      modifies buf
      ensures buf[2 * to] == iecBuf[2 * from] && buf[2 * to + 1] == iecBuf[2 * from + 1]
      ensures forall p :: 0 <= p < 2 * to || 2 * to + 1 < p < buf.Length ==> buf[p] == old(buf[p])
    {
      buf[2 * to], buf[2 * to + 1] := iecBuf[2 * from], iecBuf[2 * from + 1];
    }

    method PackFrame(buf: array<byte>, frameSize: nat) returns (ret: int)
      requires iecBuf.Length == BURST && buf != iecBuf && frameSize <= buf.Length
      // the frame fits the burst, and what is written back fits the buffer
      requires frameSize <= if streamType.Raw? then BURST else BURST - 8
      requires Written(streamType, frameSize) <= buf.Length
      modifies iecBuf, buf
      ensures ret == if streamType.Ac3? then 6144 else if streamType.Dts? then 2048 else frameSize - frameSize % 64
      ensures 0 <= ret <= Written(streamType, frameSize) && buf[..ret] == Packed(streamType, old(buf[..frameSize]))
      ensures var n := Written(streamType, frameSize); buf[n..] == old(buf[n..])
    {
      match streamType
      case Ac3 => ret := PackBurst(buf, frameSize, 1, frameSize * 8, BURST);
      case Dts => ret := PackBurst(buf, frameSize, 11, 2040 * 8, DTS_BURST);
      case Raw => ret := PackRaw(buf, frameSize);
    }

    method PackBurst(buf: array<byte>, frameSize: nat, pc: nat, pd: nat, length: nat) returns (ret: int)
      requires iecBuf.Length == BURST && buf != iecBuf && frameSize <= buf.Length
      requires frameSize <= BURST - 8 && length % 64 == 0 && length <= BURST && length <= buf.Length
      modifies iecBuf, buf
      ensures ret == length && buf[..length] == Deinterleave(Burst(pc, pd, old(buf[..frameSize]))[..length])
      ensures buf[length..] == old(buf[length..])
    {
      FillBurst(buf, frameSize, pc, pd);
      Rewrite(buf, length, length);
      ret := length;
    }

    method PackRaw(buf: array<byte>, frameSize: nat) returns (ret: int)
      requires iecBuf.Length == BURST && buf != iecBuf && frameSize <= BURST && RoundUp(frameSize) <= buf.Length
      modifies iecBuf, buf
      ensures ret == RoundDown(frameSize) && buf[..ret] == Deinterleave(WholeBlocks(old(buf[..frameSize])))
      ensures buf[RoundUp(frameSize)..] == old(buf[RoundUp(frameSize)..])
    {
      ghost var frame, n := buf[..frameSize], RoundUp(frameSize);
      MemCpy(iecBuf, 0, buf, 0, frameSize);
      assert iecBuf[..frameSize] == frame;
      Rewrite(buf, frameSize, n);
      ret := frameSize / 64 * 64;
      RawPrefix(iecBuf[..n], frame);
      assert buf[..ret] == buf[..n][..ret];
    }
  }
}
