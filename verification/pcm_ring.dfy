/** The PCM byte ring between the decoder and the audio output (amadec/adec_write.c), and the
    decode loop's wait-then-write protocol on it (amadec/adec-ffmpeg-mgt.c). */
module PcmRing {
  import opened Bytes

  /** The position `k` steps after `rd` in a ring of `length` bytes. */
  function Wrap(length: nat, rd: nat, k: nat): nat
    requires k <= length && (rd < length || rd == length == 0)
  {
    if rd + k < length then rd + k else rd + k - length
  }

  /** The branching step is the modular one. */
  lemma WrapIsModular(length: nat, rd: nat, k: nat)
    requires k <= length && rd < length
    ensures Wrap(length, rd, k) == (rd + k) % length
  {
    var x := rd + k;
    assert x < length ==> x / length == 0;
    assert length <= x ==> x / length == 1;
  }

  lemma WrapTwice(length: nat, rd: nat, a: nat, b: nat)
    requires a + b <= length && rd < length
    ensures Wrap(length, Wrap(length, rd, a), b) == Wrap(length, rd, a + b)
  {
  }

  datatype Op = Read(size: nat) | Write(bytes: seq<byte>)

  /** A bounded queue: what it holds, and all bytes it has accepted and delivered. */
  datatype History = History(queue: seq<byte>, accepted: seq<byte>, delivered: seq<byte>)

  /** A read takes the oldest bytes, as many as there are; a write adds as many as there is room for. */
  function Step(capacity: nat, h: History, op: Op): History
    requires |h.queue| <= capacity
  {
    match op
    case Read(size) =>
      var n := Min(|h.queue|, size);
      History(h.queue[n..], h.accepted, h.delivered + h.queue[..n])
    case Write(bytes) =>
      var n := Min(capacity - |h.queue|, |bytes|);
      History(h.queue + bytes[..n], h.accepted + bytes[..n], h.delivered)
  }

  function After(capacity: nat, ops: seq<Op>): (h: History)
    ensures |h.queue| <= capacity
  {
    if ops == [] then History([], [], [])
    else Step(capacity, After(capacity, ops[..|ops| - 1]), ops[|ops| - 1])
  }

  /** Bytes delivered, followed by the bytes still buffered, are the bytes accepted. */
  ghost predicate InOrder(h: History) {
    h.delivered + h.queue == h.accepted
  }

  lemma StepInOrder(capacity: nat, h: History, op: Op)
    requires |h.queue| <= capacity && InOrder(h)
    ensures InOrder(Step(capacity, h, op))
  {
    match op
    case Read(size) =>
      var n := Min(|h.queue|, size);
      assert h.queue[..n] + h.queue[n..] == h.queue;
    case Write(_) =>
  }

  lemma {:induction false} FirstInFirstOut(capacity: nat, ops: seq<Op>)
    ensures InOrder(After(capacity, ops))
  {
    if ops != [] {
      FirstInFirstOut(capacity, ops[..|ops| - 1]);
      StepInOrder(capacity, After(capacity, ops[..|ops| - 1]), ops[|ops| - 1]);
    }
  }

  class BufferStream {
    var data: array?<byte>
    var length: nat  // buf_length
    var level: nat   // buf_level
    var rd: nat      // rd_ptr - data
    var wr: nat      // wr_ptr - data
    var inited: bool // bInited
    ghost var history: History

    /** The stored bytes are the `level` positions from `rd` on, modulo the size, and `wr` is the next one. */
    ghost predicate Valid()
      reads this, data
    {
      inited ==>
        && data != null && data.Length == length
        && |history.queue| == level <= length
        && (rd < length || rd == length == 0)
        && wr == Wrap(length, rd, level)
        && (forall k :: 0 <= k < level ==> history.queue[k] == data[Wrap(length, rd, k)])
    }

    constructor ()
      ensures Valid() && !inited
    {
      data, inited := null, false;
    }

    /** Without memory the ring forgets the buffer it had, and one in use is no longer usable. */
    method InitBuff(length: nat, mallocOk: bool) returns (ret: int)
      modifies this
      ensures ret == if mallocOk then 1 else -1
      ensures mallocOk ==> Valid() && fresh(data) && inited && this.length == length && history == After(length, [])
      ensures !mallocOk ==> data == null && inited == old(inited) && (Valid() <==> !inited)
    {
      if !mallocOk {
        data := null;
        return -1;
      }
      data := new byte[length](_ => 0);
      this.length := length;
      level, rd, wr, inited := 0, 0, 0, true;
      history := History([], [], []);
      return 1;
    }

    method ReadData(out: array<byte>, size: nat) returns (ret: int)
      requires Valid() && out != data && size <= out.Length
      modifies this`level, this`rd, this`history, out
      ensures Valid()
      ensures !inited ==> ret == -1 && history == old(history) && out[..] == old(out[..])
      ensures inited ==> ret == Min(|old(history.queue)|, size) && history == Step(length, old(history), Read(size))
      ensures inited ==>
                && history.queue == old(history.queue)[ret..] && history.accepted == old(history.accepted)
                && history.delivered == old(history.delivered) + out[..ret]
      ensures forall k :: 0 <= k < ret ==> out[k] == old(history.queue)[k]
      ensures forall k {:trigger out[k]} :: ret <= k < out.Length && 0 <= k ==> out[k] == old(out[k])
    {
      if !inited {
        return -1;
      }
      if level == 0 {
        return 0;
      }
      var len := Min(level, size);
      Fetch(out, len);
      return len;
    }

    method Fetch(out: array<byte>, len: nat)
      requires Valid() && inited && out != data && 0 < level && len <= level && len <= out.Length
      modifies this`level, this`rd, this`history, out
      ensures Valid() && history == Step(length, old(history), Read(len))
      ensures forall k :: 0 <= k < len ==> out[k] == old(history.queue)[k]
      ensures forall k {:trigger out[k]} :: len <= k < out.Length ==> out[k] == old(out[k])
    {
      ghost var was, from := history.queue, rd;
      CopyOut(out, len);
      WrapTwice(length, from, len, level - len);
      level := level - len;
      history := Step(length, history, Read(len));
      forall k | 0 <= k < level
        ensures history.queue[k] == data[Wrap(length, rd, k)]
      {
        WrapTwice(length, from, len, k);
        assert history.queue[k] == was[len + k];
      }
    }

    /** The three copying branches, for bytes that are there: from the read pointer on. */
    method CopyOut(out: array<byte>, len: nat)
      requires data != null && data.Length == length && out != data && len <= out.Length && len <= length
      requires rd < length && wr < length && (wr > rd ==> rd + len <= wr)
      modifies this`rd, out
      ensures rd == Wrap(length, old(rd), len)
      ensures forall k :: 0 <= k < len ==> out[k] == data[Wrap(length, old(rd), k)]
      ensures forall k {:trigger out[k]} :: len <= k < out.Length ==> out[k] == old(out[k])
    {
      if wr > rd {
        MemCpy(out, 0, data, rd, len);
        rd := rd + len;
      } else if len < length - rd {
        MemCpy(out, 0, data, rd, len);
        rd := rd + len;
      } else {
        var tailLen := length - rd;
        MemCpy(out, 0, data, rd, tailLen);
        MemCpy(out, tailLen, data, 0, len - tailLen);
        rd := len - tailLen;
      }
      assert rd < length; // so the wrap test the source makes here never fires
    }

    method WriteData(src: array<byte>, size: nat) returns (ret: int)
      requires Valid() && src != data && size <= src.Length
      modifies this`level, this`wr, this`history, data
      ensures Valid()
      ensures !inited ==> ret == -1 && history == old(history)
      ensures inited ==> ret == Min(length - |old(history.queue)|, size)
      ensures inited ==> history == Step(length, old(history), Write(src[..size]))
      ensures inited ==>
                && history.queue == old(history.queue) + src[..ret] && history.delivered == old(history.delivered)
                && history.accepted == old(history.accepted) + src[..ret]
    {
      if !inited {
        return -1;
      }
      if level == length {
        return 0;
      }
      var len := Min(length - level, size);
      Store(src, len);
      assert src[..size][..len] == src[..len];
      return len;
    }

    method Store(src: array<byte>, len: nat)
      requires Valid() && inited && src != data && len <= src.Length && level < length && level + len <= length
      modifies this`level, this`wr, this`history, data
      ensures Valid()
      ensures history == var h := old(history); History(h.queue + src[..len], h.accepted + src[..len], h.delivered)
    {
      CopyIn(src, len);
      level := level + len;
      history := History(history.queue + src[..len], history.accepted + src[..len], history.delivered);
    }

    /** The three copying branches, for bytes that fit: from the write pointer on, round the end of the buffer. */
    method CopyIn(src: array<byte>, len: nat)
      requires data != null && data.Length == length && src != data && len <= src.Length && len <= length
      requires wr < length && rd < length && (wr < rd ==> wr + len <= rd)
      modifies this`wr, data
      ensures wr == Wrap(length, old(wr), len)
      ensures forall k :: 0 <= k < len ==> data[Wrap(length, old(wr), k)] == src[k]
      ensures forall p :: 0 <= p < length && !(old(wr) <= p < old(wr) + len) && !(old(wr) <= p + length < old(wr) + len)
                          ==> data[p] == old(data[p])
    {
      if wr < rd {
        MemCpy(data, wr, src, 0, len);
        wr := wr + len;
      } else if len < length - wr {
        MemCpy(data, wr, src, 0, len);
        wr := wr + len;
      } else {
        var tailLen := length - wr;
        MemCpy(data, wr, src, 0, tailLen);
        MemCpy(data, 0, src, tailLen, len - tailLen);
        wr := len - tailLen;
      }
      assert wr < length; // so the wrap test the source makes here never fires
    }
  }

  method NewArray(bytes: seq<byte>) returns (a: array<byte>)
    ensures fresh(a) && a[..] == bytes
  {
    a := new byte[|bytes|](i requires 0 <= i < |bytes| => bytes[i]);
  }

  /** Any run of reads and writes on a new ring is that run of the queue, and `got` is what is really read. */
  method Perform(bs: BufferStream, ops: seq<Op>) returns (got: seq<byte>)
    requires bs.Valid() && bs.inited && bs.history == After(bs.length, [])
    modifies bs`level, bs`rd, bs`wr, bs`history, bs.data
    ensures bs.Valid() && bs.history == After(bs.length, ops) && got == bs.history.delivered
  {
    got := [];
    for i := 0 to |ops|
      invariant bs.Valid() && bs.history == After(bs.length, ops[..i]) && got == bs.history.delivered
    {
      assert ops[..i + 1][..i] == ops[..i];
      var bytes := PerformOne(bs, ops[i]);
      got := got + bytes;
    }
    assert ops[..|ops|] == ops;
  }

  method PerformOne(bs: BufferStream, op: Op) returns (got: seq<byte>)
    requires bs.Valid() && bs.inited
    modifies bs`level, bs`rd, bs`wr, bs`history, bs.data
    ensures bs.Valid() && bs.history == Step(bs.length, old(bs.history), op)
    ensures bs.history.delivered == old(bs.history.delivered) + got
  {
    match op {
      case Read(size) =>
        got := ReadSome(bs, size);
      case Write(bytes) =>
        var src := NewArray(bytes);
        var _ := bs.WriteData(src, |bytes|);
        got := [];
    }
  }

  method ReadSome(bs: BufferStream, size: nat) returns (got: seq<byte>)
    requires bs.Valid() && bs.inited
    modifies bs`level, bs`rd, bs`history
    ensures bs.Valid() && bs.history == Step(bs.length, old(bs.history), Read(size))
    ensures got == old(bs.history.queue)[..Min(|old(bs.history.queue)|, size)]
  {
    var out := new byte[size];
    var n := bs.ReadData(out, size);
    got := out[..n];
  }

  /** What the readers take while the decode loop is at its free-space test and between that test and
      its write. */
  datatype Turn = Turn(beforeTest: nat, beforeWrite: nat)

  /** Any number of concurrent reads, which together ask for `size` bytes. */
  method Readers(bs: BufferStream, size: nat)
    requires bs.Valid() && bs.inited
    modifies bs`level, bs`rd, bs`history
    ensures bs.Valid() && bs.history == Step(bs.length, old(bs.history), Read(size))
  {
    var _ := ReadSome(bs, size);
  }

  /** One turn of the wait: the test of the free space, and the write if there is room. The space that the
      test saw can only have grown until the write. */
  method TryWrite(bs: BufferStream, outbuf: array<byte>, left: nat, turn: Turn) returns (wlen: nat)
    requires bs.Valid() && bs.inited && InOrder(bs.history) && outbuf != bs.data && 0 < left <= outbuf.Length
    modifies bs`level, bs`rd, bs`wr, bs`history, bs.data
    ensures bs.Valid() && InOrder(bs.history)
    ensures wlen == 0 || wlen == left
    ensures bs.history.accepted == old(bs.history.accepted) + outbuf[..wlen]
    // the frame goes in exactly if it fits beside what the readers have left at the test
    ensures var level := |old(bs.history.queue)|;
            wlen == if (if level > turn.beforeTest then level - turn.beforeTest else 0) + left <= bs.length then left
                    else 0
  {
    StepInOrder(bs.length, bs.history, Read(turn.beforeTest));
    Readers(bs, turn.beforeTest);
    if bs.length - bs.level < left {
      return 0;
    }
    StepInOrder(bs.length, bs.history, Read(turn.beforeWrite));
    Readers(bs, turn.beforeWrite);
    StepInOrder(bs.length, bs.history, Write(outbuf[..left]));
    wlen := bs.WriteData(outbuf, left);
  }

  /** The decode loop hands one decoded frame to the ring while readers run. An exit is requested when
      `turns` is used up. `cacheSize` is `pcm_cache_size` and `left` is `outlen` when the loop ends. */
  method WriteFrame(bs: BufferStream, outbuf: array<byte>, outlen: nat, turns: seq<Turn>)
    returns (cacheSize: int, left: int)
    requires bs.Valid() && bs.inited && InOrder(bs.history) && outbuf != bs.data && outlen <= outbuf.Length
    modifies bs`level, bs`rd, bs`wr, bs`history, bs.data
    ensures bs.Valid() && InOrder(bs.history) && cacheSize == left
    // the frame enters whole and once, or not at all
    ensures left == 0 || left == outlen
    ensures bs.history.accepted == old(bs.history.accepted) + if left == 0 then outbuf[..outlen] else []
    // a frame larger than the ring never enters; one that fits does once the readers catch up
    ensures outlen > bs.length ==> left == outlen
    ensures outlen <= bs.length && (exists j :: 0 <= j < |turns| && turns[j].beforeTest >= bs.length) ==> left == 0
  {
    left := outlen;
    cacheSize := outlen;
    var i := 0;
    while left != 0 && i < |turns|
      invariant 0 <= i <= |turns| && bs.Valid() && InOrder(bs.history) && cacheSize == left
      invariant left == 0 || left == outlen
      invariant bs.history.accepted == old(bs.history.accepted) + if left == 0 then outbuf[..outlen] else []
      invariant outlen > bs.length ==> left == outlen
      invariant left != 0 && outlen <= bs.length ==> forall j :: 0 <= j < i ==> turns[j].beforeTest < bs.length
    {
      var wlen := TryWrite(bs, outbuf, left, turns[i]);
      left := left - wlen;
      cacheSize := cacheSize - wlen;
      i := i + 1;
    }
  }
}
