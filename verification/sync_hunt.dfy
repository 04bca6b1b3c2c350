/** Finding the next APE frame in the stream (`get_frame_size` in amadec/adec-ffmpeg-mgt.c): a four-byte
    window slides over the input until it shows "APTS", and the next four bytes give the frame size. */
module SyncHunt {
  import opened Bytes
  import opened ApeFrameSize

  const SYNC: seq<byte> := [0x41, 0x50, 0x54, 0x53] // "APTS"

  /** The sync word stands at position `k`. */
  predicate SyncAt(data: seq<byte>, k: nat) {
    k + 4 <= |data| && data[k] == SYNC[0] && data[k + 1] == SYNC[1] && data[k + 2] == SYNC[2] && data[k + 3] == SYNC[3]
  }

  /** No sync word lies between `from` and `to`. */
  ghost predicate NoSync(data: seq<byte>, from: nat, to: nat) {
    forall k :: from <= k && k + 4 <= to ==> !SyncAt(data, k)
  }

  lemma NoSyncSlides(data: seq<byte>, from: nat, to: nat)
    requires from + 4 <= to && NoSync(data, from, to - 1) && !SyncAt(data, to - 4)
    ensures NoSync(data, from, to)
  {
  }

  /** The sync word at `k` is the earliest from `from` on. */
  ghost predicate FirstSync(data: seq<byte>, from: nat, k: nat) {
    from <= k && SyncAt(data, k) && NoSync(data, from, k + 3)
  }

  lemma FirstSyncUnique(data: seq<byte>, from: nat, k: nat, m: nat)
    requires FirstSync(data, from, k) && FirstSync(data, from, m)
    ensures k == m
  {
  }

  /** The size in the four bytes from `k` on. */
  function SizeAt(data: seq<byte>, k: nat): int
    requires k + 4 <= |data|
  {
    FrameSize(data[k], data[k + 1], data[k + 2], data[k + 3])
  }

  lemma SizeIsNotDefault(data: seq<byte>, k: nat)
    requires k + 4 <= |data|
    ensures SizeAt(data, k) != -1
  {
    FrameSizeIsNotDefault(data[k], data[k + 1], data[k + 2], data[k + 3]);
  }

  /** The hardware stream, read byte by byte. */
  class Stream {
    const data: seq<byte>
    var pos: nat
    ghost var asked: nat // how often it was read
    ghost var vain: nat  // how often it gave nothing
    ghost var tears: nat // and how often a read was torn

    ghost predicate Valid()
      reads this
    {
      pos <= |data|
    }

    constructor (data: seq<byte>)
      ensures Valid() && this.data == data && pos == 0 && tears == 0
    {
      this.data := data;
      pos, asked, vain, tears := 0, 0, 0, 0;
    }

    /** `read_buffer`. The hardware gives all the bytes asked for, or nothing. But a read that waits in vain
        is `torn`: some bytes have been taken out of the stream and put in the buffer, and the answer is
        their number or, after a fault, 0. */
    method ReadBuffer(buffer: array<byte>, offset: nat, size: nat) returns (ret: nat, ghost torn: bool)
      requires Valid() && offset + size <= buffer.Length
      modifies this, buffer
      ensures Valid() && old(pos) <= pos <= old(pos) + size && torn == (old(pos) < pos < old(pos) + size)
      ensures ret == pos - old(pos) || (ret == 0 && torn)
      ensures asked == old(asked) + 1 && vain == old(vain) + (if ret == 0 then 1 else 0)
      ensures tears == old(tears) + if torn then 1 else 0
      ensures forall k :: 0 <= k < buffer.Length ==>
                buffer[k] == if offset <= k < offset + pos - old(pos) then data[old(pos) + k - offset]
                  else old(buffer[k])
    {
      var got: nat :| got <= size && pos + got <= |data|;
      ret := got;
      for i := 0 to got
        invariant pos == old(pos) && asked == old(asked) && vain == old(vain) && tears == old(tears)
        invariant forall k :: 0 <= k < buffer.Length ==>
                    buffer[k] == if offset <= k < offset + i then data[pos + k - offset] else old(buffer[k])
      {
        buffer[offset + i] := data[pos + i];
      }
      pos := pos + got;
      torn := 0 < got < size;
      if 0 < got < size {
        if * {
          ret := 0;
        }
      }
      asked, vain := asked + 1, vain + if ret == 0 then 1 else 0;
      tears := tears + if torn then 1 else 0;
    }
  }

  /** The `StartCode` record. `origin` is where in the stream the current hunt began, and `torn` says that
      one of its reads was torn. */
  class StartCode {
    const buff: array<byte>
    var size: nat
    var status: nat // 0 init, 1 finding the sync word, 2 finding the frame size, 3 frame size found
    ghost var origin: nat
    ghost var torn: bool

    ghost predicate Hunting(s: Stream)
      reads this, buff, s
    {
      && s.Valid() && buff.Length == 10 && status <= 3
      && (status == 1 ==> size == 3) && (torn ==> s.tears > 0)
      && (status == 1 && !torn ==>
            && origin + 4 <= s.pos
            && (forall k :: 0 <= k < 3 ==> buff[k] == s.data[s.pos - 3 + k])
            && NoSync(s.data, origin, s.pos))
      && (status == 2 && !torn ==> 4 <= s.pos && FirstSync(s.data, origin, s.pos - 4) && buff[..4] == SYNC)
    }

    constructor ()
      ensures status == 0 && buff.Length == 10 && fresh(buff) && origin == 0 && !torn
    {
      buff := new byte[10](_ => 0);
      size, status, origin, torn := 0, 0, 0, false;
    }

    /** One call. The answer is 0 for "call again", -1 for "use the default size". */
    method GetFrameSize(s: Stream, ape: bool) returns (frameSize: int)
      requires Hunting(s)
      modifies this, buff, s
      ensures Hunting(s) && old(s.pos) <= s.pos
      // it gets on unless a read gives nothing
      ensures if ape then s.pos > old(s.pos) || s.vain > old(s.vain) else s.asked == old(s.asked)
      ensures s.asked >= old(s.asked) && s.tears >= old(s.tears)
      ensures !ape ==> frameSize == -1 && s.pos == old(s.pos) && (old(status) == 0 || old(status) == 3 ==> status == 0)
      // a hunt goes on from call to call, or begins here
      ensures old(status) == 1 || old(status) == 2 ==> origin == old(origin) && (old(torn) ==> torn)
      ensures old(status) == 0 || old(status) == 3 ==> origin == old(s.pos)
      ensures ape && status != 3 ==> frameSize == 0
      ensures ape && old(status) == 2 ==> status == if s.vain > old(s.vain) then 2 else 3
      ensures ape && status == 0 && !torn ==> s.pos == origin
      // the size is read right behind the earliest sync word, and nothing is read before it is found
      ensures ape && status == 3 && !torn ==>
                origin + 8 <= s.pos && FirstSync(s.data, origin, s.pos - 8) && frameSize == SizeAt(s.data, s.pos - 4)
      // a torn read of the size leaves the end of the sync word in its place
      ensures ape && status == 3 && old(status) == 2 && !old(torn) ==>
                s.pos <= old(s.pos) + 4
                  && frameSize == SizeAt(s.data[old(s.pos)..s.pos] + SYNC[s.pos - old(s.pos)..], 0)
    {
      if status == 0 || status == 3 {
        Clear(s);
      }
      if !ape {
        return -1;
      }
      if status == 0 {
        var begun := BeginHunt(s);
        if !begun {
          return 0;
        }
      }
      if status == 1 {
        var found := MatchWindow(s);
        if !found {
          return 0;
        }
      }
      frameSize := ReadSize(s);
    }

    /** The first window of a hunt. */
    method BeginHunt(s: Stream) returns (begun: bool)
      requires s.Valid() && buff.Length == 10 && status == 0 && origin == s.pos && !torn
      modifies this`size, this`status, this`torn, buff, s
      ensures s.Valid() && old(s.pos) <= s.pos && status == if begun then 1 else 0
      ensures if begun then s.pos > old(s.pos) && s.vain == old(s.vain) else s.vain > old(s.vain)
      ensures s.asked >= old(s.asked) && s.tears >= old(s.tears) && (torn ==> s.tears > 0)
      ensures !begun && !torn ==> s.pos == origin
      ensures begun ==> Window(s)
    {
      var ret;
      ghost var t;
      ret, t := s.ReadBuffer(buff, 0, 4);
      torn := t;
      if ret <= 0 {
        return false;
      }
      size := 4;
      status := 1;
      return true;
    }

    /** In status 1, before the window is matched. */
    ghost predicate Window(s: Stream)
      reads this, buff, s
    {
      && s.Valid() && buff.Length == 10 && status == 1 && 3 <= size <= 4 && (torn ==> s.tears > 0)
      && (!torn ==>
            && origin + 4 <= s.pos
            && (forall k :: 0 <= k < size ==> buff[k] == s.data[s.pos - size + k])
            && NoSync(s.data, origin, if size == 4 then s.pos - 1 else s.pos))
    }

    /** The part of a call in status 1: fill the window up to four bytes, then accept or slide it. The read of
        one byte cannot be torn. */
    method MatchWindow(s: Stream) returns (found: bool)
      requires Window(s)
      modifies this`size, this`status, buff, s
      ensures Hunting(s) && old(s.pos) <= s.pos
      ensures status == if found then 2 else 1
      ensures s.asked >= old(s.asked) && s.vain >= old(s.vain) && s.tears >= old(s.tears)
      ensures old(size) < 4 ==> s.pos > old(s.pos) || s.vain > old(s.vain)
    {
      if size < 4 {
        var ret;
        ghost var t;
        ret, t := s.ReadBuffer(buff, size, 4 - size);
        if ret <= 0 {
          return false;
        }
        size := 4;
      }
      found := AcceptOrSlide(s);
    }

    method AcceptOrSlide(s: Stream) returns (found: bool)
      requires Window(s) && size == 4
      modifies this`size, this`status, buff
      ensures Hunting(s)
      ensures status == if found then 2 else 1
      ensures found <==> old(buff[..4]) == [0x41, 0x50, 0x54, 0x53]
      ensures size == if found then 0 else 3
    {
      if buff[0] == 0x41 && buff[1] == 0x50 && buff[2] == 0x54 && buff[3] == 0x53 {
        size := 0;
        status := 2;
        assert buff[..4] == SYNC;
        assert !torn ==> FirstSync(s.data, origin, s.pos - 4);
        return true;
      }
      if !torn {
        NoSyncSlides(s.data, origin, s.pos);
      }
      size := 3;
      buff[0] := buff[1];
      buff[1] := buff[2];
      buff[2] := buff[3];
      return false;
    }

    /** The part of a call in status 2. */
    method ReadSize(s: Stream) returns (frameSize: int)
      requires Hunting(s) && status == 2
      modifies this`size, this`status, this`torn, buff, s
      ensures Hunting(s) && old(s.pos) <= s.pos && (old(torn) ==> torn)
      // the size is found unless the read gives nothing
      ensures status == (if s.vain > old(s.vain) then 2 else 3) && (status == 3 ==> size == 4)
      ensures (s.pos > old(s.pos) || s.vain > old(s.vain)) && s.asked >= old(s.asked) && s.tears >= old(s.tears)
      ensures status == 2 ==> frameSize == 0
      ensures status == 3 && !torn ==>
                8 <= s.pos && FirstSync(s.data, origin, s.pos - 8) && frameSize == SizeAt(s.data, s.pos - 4)
      ensures status == 3 && !old(torn) ==>
                s.pos <= old(s.pos) + 4
                  && frameSize == SizeAt(s.data[old(s.pos)..s.pos] + SYNC[s.pos - old(s.pos)..], 0)
    {
      ghost var from := s.pos;
      var ret;
      ghost var t;
      ret, t := s.ReadBuffer(buff, 0, 4);
      torn := torn || t;
      if ret <= 0 {
        return 0;
      }
      size := 4;
      frameSize := FrameSize(buff[0], buff[1], buff[2], buff[3]);
      status := 3;
      ghost var seen := s.data[from..s.pos] + SYNC[s.pos - from..];
      assert forall k :: 0 <= k < s.pos - from ==> seen[k] == s.data[from + k];
    }

    method Clear(s: Stream)
      requires buff.Length == 10
      modifies this, buff
      ensures size == 0 && status == 0 && origin == s.pos && !torn
      ensures forall k :: 0 <= k < 10 ==> buff[k] == 0
    {
      forall k | 0 <= k < 10 {
        buff[k] := 0;
      }
      size, status := 0, 0;
      origin, torn := s.pos, false;
    }
  }

  /** The package loop asks again while no size is known, `calls` times at most: also after an empty frame,
      where a new hunt begins. However the reads fail on the way, if none is torn the input is consumed
      exactly through the earliest sync word and the four bytes behind it. */
  method NextFrameSize(code: StartCode, s: Stream, calls: nat)
    returns (frameSize: int, ghost torn: bool, ghost empty: nat)
    requires code.Hunting(s) && (code.status == 0 || code.status == 3)
    modifies code, code.buff, s
    ensures code.Hunting(s) && old(s.pos) <= s.pos
    ensures (frameSize != 0 ==> code.status == 3) && (torn ==> s.tears > 0)
    ensures calls > 0 && !torn && empty == 0 ==>
              && code.origin == old(s.pos)
              && (frameSize == 0 && code.status == 0 ==> s.pos == old(s.pos))
              && (frameSize == 0 && code.status == 1 ==> NoSync(s.data, old(s.pos), s.pos))
              && (frameSize == 0 && code.status == 2 ==> 4 <= s.pos && FirstSync(s.data, old(s.pos), s.pos - 4))
    ensures frameSize != 0 && !torn ==>
              && old(s.pos) <= code.origin && code.origin + 8 <= s.pos
              && FirstSync(s.data, code.origin, s.pos - 8) && frameSize == SizeAt(s.data, s.pos - 4)
  {
    frameSize, torn, empty := 0, false, 0;
    for i := 0 to calls
      invariant code.Hunting(s) && frameSize == 0 && old(s.pos) <= s.pos && (torn ==> s.tears > 0)
      invariant i == 0 ==> s.pos == old(s.pos) && (code.status == 0 || code.status == 3) && empty == 0
      invariant i > 0 && code.status != 3 ==> code.origin <= s.pos
      invariant i > 0 && !torn ==>
                  && !code.torn && old(s.pos) <= code.origin
                  && (empty == 0 ==> code.status != 3 && code.origin == old(s.pos))
                  && (code.status == 0 ==> s.pos == code.origin)
    {
      frameSize := code.GetFrameSize(s, true);
      torn := torn || code.torn;
      if frameSize != 0 {
        return;
      }
      empty := empty + if code.status == 3 then 1 else 0;
    }
  }
}
