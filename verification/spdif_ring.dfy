/** The S/PDIF DMA ring (amadec/spdif_api.c): a writer that keeps a 4096-byte gap before the hardware's
    read offset and wraps a frame over the end of the ring. */
module SpdifRing {
  import opened Bytes

  const ALIGN := 4096
  const DELAY := 4 * 48000 * 20 / 1000

  /** Bytes from `wr` up to `rd`, going round; a writer at `rd` has no room at all. */
  function Room(size: nat, wr: nat, rd: nat): nat
    requires rd < size && wr <= size
  {
    if wr > rd then size + rd - wr else rd - wr
  }

  /** The branching room is the modular distance. */
  lemma RoomIsModular(size: nat, wr: nat, rd: nat)
    requires rd < size && wr <= size
    ensures Room(size, wr, rd) == (rd - wr) % size
  {
    var x := rd - wr;
    assert x < 0 ==> x / size == -1;
    assert x >= 0 ==> x / size == 0;
  }

  /** The ring position `k` steps after `from`. */
  function Wrap(size: nat, from: nat, k: nat): nat
    requires from <= size && k <= size
  {
    if from + k < size then from + k else from + k - size
  }

  /** Where the next frame goes: the very first write moves the offset to 20 ms ahead of the hardware
      unless it is there already. */
  function Start(size: nat, wr: nat, first: bool, rd: nat): (p: nat)
    requires rd < size && wr <= size && DELAY <= size
    ensures p <= size
    // then the hardware has at least 20 ms to play, and no more if the offset had to be moved
    ensures first ==> size - Room(size, p, rd) >= 3840
    ensures first && p != wr ==> size - Room(size, p, rd) == 3840
    ensures !first || (rd < wr && wr - rd >= 3840) ==> p == wr
  {
    if first && (rd >= wr || wr - rd < DELAY) then Wrap(size, rd, DELAY) else wr
  }

  /** The write offset, taken as a position. */
  function Home(size: nat, wr: nat): nat {
    if wr == size then 0 else wr
  }

  /** The positions from the write offset on follow those of what is pending ... */
  lemma Appended(size: nat, wr: nat, rd: nat, j: nat)
    requires rd < size && wr <= size && j < Room(size, wr, rd)
    ensures Wrap(size, rd, size - Room(size, wr, rd) + j) == Wrap(size, Home(size, wr), j)
  {
  }

  /** ... and are none of them. */
  lemma StaysPut(size: nat, wr: nat, rd: nat, k: nat, n: nat)
    requires rd < size && wr <= size && k < size - Room(size, wr, rd) && n <= Room(size, wr, rd)
    ensures var p, from := Wrap(size, rd, k), Home(size, wr);
            p < size && !(from <= p < from + n) && !(p + size < from + n)
  {
  }

  class DmaRing {
    const dma: array<byte> // map_buf; its length is iec958_buffer_size
    var wrOffset: nat
    var firstWrite: bool
    const useKernelWr: bool // use_kernel_wr: write() instead of the mapped buffer
    var hwWrOffset: nat     // the offset last given to the driver

    ghost predicate Valid()
      reads this
    {
      wrOffset <= dma.Length && DELAY <= dma.Length
    }

    /** What the hardware, now at `rd`, has still to play: everything from there up to `wr`. */
    ghost function Pending(wr: nat, rd: nat): (s: seq<byte>)
      reads dma
      requires wr <= dma.Length && rd < dma.Length
      ensures |s| == dma.Length - Room(dma.Length, wr, rd)
    {
      seq(dma.Length - Room(dma.Length, wr, rd),
          k requires 0 <= k < dma.Length - Room(dma.Length, wr, rd) reads dma => dma[Wrap(dma.Length, rd, k)])
    }

    constructor (size: nat, hwRdOffset: nat, useKernelWr: bool)
      requires hwRdOffset < size && DELAY <= size
      ensures Valid() && dma.Length == size && fresh(dma) && firstWrite
      ensures wrOffset == Min(hwRdOffset + DELAY, size) && this.useKernelWr == useKernelWr
    {
      dma := new byte[size](_ => 0);
      wrOffset := if hwRdOffset + DELAY >= size then size else hwRdOffset + DELAY;
      firstWrite := true;
      this.useKernelWr := useKernelWr;
    }

    /** `n` bytes of `buf` go to the write offset: by `memcpy` into the mapped buffer, or by `write`, which the
        driver stores from the offset on that it was given. */
    method Put(buf: array<byte>, from: nat, n: nat)
      requires buf != dma && from + n <= buf.Length && wrOffset + n <= dma.Length && hwWrOffset == wrOffset
      modifies dma
      ensures forall p :: 0 <= p < dma.Length ==>
                dma[p] == if wrOffset <= p < wrOffset + n then buf[p - wrOffset + from] else old(dma[p])
    {
      if !useKernelWr {
        MemCpy(dma, wrOffset, buf, from, n);
      } else {
        MemCpy(dma, hwWrOffset, buf, from, n);
      }
    }

    /** `iec958_buf_space_size`, where `rd` is the read offset the hardware reports. */
    method SpaceSize(rd: nat) returns (space: nat)
      requires Valid() && rd < dma.Length
      modifies this`wrOffset, this`firstWrite
      ensures Valid() && !firstWrite
      ensures wrOffset == Start(dma.Length, old(wrOffset), old(firstWrite), rd)
      ensures space == var room := Room(dma.Length, wrOffset, rd); if room > 4096 then room - 4096 else 0
    {
      if firstWrite {
        if rd >= wrOffset || wrOffset - rd < DELAY {
          wrOffset := rd + DELAY;
          if wrOffset >= dma.Length {
            wrOffset := wrOffset - dma.Length;
          }
        }
        firstWrite := false;
      }
      var room;
      if wrOffset > rd {
        room := dma.Length + rd - wrOffset;
      } else {
        room := rd - wrOffset;
      }
      return if room > ALIGN then room - ALIGN else 0;
    }

    /** The copying part: the frame is laid down from the write offset on, round the end of the ring. */
    method Lay(buf: array<byte>, frameSize: nat)
      requires Valid() && 0 < dma.Length && buf != dma && frameSize <= buf.Length && frameSize <= dma.Length
      modifies this`wrOffset, this`hwWrOffset, dma
      ensures hwWrOffset == wrOffset
      ensures var from := Home(dma.Length, old(wrOffset));
              && wrOffset == (if from + frameSize <= dma.Length then from + frameSize
                              else from + frameSize - dma.Length)
              && (forall k :: 0 <= k < frameSize ==> dma[Wrap(dma.Length, from, k)] == buf[k])
              && (forall p :: 0 <= p < dma.Length && !(from <= p < from + frameSize)
                              && !(p + dma.Length < from + frameSize)
                              ==> dma[p] == old(dma[p]))
    {
      if wrOffset == dma.Length {
        wrOffset := 0;
      }
      if frameSize + wrOffset > dma.Length {
        var tail := dma.Length - wrOffset;
        hwWrOffset := wrOffset;
        Put(buf, 0, tail);
        wrOffset := 0;
        hwWrOffset := wrOffset;
        Put(buf, tail, frameSize - tail);
        wrOffset := frameSize - tail;
      } else {
        hwWrOffset := wrOffset;
        Put(buf, 0, frameSize);
        wrOffset := wrOffset + frameSize;
      }
      hwWrOffset := wrOffset;
    }

    /** So it is appended to what the hardware has still to play. */
    method Place(buf: array<byte>, frameSize: nat, ghost rd: nat)
      requires Valid() && rd < dma.Length && buf != dma && frameSize <= buf.Length
      requires frameSize <= Room(dma.Length, wrOffset, rd)
               && (frameSize > 0 ==> frameSize < Room(dma.Length, wrOffset, rd))
      modifies this`wrOffset, this`hwWrOffset, dma
      ensures Valid() && Room(dma.Length, wrOffset, rd) == Room(dma.Length, old(wrOffset), rd) - frameSize
      ensures Pending(wrOffset, rd) == old(Pending(wrOffset, rd)) + buf[..frameSize]
    {
      ghost var before, wr, size := Pending(wrOffset, rd), wrOffset, dma.Length;
      Lay(buf, frameSize);
      forall k | 0 <= k < |before| + frameSize
        ensures dma[Wrap(size, rd, k)] == (before + buf[..frameSize])[k]
      {
        if k < |before| {
          StaysPut(size, wr, rd, k, frameSize);
        } else {
          Appended(size, wr, rd, k - |before|);
        }
      }
    }

    /** `iec958_packed_frame_write_958buf`. */
    method WriteFrame(buf: array<byte>, frameSize: nat, rd: nat, enabled: bool, i2sEnabled: bool) returns (ret: int)
      requires Valid() && rd < dma.Length && buf != dma && frameSize <= buf.Length
      modifies this`wrOffset, this`firstWrite, this`hwWrOffset, dma
      ensures Valid() && firstWrite == (old(firstWrite) && !enabled && !i2sEnabled)
      // no output runs yet: the frame is thrown away
      ensures !enabled && !i2sEnabled ==>
                ret == 0 && wrOffset == old(wrOffset) && dma[..] == old(dma[..])
                  && Pending(wrOffset, rd) == old(Pending(wrOffset, rd))
      ensures enabled || i2sEnabled ==>
                var start := Start(dma.Length, old(wrOffset), old(firstWrite), rd);
                var room := Room(dma.Length, start, rd);
                // it is refused exactly when the room less the guard gap is too small
                && (ret == if frameSize <= (if room > 4096 then room - 4096 else 0) then 0 else -1)
                && (ret == -1 ==> wrOffset == start && dma[..] == old(dma[..]))
                && (ret == -1 ==>
                      Pending(wrOffset, rd) == old(Pending(Start(dma.Length, wrOffset, firstWrite, rd), rd)))
                // else the hardware will play what it had to play before, then the frame
                && (ret == 0 ==> Room(dma.Length, wrOffset, rd) == room - frameSize)
                && (ret == 0 ==>
                      Pending(wrOffset, rd)
                      == old(Pending(Start(dma.Length, wrOffset, firstWrite, rd), rd)) + buf[..frameSize])
                // and the guard gap is kept, unless an empty frame found it already gone
                && (ret == 0 ==> (Room(dma.Length, wrOffset, rd) >= 4096 <==> frameSize > 0 || room >= 4096))
    {
      if !enabled && !i2sEnabled {
        return 0;
      }
      var space := SpaceSize(rd);
      if space < frameSize {
        return -1;
      }
      Place(buf, frameSize, rd);
      return 0;
    }
  }

  /** As the hardware plays `d` bytes, what is pending loses its first `d` bytes and the room grows by `d`. */
  lemma HardwarePlays(ring: DmaRing, rd: nat, d: nat)
    requires ring.Valid() && rd < ring.dma.Length && d < |ring.Pending(ring.wrOffset, rd)|
    ensures var rd' := Wrap(ring.dma.Length, rd, d);
            && rd' < ring.dma.Length
            && ring.Pending(ring.wrOffset, rd') == ring.Pending(ring.wrOffset, rd)[d..]
            && Room(ring.dma.Length, ring.wrOffset, rd') == Room(ring.dma.Length, ring.wrOffset, rd) + d
  {
  }

  /** But a hardware that has played everything makes the ring look full: nothing can be written until it
      moves on. */
  lemma CaughtUpLooksFull(size: nat, wr: nat, rd: nat)
    requires rd < size && wr <= size && DELAY <= size
    ensures var to := Wrap(size, rd, size - Room(size, wr, rd)); to < size && Room(size, wr, to) == 0
  {
  }

  /** A run of bytes that the hardware plays: new ones, or once more all that the ring holds. */
  datatype Part = New(bytes: seq<byte>) | Old(bytes: seq<byte>)

  /** All that is played in the end ... */
  function Sound(parts: seq<Part>): seq<byte> {
    if parts == [] then [] else Sound(parts[..|parts| - 1]) + parts[|parts| - 1].bytes
  }

  /** ... and without the repetitions. */
  function Once(parts: seq<Part>): seq<byte> {
    if parts == [] then []
    else Once(parts[..|parts| - 1]) + if parts[|parts| - 1].New? then parts[|parts| - 1].bytes else []
  }

  lemma SoundNext(parts: seq<Part>, part: Part)
    ensures Sound(parts + [part]) == Sound(parts) + part.bytes
    ensures Once(parts + [part]) == Once(parts) + if part.New? then part.bytes else []
  {
  }

  lemma {:induction false} OnceIsShorter(parts: seq<Part>)
    ensures |Once(parts)| <= |Sound(parts)|
  {
    if parts != [] {
      OnceIsShorter(parts[..|parts| - 1]);
    }
  }

  /** So what is played is what was accepted, in order, if and only if nothing is repeated. */
  lemma {:induction false} InOrderIff(parts: seq<Part>)
    requires forall p :: p in parts && p.Old? ==> p.bytes != []
    ensures Sound(parts) == Once(parts) <==> forall p :: p in parts ==> p.New?
  {
    if parts != [] {
      var before, last := parts[..|parts| - 1], parts[|parts| - 1];
      assert parts == before + [last];
      InOrderIff(before);
      OnceIsShorter(before);
      if last.New? && Sound(parts) == Once(parts) {
        assert Sound(before) == Sound(parts)[..|Sound(parts)| - |last.bytes|];
        assert Once(before) == Once(parts)[..|Once(parts)| - |last.bytes|];
      }
    }
  }

  lemma Regroup(played: seq<byte>, pending: seq<byte>, frame: seq<byte>)
    ensures played + (pending + frame) == (played + pending) + frame
  {
  }

  /** The ring with the hardware that empties it. From the first write on, `lead` is what was in the ring ahead
      of the first frame. */
  class Playback {
    const ring: DmaRing
    var rd: nat // what the hardware reports
    ghost var lead: seq<byte>
    ghost var accepted: seq<byte>
    ghost var played: seq<byte>
    ghost var parts: seq<Part>

    /** What has been played, followed by what the hardware has still to play, is the lead and then all frames
        accepted, in order, each once, and between them the whole ring for each time it was caught up with. */
    ghost predicate Valid()
      reads this, ring, ring.dma
    {
      && ring.Valid() && rd < ring.dma.Length
      && (ring.firstWrite ==> accepted == [] && played == [] && parts == [])
      && (!ring.firstWrite ==> played + Pending() == Sound(parts) && Once(parts) == lead + accepted)
      && (forall p :: p in parts && p.Old? ==> |p.bytes| == ring.dma.Length)
    }

    ghost function Pending(): seq<byte>
      reads this, ring, ring.dma
      requires ring.Valid() && rd < ring.dma.Length
    {
      ring.Pending(ring.wrOffset, rd)
    }

    /** All that the ring holds, from where the next frame goes. */
    ghost function Round(): seq<byte>
      reads this, ring, ring.dma
      requires ring.Valid() && rd < ring.dma.Length
    {
      ring.Pending(ring.wrOffset, Home(ring.dma.Length, ring.wrOffset))
    }

    constructor (ring: DmaRing, hwRdOffset: nat)
      requires ring.Valid() && ring.firstWrite && hwRdOffset < ring.dma.Length
      ensures Valid() && this.ring == ring && accepted == [] && parts == []
    {
      this.ring, rd := ring, hwRdOffset;
      lead, accepted, played, parts := [], [], [], [];
    }

    method Write(buf: array<byte>, frameSize: nat, enabled: bool, i2sEnabled: bool) returns (ret: int)
      requires Valid() && buf != ring.dma && frameSize <= buf.Length
      modifies this`lead, this`accepted, this`parts, ring, ring.dma
      ensures Valid() && played == old(played) && (!old(ring.firstWrite) ==> lead == old(lead))
      ensures accepted == old(accepted) + if ret == 0 && (enabled || i2sEnabled) then buf[..frameSize] else []
      ensures !old(ring.firstWrite) ==>
                parts == old(parts) + if ret == 0 && (enabled || i2sEnabled) then [New(buf[..frameSize])] else []
      ensures old(ring.firstWrite) ==> forall p :: p in parts ==> p.New?
    {
      if enabled || i2sEnabled {
        ret := WriteOn(buf, frameSize, enabled, i2sEnabled);
      } else {
        ret := ring.WriteFrame(buf, frameSize, rd, enabled, i2sEnabled);
      }
    }

    method WriteOn(buf: array<byte>, frameSize: nat, enabled: bool, i2sEnabled: bool) returns (ret: int)
      requires Valid() && buf != ring.dma && frameSize <= buf.Length && (enabled || i2sEnabled)
      modifies this`lead, this`accepted, this`parts, ring, ring.dma
      ensures Valid() && !ring.firstWrite && (!old(ring.firstWrite) ==> lead == old(lead))
      ensures accepted == old(accepted) + if ret == 0 then buf[..frameSize] else []
      ensures !old(ring.firstWrite) ==> parts == old(parts) + if ret == 0 then [New(buf[..frameSize])] else []
      ensures old(ring.firstWrite) ==> forall p :: p in parts ==> p.New?
    {
      ghost var first, start := ring.firstWrite, Start(ring.dma.Length, ring.wrOffset, ring.firstWrite, rd);
      ghost var before := ring.Pending(start, rd);
      ret := ring.WriteFrame(buf, frameSize, rd, enabled, i2sEnabled);
      if first {
        Begin(before);
      }
      if ret == 0 {
        Accept(before, buf[..frameSize]);
      }
    }

    ghost method Begin(before: seq<byte>)
      requires played == [] && accepted == [] && parts == []
      modifies this`lead, this`parts
      ensures lead == before && parts == [New(before)]
      ensures played + before == Sound(parts) && Once(parts) == lead + accepted
    {
      lead, parts := before, [New(before)];
      SoundNext([], New(before));
      assert [] + [New(before)] == parts && before == played + before == lead + accepted;
    }

    ghost method Accept(before: seq<byte>, frame: seq<byte>)
      requires ring.Valid() && rd < ring.dma.Length && !ring.firstWrite
      requires played + before == Sound(parts) && Pending() == before + frame && Once(parts) == lead + accepted
      requires forall p :: p in parts && p.Old? ==> |p.bytes| == ring.dma.Length
      modifies this`accepted, this`parts
      ensures Valid() && accepted == old(accepted) + frame && parts == old(parts) + [New(frame)]
    {
      Regroup(played, before, frame);
      SoundNext(parts, New(frame));
      assert lead + accepted + frame == lead + (accepted + frame);
      accepted := accepted + frame;
      parts := parts + [New(frame)];
    }

    /** The hardware plays one byte. If it was the last one to play, it goes on with all that the ring holds. */
    method PlayByte()
      requires Valid()
      modifies this`rd, this`played, this`parts
      ensures Valid() && played == old(played) + if ring.firstWrite then [] else [ring.dma[old(rd)]]
      ensures |Pending()| == if |old(Pending())| == 1 then ring.dma.Length else |old(Pending())| - 1
      ensures parts == old(parts) + if |old(Pending())| == 1 && !ring.firstWrite then [Old(Round())] else []
    {
      ghost var pending, b := Pending(), ring.dma[rd];
      PendingNext(rd, if rd + 1 < ring.dma.Length then rd + 1 else 0);
      rd := if rd + 1 < ring.dma.Length then rd + 1 else 0;
      if !ring.firstWrite {
        Hear(pending, b);
      }
    }

    ghost method Hear(pending: seq<byte>, b: byte)
      requires ring.Valid() && rd < ring.dma.Length && !ring.firstWrite
      requires played + pending == Sound(parts) && Once(parts) == lead + accepted
      requires forall p :: p in parts && p.Old? ==> |p.bytes| == ring.dma.Length
      requires pending != [] && pending == [b] + pending[1..]
      requires if |pending| == 1 then Pending() == Round() && |Round()| == ring.dma.Length
               else Pending() == pending[1..]
      modifies this`played, this`parts
      ensures Valid() && played == old(played) + [b]
      ensures parts == old(parts) + if |pending| == 1 then [Old(Round())] else []
    {
      assert played + ([b] + pending[1..]) == (played + [b]) + pending[1..];
      played := played + [b];
      if |pending| == 1 {
        SoundNext(parts, Old(Round()));
        parts := parts + [Old(Round())];
      }
    }

    lemma PendingNext(from: nat, to: nat)
      requires ring.Valid() && from < ring.dma.Length && to == if from + 1 < ring.dma.Length then from + 1 else 0
      ensures var was, now := ring.Pending(ring.wrOffset, from), ring.Pending(ring.wrOffset, to);
              && was != [] && was == [ring.dma[from]] + was[1..]
              && if |was| == 1 then to == Home(ring.dma.Length, ring.wrOffset) && |now| == ring.dma.Length
                 else now == was[1..]
    {
    }

    /** The hardware plays `d` bytes, however many. All goes on in order as long as they are fewer than it has
        still to play; each time it catches up with the writer, it starts on the whole ring again. */
    method Play(d: nat) returns (ghost laps: nat)
      requires Valid()
      modifies this`rd, this`played, this`parts
      ensures Valid() && (laps == 0 <==> d < |old(Pending())|)
      ensures ring.firstWrite ==> played == old(played) && parts == old(parts)
      ensures !ring.firstWrite ==> old(played) <= played && |played| == |old(played)| + d
      ensures !ring.firstWrite ==> parts == old(parts) + Again(Round(), laps)
    {
      laps := 0;
      for i := 0 to d
        invariant Valid() && Round() == old(Round())
        invariant ring.firstWrite ==> played == old(played) && parts == old(parts)
        invariant !ring.firstWrite ==> old(played) <= played && |played| == |old(played)| + i
        invariant !ring.firstWrite ==> parts == old(parts) + Again(Round(), laps)
        invariant if laps == 0 then i + |Pending()| == |old(Pending())| else |old(Pending())| <= i
      {
        if |Pending()| == 1 {
          laps := laps + 1;
        }
        PlayByte();
      }
    }
  }

  function Again(round: seq<byte>, laps: nat): (parts: seq<Part>)
    ensures |parts| == laps
  {
    if laps == 0 then [] else Again(round, laps - 1) + [Old(round)]
  }
}
