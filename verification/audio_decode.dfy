/** The audio path from the stream to the decoder (amadec/adec-ffmpeg-mgt.c): one thread cuts the stream
    into packages and queues them, another feeds them to the decoder and carries undecoded bytes over. */
module AudioDecode {
  import opened Wrappers
  import opened Bytes
  import opened SyncHunt

  const MAX_PACKAGES := 4

  class Package {
    var data: seq<byte>
    var next: Package?

    constructor (data: seq<byte>, next: Package?)
      ensures this.data == data && this.next == next
    {
      this.data := data;
      this.next := next;
    }
  }

  /** The package list. `nodes` are the packages in it, first to last. */
  class PackageList {
    var first: Package?
    var current: Package?
    var packNum: nat
    ghost var nodes: seq<Package>
    ghost var contents: seq<seq<byte>>

    /** The `next` of the last package, and both ends of an empty list, may be anything. */
    ghost predicate Valid()
      reads this, nodes
    {
      && packNum == |nodes| == |contents| <= MAX_PACKAGES
      && (packNum > 0 ==> first == nodes[0] && current == nodes[packNum - 1])
      && (forall i :: 0 <= i < packNum ==> nodes[i].data == contents[i])
      && (forall i :: 0 <= i < packNum - 1 ==> nodes[i].next == nodes[i + 1])
      && (forall i, j :: 0 <= i < j < packNum ==> nodes[i] != nodes[j])
    }

    constructor ()
      ensures Valid() && contents == [] && nodes == []
    {
      first, current, packNum := null, null, 0;
      nodes, contents := [], [];
    }

    /** `garbage` is what the unset `next` field of a new package holds. */
    method Add(data: seq<byte>, mallocOk: bool, garbage: Package?) returns (ret: int)
      requires Valid()
      modifies this, nodes
      ensures Valid() && (forall i :: 0 <= i < |nodes| ==> nodes[i] in old(nodes) || fresh(nodes[i]))
      ensures old(packNum) == 4 ==> ret == -2
      ensures old(packNum) < 4 ==> ret == if mallocOk then 0 else -1
      ensures contents == if ret == 0 then old(contents) + [data] else old(contents)
    {
      if packNum == MAX_PACKAGES {
        return -2;
      }
      if !mallocOk {
        return -1;
      }
      var p := new Package(data, garbage);
      if packNum == 0 {
        first := p;
        current := p;
        packNum := 1;
      } else {
        current.next := p;
        current := p;
        packNum := packNum + 1;
      }
      nodes, contents := nodes + [p], contents + [data];
      return 0;
    }

    method Get() returns (p: Package?)
      requires Valid()
      modifies this
      ensures Valid() && |nodes| <= |old(nodes)| && nodes == old(nodes)[|old(nodes)| - |nodes|..]
      ensures p == null <==> old(contents) == []
      ensures p == null ==> contents == old(contents)
      ensures p != null ==> p.data == old(contents)[0] && contents == old(contents)[1..] && p !in nodes
    {
      if packNum == 0 {
        return null;
      }
      p := first;
      if packNum == 1 {
        first := null;
        packNum := 0;
        current := null;
      } else {
        first := first.next;
        packNum := packNum - 1;
      }
      nodes, contents := nodes[1..], contents[1..];
    }

    /** `package_list_free`. */
    method Free()
      requires Valid()
      modifies this
      ensures Valid() && contents == [] && nodes == []
    {
      while packNum > 0
        invariant Valid()
        decreases packNum
      {
        first := first.next;
        packNum := packNum - 1;
        nodes, contents := nodes[1..], contents[1..];
      }
    }
  }

  datatype Format = Ape | Cook | Raac | Amr | Aac | AacLatm | Other

  predicate WantsBursts(format: Format) {
    format.Cook? || format.Raac? || format.Amr?
  }

  /** What became of the bytes the decode loop was given, in stream order. */
  datatype Piece = Decoded(bytes: seq<byte>) | Dropped(bytes: seq<byte>)

  function Content(trail: seq<Piece>): seq<byte> {
    if trail == [] then [] else Content(trail[..|trail| - 1]) + trail[|trail| - 1].bytes
  }

  function DecodedCount(trail: seq<Piece>): nat {
    if trail == [] then 0
    else DecodedCount(trail[..|trail| - 1])
         + if trail[|trail| - 1].Decoded? then |trail[|trail| - 1].bytes| else 0
  }

  ghost predicate AllDecoded(trail: seq<Piece>) {
    DecodedCount(trail) == |Content(trail)|
  }

  lemma TrailNext(trail: seq<Piece>, p: Piece)
    ensures Content(trail + [p]) == Content(trail) + p.bytes
    ensures DecodedCount(trail + [p]) == DecodedCount(trail) + if p.Decoded? then |p.bytes| else 0
  {
  }

  /** The state that `audio_decode_loop` keeps from one package to the next. `fed` is all it was given. */
  class DecodeLoop {
    const format: Format
    var rest: Option<seq<byte>> // pRestData
    var inlen: nat
    var needdata: nat
    var decodeOffset: nat
    var errors: nat // nDecodeErrCount
    var exiting: bool // exit_decode_thread
    ghost var trail: seq<Piece>
    ghost var fed: seq<byte>
    ghost var calls: nat     // of the decoder
    ghost var failures: nat  // those that failed
    ghost var silent: bool   // the last one that did not gave no sound
    ghost var postponed: nat // how often a buffer waited for a burst

    ghost function Carry(): seq<byte>
      reads this`rest
    {
      if rest.Some? then rest.value else []
    }

    /** Holds between packages: every byte was decoded or is carried; only APE decode errors and an exit drop any. */
    ghost predicate Conserved()
      reads this`fed, this`trail, this`rest, this`inlen, this`exiting, this`decodeOffset
    {
      && fed == Content(trail) + Carry()
      && (rest.Some? ==> inlen == |rest.value| > 0)
      && (rest.None? && !exiting ==> inlen == 0)
      && (format.Ape? ==> rest.None?)
      && (!format.Ape? && !exiting ==> AllDecoded(trail))
      && (!format.Cook? && !format.Raac? ==> decodeOffset == DecodedCount(trail))
    }

    constructor (format: Format)
      ensures Conserved() && this.format == format && fed == [] && trail == [] && !exiting && rest.None?
      ensures errors == 0 && needdata == 0
    {
      this.format := format;
      rest, inlen, needdata, decodeOffset, errors, exiting, trail, fed := None, 0, 0, 0, 0, false, [], [];
      calls, failures, silent, postponed := 0, 0, false, 0;
    }

    /** Any decoder: it fails, or it consumes one byte or more of what it is given. */
    method Decode(input: seq<byte>) returns (dlen: int, outlen: nat, pts: nat)
      modifies this`calls, this`failures, this`silent
      ensures dlen <= |input| && calls == old(calls) + 1
      ensures if dlen <= 0 then failures == old(failures) + 1 && silent == old(silent)
              else failures == old(failures) && silent == (outlen == 0)
    {
      dlen :| dlen <= |input|;
      outlen :| outlen >= 0;
      pts :| pts >= 0;
      calls := calls + 1;
      if dlen <= 0 {
        failures := failures + 1;
      } else {
        silent := outlen == 0;
      }
    }

    ghost method Record(p: Piece)
      modifies this`trail
      ensures trail == old(trail) + [p]
      ensures Content(trail) == Content(old(trail)) + p.bytes
      ensures DecodedCount(trail) == DecodedCount(old(trail)) + if p.Decoded? then |p.bytes| else 0
    {
      TrailNext(trail, p);
      trail := trail + [p];
    }

    /** Holds inside the loop over one buffer, of which `input` is still to be decoded. */
    ghost predicate Decoding(input: seq<byte>)
      reads this`fed, this`trail, this`rest, this`inlen, this`decodeOffset
    {
      && inlen == |input| && rest.None?
      && fed == Content(trail) + input
      && (!format.Ape? ==> AllDecoded(trail))
      && (!format.Cook? && !format.Raac? ==> decodeOffset == DecodedCount(trail))
    }

    /** One turn of the inner loop over `input`, the undecoded end of the buffer; `declen` bytes come before it.
        If no byte is decoded, `dlen` is -1. */
    method DecodeOnce(input: seq<byte>, declen: nat, exit: bool) returns (dlen: int, stop: bool)
      requires Decoding(input) && input != [] && !exiting
      modifies this
      ensures fed == old(fed) && old(trail) <= trail && dlen <= |input|
      ensures stop ==> Conserved() && !exiting
      ensures !stop ==> dlen > 0 && Decoding(input[dlen..])
      ensures exiting == (exit && !stop)
      ensures failures == old(failures) ==> Lost() == old(Lost())
      // a COOK, RAAC or AMR buffer that wants a burst waits ...
      ensures (format.Cook? || format.Raac? || format.Amr?) && old(needdata) > 0 ==>
                && stop && rest == Some(input) && trail == old(trail) && needdata == 0 && errors == old(errors)
                && calls == old(calls) && failures == old(failures) && postponed == old(postponed) + 1
      // ... and any other is decoded: the bytes that the decoder takes are done with, and when it fails, all of
      // them are kept or, for APE, given up
      ensures !(format.Cook? || format.Raac? || format.Amr?) || old(needdata) == 0 ==>
                calls == old(calls) + 1 && postponed == old(postponed)
      ensures (!(format.Cook? || format.Raac? || format.Amr?) || old(needdata) == 0) && dlen > 0 ==>
                && failures == old(failures) && errors == 0 && trail == old(trail) + [Decoded(input[..dlen])]
                && (stop <==> (format.Aac? || format.AacLatm?) && silent && dlen < |input|)
                && (stop ==> rest == Some(input[dlen..]))
      ensures (!(format.Cook? || format.Raac? || format.Amr?) || old(needdata) == 0) && dlen <= 0 ==>
                && failures == old(failures) + 1 && errors == old(errors) + 1 && stop
                && (if format.Ape? then trail == old(trail) + [Dropped(input)] else trail == old(trail))
                && rest == if format.Ape? then None else Some(input)
    {
      if WantsBursts(format) && needdata > 0 {
        Postpone(input);
        return -1, true;
      }
      dlen, stop := DecodeNow(input, declen, exit);
    }

    /** A COOK, RAAC or AMR buffer waits for the next package. */
    method Postpone(input: seq<byte>)
      requires Decoding(input) && input != [] && !exiting && WantsBursts(format) && needdata > 0
      modifies this`rest, this`needdata, this`postponed
      ensures Conserved() && rest == Some(input) && needdata == 0 && postponed == old(postponed) + 1
    {
      rest := Some(input);
      needdata := 0;
      postponed := postponed + 1;
    }

    method DecodeNow(input: seq<byte>, declen: nat, exit: bool) returns (dlen: int, stop: bool)
      requires Decoding(input) && input != [] && !exiting
      modifies this
      ensures fed == old(fed) && dlen <= |input|
      ensures stop ==> Conserved() && !exiting
      ensures !stop ==> dlen > 0 && Decoding(input[dlen..])
      ensures calls == old(calls) + 1 && postponed == old(postponed) && exiting == (exit && !stop)
      ensures failures == old(failures) ==> Lost() == old(Lost())
      ensures dlen > 0 ==>
                && failures == old(failures) && errors == 0 && trail == old(trail) + [Decoded(input[..dlen])]
                && (stop <==> (format.Aac? || format.AacLatm?) && silent && dlen < |input|)
                && (stop ==> rest == Some(input[dlen..]))
      ensures dlen <= 0 ==>
                && failures == old(failures) + 1 && errors == old(errors) + 1 && stop
                && (if format.Ape? then trail == old(trail) + [Dropped(input)] else trail == old(trail))
                && rest == if format.Ape? then None else Some(input)
    {
      var ret, outlen, pts := Decode(input);
      if ret <= 0 {
        DecodeFailed(input);
        return -1, true;
      }
      dlen := ret;
      stop := DecodeDone(input, dlen, outlen, pts, declen + dlen, exit);
    }

    method DecodeDone(input: seq<byte>, dlen: nat, outlen: nat, pts: nat, declen: nat, exit: bool) returns (stop: bool)
      requires Decoding(input) && 0 < dlen <= |input| && !exiting
      modifies this`trail, this`inlen, this`errors, this`needdata, this`rest, this`decodeOffset, this`exiting
      ensures stop ==> Conserved() && !exiting
      ensures !stop ==> Decoding(input[dlen..])
      ensures trail == old(trail) + [Decoded(input[..dlen])] && errors == 0
      ensures stop <==> (format.Aac? || format.AacLatm?) && outlen == 0 && dlen < |input|
      ensures stop ==> rest == Some(input[dlen..])
      ensures exiting == (exit && !stop) && Lost() == old(Lost())
    {
      errors := 0;
      Consume(input, dlen);
      stop := Account(dlen, outlen, pts, declen, input[dlen..], exit);
    }

    method Consume(input: seq<byte>, dlen: nat)
      requires Decoding(input) && 0 < dlen <= |input|
      modifies this`trail, this`inlen
      ensures trail == old(trail) + [Decoded(input[..dlen])] && inlen == |input[dlen..]|
      ensures fed == Content(trail) + input[dlen..] && (!format.Ape? ==> AllDecoded(trail))
      ensures DecodedCount(trail) == DecodedCount(old(trail)) + dlen && Lost() == old(Lost())
    {
      ghost var content := Content(trail);
      Record(Decoded(input[..dlen]));
      assert content + input == content + input[..dlen] + input[dlen..];
      inlen := inlen - dlen;
    }

    /** What follows a failed decode: an APE buffer is given up, any other is kept for the next package. */
    method DecodeFailed(input: seq<byte>)
      requires Decoding(input) && input != [] && !exiting
      modifies this`trail, this`inlen, this`rest, this`errors, this`needdata
      ensures Conserved() && old(trail) <= trail
      ensures errors == old(errors) + 1 && needdata == 0
      ensures if format.Ape? then trail == old(trail) + [Dropped(input)] else trail == old(trail)
      ensures rest == if format.Ape? then None else Some(input)
    {
      if format.Ape? {
        GiveUp(input);
      } else {
        Keep(input);
      }
      errors := errors + 1;
      needdata := 0;
    }

    method GiveUp(input: seq<byte>)
      requires Decoding(input) && format.Ape?
      modifies this`trail, this`inlen
      ensures Conserved() && trail == old(trail) + [Dropped(input)] && rest == None
    {
      Record(Dropped(input));
      inlen := 0;
      assert Carry() == [] && fed == Content(trail);
    }

    method Keep(input: seq<byte>)
      requires Decoding(input) && input != [] && !exiting && !format.Ape?
      modifies this`rest
      ensures Conserved() && rest == Some(input)
    {
      if inlen > 0 {
        rest := Some(input);
      }
    }

    /** What follows a successful decode: `input` is what is left of the buffer, `declen` what is done. */
    method Account(dlen: nat, outlen: nat, pts: nat, declen: nat, input: seq<byte>, exit: bool) returns (stop: bool)
      requires inlen == |input| && rest.None? && !exiting
      requires fed == Content(trail) + input && (!format.Ape? ==> AllDecoded(trail))
      requires !format.Cook? && !format.Raac? ==> decodeOffset + dlen == DecodedCount(trail)
      modifies this`needdata, this`rest, this`decodeOffset, this`exiting
      ensures stop ==> Conserved() && !exiting
      ensures !stop ==> Decoding(input)
      // the rest of an AAC buffer that gave no sound waits for more data
      ensures stop <==> (format.Aac? || format.AacLatm?) && outlen == 0 && input != []
      ensures stop ==> rest == Some(input)
      ensures exiting == (exit && !stop)
      ensures needdata == old(needdata) + if WantsBursts(format) && |input| <= declen then 1 else 0
      ensures decodeOffset == if format.Raac? || format.Cook? then pts else old(decodeOffset) + dlen
    {
      if WantsBursts(format) {
        if inlen <= declen {
          needdata := needdata + 1;
        }
      } else if format.AacLatm? || format.Aac? {
        if outlen == 0 && inlen > 0 {
          rest := Some(input);
          decodeOffset := decodeOffset + dlen;
          return true;
        }
      }
      if format.Raac? || format.Cook? {
        decodeOffset := pts;
      } else {
        decodeOffset := decodeOffset + dlen;
      }
      if exit {
        exiting := true;
      }
      return false;
    }

    /** The carried bytes, if any, and the package make up the next buffer. */
    method Prepend(data: seq<byte>) returns (inbuf: seq<byte>)
      requires Conserved() && !exiting
      modifies this`rest, this`inlen, this`fed
      ensures Decoding(inbuf) && fed == old(fed) + data
    {
      inbuf := data;
      if inlen > 0 && rest.Some? {
        inbuf := rest.value + data;
        rest := None;
      }
      assert Content(trail) + inbuf == fed + data;
      fed := fed + data;
      inlen := |inbuf|;
    }

    /** The bytes given up so far. */
    ghost function Lost(): int
      reads this`trail
    {
      |Content(trail)| - DecodedCount(trail)
    }

    /** The decode loop handles one package. An exit is requested at call `exitAt` of the decoder, or not at all
        if that is 0. */
    method DecodePackage(data: seq<byte>, exitAt: nat)
      requires Conserved() && !exiting
      modifies this
      ensures Conserved() && fed == old(fed) + data && old(trail) <= trail
      ensures exiting ==> 0 < exitAt == calls - old(calls)
      // what is carried after a package was refused by the decoder, waits for a burst, or is the rest of an AAC
      // buffer that gave no sound
      ensures rest.Some? ==>
                || failures == old(failures) + 1
                || (postponed == old(postponed) + 1 && (format.Cook? || format.Raac? || format.Amr?))
                || ((format.Aac? || format.AacLatm?) && silent)
      ensures failures <= old(failures) + 1 && postponed <= old(postponed) + 1
      ensures failures > old(failures) ==> rest.Some? || format.Ape?
      // else everything is decoded
      ensures failures == old(failures) && !exiting ==> Lost() == old(Lost())
      ensures format.Other? && failures == old(failures) && !exiting ==>
                rest == None && AllDecoded(trail) && Content(trail) == fed
    {
      var inbuf := Prepend(data);
      DecodeBuffer(inbuf, exitAt);
    }

    /** The loop over one buffer. */
    method DecodeBuffer(inbuf: seq<byte>, exitAt: nat)
      requires Decoding(inbuf) && !exiting
      modifies this
      ensures Conserved() && fed == old(fed) && old(trail) <= trail
      ensures exiting ==> 0 < exitAt == calls - old(calls)
      ensures rest.Some? ==>
                || failures == old(failures) + 1
                || (postponed == old(postponed) + 1 && (format.Cook? || format.Raac? || format.Amr?))
                || ((format.Aac? || format.AacLatm?) && silent)
      ensures failures <= old(failures) + 1 && postponed <= old(postponed) + 1
      ensures failures > old(failures) ==> rest.Some? || format.Ape?
      ensures failures == old(failures) && !exiting ==> Lost() == old(Lost())
    {
      var rlen, declen, i := |inbuf|, 0, 0;
      assert inbuf[0..] == inbuf;
      while declen < rlen && !exiting
        invariant declen <= rlen == |inbuf| && Decoding(inbuf[declen..])
        invariant fed == old(fed) && old(trail) <= trail && Lost() == old(Lost())
        invariant failures == old(failures) && postponed == old(postponed) && calls == old(calls) + i
        invariant exiting ==> 0 < exitAt == calls - old(calls)
        decreases rlen - declen
      {
        i := i + 1;
        var dlen, stop := DecodeOnce(inbuf[declen..], declen, i == exitAt);
        if stop {
          return;
        }
        assert inbuf[declen..][dlen..] == inbuf[declen + dlen..];
        declen := declen + dlen;
      }
      if declen < rlen {
        // an exit frees the buffer with what is left in it
        Record(Dropped(inbuf[declen..]));
      }
    }
  }

  /** Where a package comes from: the hunt for it began at `origin`, and it is the bytes from `start` to `end`. */
  datatype Span = Span(origin: nat, start: nat, end: nat)

  predicate Inside(data: seq<byte>, span: Span) {
    span.origin <= span.start <= span.end <= |data|
  }

  predicate AllInside(data: seq<byte>, spans: seq<Span>) {
    forall i :: 0 <= i < |spans| ==> Inside(data, spans[i])
  }

  function Frames(data: seq<byte>, spans: seq<Span>): seq<byte>
    requires AllInside(data, spans)
  {
    if spans == [] then []
    else
      var last := spans[|spans| - 1];
      Frames(data, spans[..|spans| - 1]) + data[last.start..last.end]
  }

  /** The earliest sync word from `origin` on, and behind it the size `n`, end at `start`. */
  ghost predicate HeaderAt(data: seq<byte>, origin: nat, start: nat, n: int) {
    origin + 8 <= start <= |data| && FirstSync(data, origin, start - 8) && n == SizeAt(data, start - 4)
  }

  /** An APE package stands right behind such a header, and is of that size, or shorter if it was `cut`. */
  ghost predicate Framed(data: seq<byte>, span: Span, cut: bool) {
    && Inside(data, span) && span.origin + 8 <= span.start
    && var n := SizeAt(data, span.start - 4);
       && HeaderAt(data, span.origin, span.start, n)
       && span.end - span.start <= Size(n) && (!cut ==> span.end - span.start == Size(n))
  }

  function Size(n: int): nat {
    if n < 0 then 0 else n
  }

  /** All packages are, but for the last if it was `cut`. */
  ghost predicate AllFramed(data: seq<byte>, spans: seq<Span>, cut: bool) {
    forall i :: 0 <= i < |spans| ==> Framed(data, spans[i], cut && i == |spans| - 1)
  }

  function End(spans: seq<Span>): nat {
    if spans == [] then 0 else spans[|spans| - 1].end
  }

  /** Each hunt begins where the package before it ends, the first one at the start of the stream. */
  ghost predicate Chained(spans: seq<Span>) {
    && (spans != [] ==> spans[0].origin == 0)
    && (forall i :: 0 < i < |spans| ==> spans[i].origin == spans[i - 1].end)
  }

  /** `taken` is what stands at these places, and they are the frames of the stream from its start on. */
  ghost predicate AreFrames(data: seq<byte>, taken: seq<byte>, spans: seq<Span>, cut: bool) {
    AllInside(data, spans) && taken == Frames(data, spans) && Chained(spans) && AllFramed(data, spans, cut)
  }

  lemma FramesNext(data: seq<byte>, taken: seq<byte>, spans: seq<Span>, span: Span, cut: bool)
    requires AreFrames(data, taken, spans, false) && Framed(data, span, cut) && span.origin == End(spans)
    ensures AreFrames(data, taken + data[span.start..span.end], spans + [span], cut)
    ensures End(spans + [span]) == span.end
  {
    var next := spans + [span];
    assert next[..|spans|] == spans;
    assert Chained(next);
  }

  /** Which frames there are is a matter of the stream alone: two chains on the same stream are the same, as far
      as both go. None can skip a frame, or stop at one that is not there. */
  lemma {:induction false} FramesUnique(data: seq<byte>, a: seq<Span>, b: seq<Span>, n: nat)
    requires Chained(a) && AllFramed(data, a, false) && Chained(b) && AllFramed(data, b, false) && n <= |a| && n <= |b|
    ensures forall i :: 0 <= i < n ==> a[i] == b[i]
  {
    if n > 0 {
      var i := n - 1;
      FramesUnique(data, a, b, i);
      assert a[i].origin == b[i].origin by {
        if i > 0 {
          assert a[i - 1] == b[i - 1];
        }
      }
      SameFrame(data, a[i], b[i]);
    }
  }

  lemma SameFrame(data: seq<byte>, a: Span, b: Span)
    requires Framed(data, a, false) && Framed(data, b, false) && a.origin == b.origin
    ensures a == b
  {
    FirstSyncUnique(data, a.origin, a.start - 8, b.start - 8);
  }

  /** The inner loop of `audio_getpackage_loop`: a package of `inBufSize` bytes is read in pieces of 1024
      at most. Each read may give nothing, or some of what it is asked for; a faulty one is `lost`. An exit
      is requested after `polls` reads. */
  method ReadPackage(s: Stream, inBufSize: int, wfdAac: bool, polls: nat)
    returns (data: seq<byte>, exited: bool, ghost lost: bool)
    requires s.Valid()
    modifies s
    ensures s.Valid() && old(s.pos) <= s.pos
    ensures !lost ==> data == s.data[old(s.pos)..s.pos]
    ensures |data| <= Size(inBufSize) && (|data| == Size(inBufSize) || exited || (wfdAac && |data| > 300))
    // it stops short only when `polls` reads are used up
    ensures exited ==> |data| < Size(inBufSize) && s.asked == old(s.asked) + polls
    ensures s.vain >= old(s.vain) && s.tears >= old(s.tears) && (lost ==> s.tears > 0)
    // and of a wireless AAC stream it takes no further piece after 300 bytes
    ensures wfdAac ==> |data| <= 300 + 1024
  {
    var inbuf := new byte[if inBufSize < 0 then 0 else inBufSize];
    var rlen, nextReadSize, perTime := 0, inBufSize, 1024;
    lost := false;
    var i := 0;
    while nextReadSize > 0 && i < polls
      invariant s.Valid() && old(s.pos) <= s.pos && 0 <= i <= polls && 0 < perTime <= 1024
      invariant s.tears >= old(s.tears) && (lost ==> s.tears > 0) && (wfdAac ==> rlen <= 300)
      invariant s.asked == old(s.asked) + i && s.vain >= old(s.vain)
      invariant nextReadSize > 0 ==> rlen < Size(inBufSize)
      invariant 0 <= rlen <= inbuf.Length && (nextReadSize >= 0 ==> rlen + nextReadSize == inbuf.Length)
      invariant nextReadSize < 0 ==> rlen == inbuf.Length == 0
      invariant !lost ==> rlen == s.pos - old(s.pos) && forall k :: 0 <= k < rlen ==> inbuf[k] == s.data[old(s.pos) + k]
      decreases polls - i
    {
      i := i + 1;
      if nextReadSize <= perTime {
        perTime := nextReadSize;
      }
      ghost var pos := s.pos;
      var ret;
      ghost var torn;
      ret, torn := s.ReadBuffer(inbuf, rlen, perTime);
      lost := lost || (torn && ret == 0);
      if ret <= 0 {
        continue;
      }
      rlen := rlen + ret;
      nextReadSize := nextReadSize - ret;
      if wfdAac && rlen > 300 {
        break;
      }
    }
    data := inbuf[..rlen];
    exited := nextReadSize > 0 && !(wfdAac && rlen > 300);
  }

  /** The state of `audio_getpackage_loop`. `taken` is all that went into packages. `spans` are the places of the
      packages in the stream, for APE also those of frames of size 0, which make no package. */
  class Reader {
    const format: Format
    const stream: Stream
    const code: StartCode
    var pending: Option<seq<byte>> // a package that waits for a place in the list
    ghost var taken: seq<byte>
    ghost var spans: seq<Span>
    ghost var lost: bool // a read was torn, and bytes with it
    ghost var cut: bool // an exit cut the last package short

    ghost predicate Valid()
      reads this`taken, this`spans, this`lost, this`cut, stream, code, code.buff
    {
      && code.Hunting(stream) && (!format.Ape? ==> code.status == 0) && (lost ==> stream.tears > 0)
      && (!lost && !format.Ape? ==> taken == stream.data[..stream.pos])
      && (!lost && format.Ape? ==> Framing())
    }

    /** The frames follow each other from the start of the stream on, and the present hunt follows the last one. */
    ghost predicate Framing()
      reads this`taken, this`spans, this`cut, stream, code
    {
      && !code.torn && AreFrames(stream.data, taken, spans, cut)
      && (if code.status == 1 || code.status == 2 then code.origin == End(spans) else stream.pos == End(spans))
    }

    constructor (format: Format, stream: Stream)
      requires stream.Valid() && stream.pos == 0
      ensures Valid() && this.format == format && this.stream == stream && pending == None
      ensures taken == [] && !lost && !cut
      ensures fresh(code) && fresh(code.buff)
    {
      this.format, this.stream := format, stream;
      code := new StartCode();
      pending := None;
      taken, spans, lost, cut := [], [], false, false;
    }

    /** One turn of the loop up to the package: no package yet while the hunt goes on. */
    method ReadNext(inBufSize: nat, wfd: bool, polls: nat) returns (exited: bool)
      requires Valid() && pending.None? && !cut
      modifies this`pending, this`taken, this`spans, this`lost, this`cut, stream, code, code.buff
      ensures Valid() && (old(lost) ==> lost) && (cut ==> exited)
      ensures taken == old(taken) + Waiting(pending)
      // there is a package after each turn, but for APE while the hunt goes on or a frame is empty
      ensures pending.None? ==> format.Ape? && (stream.pos > old(stream.pos) || stream.vain > old(stream.vain))
      ensures pending.Some? && !format.Ape? ==>
                |pending.value| == inBufSize || exited || (wfd && format.Aac? && |pending.value| > 300)
      ensures exited ==> stream.asked >= old(stream.asked) + polls
    {
      exited := false;
      var n := Hunt();
      if n != 0 {
        if format.Ape? && !lost {
          SizeIsNotDefault(stream.data, stream.pos - 4);
        }
        exited := Read(if n == -1 then inBufSize else n, wfd, polls);
      }
    }

    /** `get_frame_size`, and what it finds: a new package starts behind it. */
    method Hunt() returns (n: int)
      requires Valid() && !cut
      modifies this`lost, this`spans, stream, code, code.buff
      ensures old(lost) ==> lost
      ensures if n == 0 then Valid() else Hunted(n)
      ensures !format.Ape? ==> n == -1 && stream.pos == old(stream.pos)
      ensures format.Ape? ==> stream.pos > old(stream.pos) || stream.vain > old(stream.vain)
      ensures stream.asked >= old(stream.asked)
    {
      n := code.GetFrameSize(stream, format == Ape);
      if format.Ape? {
        lost := lost || code.torn;
        if !lost && code.status == 3 && n == 0 {
          AddEmpty();
        }
      }
    }

    /** A package of size `n` is about to be read: for APE the one behind the earliest sync word since the end
        of the last frame. */
    ghost predicate Hunted(n: int)
      reads this, stream, code, code.buff
    {
      && code.Hunting(stream) && (if format.Ape? then code.status == 3 else code.status == 0)
      && (lost ==> stream.tears > 0)
      && (!lost && !format.Ape? ==> taken == stream.data[..stream.pos])
      && (!lost && format.Ape? ==>
            && !code.torn && AreFrames(stream.data, taken, spans, false)
            && code.origin == End(spans) && HeaderAt(stream.data, code.origin, stream.pos, n))
    }

    /** A frame of size 0 makes no package. */
    ghost method AddEmpty()
      requires format.Ape? && !lost && !cut && Hunted(0)
      modifies this`spans
      ensures Valid()
    {
      var span := Span(code.origin, stream.pos, stream.pos);
      FramesNext(stream.data, taken, spans, span, false);
      assert taken + stream.data[stream.pos..stream.pos] == taken;
      spans := spans + [span];
    }

    /** The package itself. */
    method Read(size: int, wfd: bool, polls: nat) returns (exited: bool)
      requires Hunted(size) && pending.None? && !cut
      modifies this`pending, this`taken, this`spans, this`lost, this`cut, stream
      ensures Valid() && (old(lost) ==> lost) && (cut ==> exited)
      ensures taken == old(taken) + Waiting(pending)
      ensures pending.Some?
      ensures |pending.value| == Size(size) || exited || (wfd && format.Aac? && |pending.value| > 300)
      ensures exited ==> stream.asked == old(stream.asked) + polls
    {
      ghost var start := stream.pos;
      var data;
      ghost var l;
      data, exited, l := ReadPackage(stream, size, wfd && format.Aac?, polls);
      pending := Some(data);
      cut := exited;
      lost := lost || l;
      Record(data, start, size);
    }

    /** A package of `data` was read from `start` on. */
    ghost method Record(data: seq<byte>, start: nat, size: int)
      requires code.Hunting(stream) && start <= stream.pos
               && (if format.Ape? then code.status == 3 else code.status == 0)
      requires (lost ==> stream.tears > 0) && (!lost ==> data == stream.data[start..stream.pos])
      requires !lost && !format.Ape? ==> taken == stream.data[..start]
      requires !lost && format.Ape? ==>
                 && !code.torn && AreFrames(stream.data, taken, spans, false)
                 && code.origin == End(spans) && HeaderAt(stream.data, code.origin, start, size)
                 && |data| <= Size(size) && (!cut ==> |data| == Size(size))
      modifies this`taken, this`spans
      ensures Valid() && taken == old(taken) + data
    {
      if !lost {
        if format.Ape? {
          var span := Span(code.origin, start, stream.pos);
          FramesNext(stream.data, taken, spans, span, cut);
          spans := spans + [span];
        } else {
          assert stream.data[..stream.pos] == stream.data[..start] + stream.data[start..stream.pos];
        }
      }
      taken := taken + data;
    }
  }

  /** One step of either thread. */
  datatype Turn = ReadTurn(polls: nat) | AddTurn(mallocOk: bool, garbage: Package?) | DecodeTurn(exitAt: nat)

  /** What the two threads keep: each byte that went into a package went to the decode loop, is queued, or is
      in the package that waits for a place in the list. */
  ghost predicate Flowing(reader: Reader, list: PackageList, loop: DecodeLoop)
    reads reader, reader.stream, reader.code, reader.code.buff, list, list.nodes, loop
  {
    && reader.Valid() && list.Valid() && loop.Conserved() && reader.format == loop.format
    && reader.taken == loop.fed + Join(list.contents) + Waiting(reader.pending)
  }

  /** What that comes to: the bytes of all packages are those decoded or given up, carried, queued and waiting, in
      this order, and before the exit only APE gives any up. */
  ghost predicate Delivered(reader: Reader, list: PackageList, loop: DecodeLoop)
    reads reader, list, loop
  {
    && reader.taken == Content(loop.trail) + loop.Carry() + Join(list.contents) + Waiting(reader.pending)
    && (!loop.exiting && !loop.format.Ape? ==> AllDecoded(loop.trail))
  }

  /** And unless a read was torn, the packages are the stream as far as it was read, or for APE its frames from
      the start on, every one, with a hunt going on behind the last one that has met no other. */
  ghost predicate Complete(reader: Reader)
    reads reader, reader.stream, reader.code
  {
    var data, pos := reader.stream.data, reader.stream.pos;
    pos <= |data|
    && if reader.format.Ape? then
         && AreFrames(data, reader.taken, reader.spans, reader.cut)
         && Behind(data, End(reader.spans), pos, reader.code.status)
       else reader.taken == data[..pos]
  }

  /** What a hunt from `from` on has met at `pos`. */
  ghost predicate Behind(data: seq<byte>, from: nat, pos: nat, status: nat) {
    if status == 1 then NoSync(data, from, pos)
    else if status == 2 then from + 4 <= pos && FirstSync(data, from, pos - 4)
    else pos == from
  }

  lemma FlowingDelivers(reader: Reader, list: PackageList, loop: DecodeLoop)
    requires Flowing(reader, list, loop)
    ensures Delivered(reader, list, loop)
    ensures if reader.lost then reader.stream.tears > 0 else Complete(reader)
  {
  }

  method TakeTurn(reader: Reader, inBufSize: nat, wfd: bool, list: PackageList, loop: DecodeLoop, turn: Turn)
    returns (exited: bool)
    requires Flowing(reader, list, loop) && !loop.exiting && !reader.cut
    modifies reader, reader.stream, reader.code, reader.code.buff, list, list.nodes, loop
    ensures Flowing(reader, list, loop) && (loop.exiting || reader.cut ==> exited)
    ensures forall i :: 0 <= i < |list.nodes| ==> list.nodes[i] in old(list.nodes) || fresh(list.nodes[i])
    // each turn does its part: a package is read, the one that waits is queued if there is room, the first of
    // those queued is decoded
    ensures turn.ReadTurn? && old(reader.pending).None? && reader.pending.None? ==>
              && reader.format.Ape?
              && (reader.stream.pos > old(reader.stream.pos) || reader.stream.vain > old(reader.stream.vain))
    ensures turn.AddTurn? && old(reader.pending).Some? && |old(list.contents)| < 4 && turn.mallocOk ==>
              reader.pending.None? && list.contents == old(list.contents) + [old(reader.pending).value]
    ensures turn.DecodeTurn? && old(list.contents) != [] ==>
              list.contents == old(list.contents)[1..] && loop.fed == old(loop.fed) + old(list.contents)[0]
  {
    exited := false;
    match turn {
      case ReadTurn(polls) =>
        exited := ReadStep(reader, inBufSize, wfd, list, loop, polls);
      case AddTurn(mallocOk, garbage) =>
        AddStep(reader, list, loop, mallocOk, garbage);
      case DecodeTurn(exitAt) =>
        exited := DecodeNext(list, loop, exitAt);
    }
  }

  method ReadStep(reader: Reader, inBufSize: nat, wfd: bool, list: PackageList, loop: DecodeLoop, polls: nat)
    returns (exited: bool)
    requires Flowing(reader, list, loop) && !reader.cut
    modifies reader, reader.stream, reader.code, reader.code.buff
    ensures Flowing(reader, list, loop) && (reader.cut ==> exited)
    ensures old(reader.pending).None? && reader.pending.None? ==>
              && reader.format.Ape?
              && (reader.stream.pos > old(reader.stream.pos) || reader.stream.vain > old(reader.stream.vain))
  {
    exited := false;
    if reader.pending.None? {
      exited := reader.ReadNext(inBufSize, wfd, polls);
    }
  }

  method AddStep(reader: Reader, list: PackageList, loop: DecodeLoop, mallocOk: bool, garbage: Package?)
    requires Flowing(reader, list, loop)
    modifies reader`pending, list, list.nodes
    ensures Flowing(reader, list, loop)
    ensures forall i :: 0 <= i < |list.nodes| ==> list.nodes[i] in old(list.nodes) || fresh(list.nodes[i])
    ensures old(reader.pending).Some? && |old(list.contents)| < 4 && mallocOk ==>
              reader.pending.None? && list.contents == old(list.contents) + [old(reader.pending).value]
  {
    if reader.pending.Some? {
      ghost var taken, fed := reader.taken, loop.fed;
      AddPending(reader, list, loop.fed, mallocOk, garbage);
      assert reader.taken == taken && loop.fed == fed;
      assert reader.Valid();
      assert loop.Conserved();
      assert list.Valid();
    }
  }

  /** The two threads in any interleaving, until an exit is requested. */
  method Interleave(reader: Reader, inBufSize: nat, wfd: bool, list: PackageList, loop: DecodeLoop, turns: seq<Turn>)
    returns (exited: bool)
    requires Flowing(reader, list, loop) && !loop.exiting && !reader.cut && list.nodes == []
    modifies reader, reader.stream, reader.code, reader.code.buff, list, loop
    ensures Flowing(reader, list, loop) && (loop.exiting || reader.cut ==> exited)
  {
    exited := false;
    var i := 0;
    while i < |turns| && !exited
      invariant 0 <= i <= |turns| && Flowing(reader, list, loop) && (loop.exiting || reader.cut ==> exited)
      invariant forall i :: 0 <= i < |list.nodes| ==> fresh(list.nodes[i])
    {
      exited := TakeTurn(reader, inBufSize, wfd, list, loop, turns[i]);
      i := i + 1;
    }
  }

  /** The whole path, from the start of a stream: nothing is lost, repeated or moved, whatever the threads, the
      reads and the decoder do. */
  method Pipeline(format: Format, stream: Stream, inBufSize: nat, wfd: bool, turns: seq<Turn>)
    returns (exited: bool, reader: Reader, list: PackageList, loop: DecodeLoop)
    requires stream.Valid() && stream.pos == 0
    modifies stream
    ensures reader.format == loop.format == format && reader.stream == stream
    ensures Delivered(reader, list, loop)
    ensures stream.tears == 0 ==> Complete(reader)
    ensures (loop.exiting || reader.cut ==> exited)
  {
    reader, list, loop := Begin(format, stream);
    exited := Interleave(reader, inBufSize, wfd, list, loop, turns);
    FlowingDelivers(reader, list, loop);
  }

  method Begin(format: Format, stream: Stream) returns (reader: Reader, list: PackageList, loop: DecodeLoop)
    requires stream.Valid() && stream.pos == 0
    ensures Flowing(reader, list, loop) && !loop.exiting && !reader.cut && list.nodes == []
    ensures reader.format == loop.format == format && reader.stream == stream
    ensures fresh(reader) && fresh(reader.code) && fresh(reader.code.buff) && fresh(list) && fresh(loop)
  {
    list := new PackageList();
    loop := new DecodeLoop(format);
    reader := new Reader(format, stream);
  }

  function Waiting(pending: Option<seq<byte>>): seq<byte> {
    if pending.Some? then pending.value else []
  }

  method AddPending(reader: Reader, list: PackageList, ghost fed: seq<byte>, mallocOk: bool, garbage: Package?)
    requires list.Valid() && reader.pending.Some?
    modifies reader`pending, list, list.nodes
    ensures list.Valid()
    ensures forall i :: 0 <= i < |list.nodes| ==> list.nodes[i] in old(list.nodes) || fresh(list.nodes[i])
    ensures fed + Join(list.contents) + Waiting(reader.pending)
            == old(fed + Join(list.contents) + Waiting(reader.pending))
    ensures |old(list.contents)| < 4 && mallocOk ==>
              reader.pending.None? && list.contents == old(list.contents) + [old(reader.pending).value]
  {
    var data := reader.pending.value;
    QueuedNext(fed, list.contents, data);
    var ret := list.Add(data, mallocOk, garbage);
    if ret == 0 {
      reader.pending := None;
    }
  }

  lemma QueuedNext(fed: seq<byte>, contents: seq<seq<byte>>, data: seq<byte>)
    ensures fed + Join(contents + [data]) + Waiting(None) == fed + Join(contents) + Waiting(Some(data))
  {
    JoinSnoc(contents, data);
    assert fed + (Join(contents) + data) == fed + Join(contents) + data;
  }

  method DecodeNext(list: PackageList, loop: DecodeLoop, exitAt: nat) returns (exited: bool)
    requires list.Valid() && loop.Conserved() && !loop.exiting
    modifies list, loop
    ensures list.Valid() && |list.nodes| <= |old(list.nodes)|
            && list.nodes == old(list.nodes)[|old(list.nodes)| - |list.nodes|..]
    ensures loop.Conserved() && exited == loop.exiting
    ensures loop.fed + Join(list.contents) == old(loop.fed + Join(list.contents))
    ensures old(list.contents) != [] ==>
              list.contents == old(list.contents)[1..] && loop.fed == old(loop.fed) + old(list.contents)[0]
  {
    if list.contents != [] {
      JoinUncons(list.contents);
    }
    ghost var fed, first := loop.fed, if list.contents != [] then list.contents[0] else [];
    var p := list.Get();
    if p != null {
      assert fed + (first + Join(list.contents)) == (fed + first) + Join(list.contents);
      loop.DecodePackage(p.data, exitAt);
    }
    exited := loop.exiting;
  }
}
