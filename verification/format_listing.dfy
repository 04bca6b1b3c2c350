/** The sorted listings of formats and codecs (amffmpeg/cmdutils.c): registries come in no order, and
    each round scans them for the least name above the one printed last. */
module FormatListing {
  import opened Wrappers

  /** `strcmp(a, b) < 0`. */
  predicate Less(a: string, b: string) {
    if b == [] then false
    else if a == [] then true
    else if a[0] != b[0] then a[0] < b[0]
    else Less(a[1..], b[1..])
  }

  /** The order of a dictionary: `a` is a proper prefix of `b`, or smaller where they first differ. */
  ghost predicate Before(a: string, b: string) {
    || (|a| < |b| && a == b[..|a|])
    || exists k :: 0 <= k < |a| && k < |b| && a[..k] == b[..k] && a[k] < b[k]
  }

  lemma {:induction false} LessIsBefore(a: string, b: string)
    ensures Less(a, b) <==> Before(a, b)
  {
    if a != [] && b != [] {
      if a[0] == b[0] {
        LessIsBefore(a[1..], b[1..]);
        BeforeTail(a, b);
      } else {
        assert a[0] < b[0] ==> a[..0] == b[..0] && a[0] < b[0];
        assert forall k :: 0 < k <= |a| && k <= |b| ==> a[..k][0] != b[..k][0];
      }
    }
  }

  lemma BeforeTail(a: string, b: string)
    requires a != [] && b != [] && a[0] == b[0]
    ensures Before(a, b) <==> Before(a[1..], b[1..])
  {
    assert a == [a[0]] + a[1..] && b == [b[0]] + b[1..];
    if Before(a[1..], b[1..]) {
      if k :| 0 <= k < |a[1..]| && k < |b[1..]| && a[1..][..k] == b[1..][..k] && a[1..][k] < b[1..][k] {
        assert a[..k + 1] == [a[0]] + a[1..][..k] && b[..k + 1] == [b[0]] + b[1..][..k];
        assert a[k + 1] < b[k + 1];
      } else {
        assert b[..|a|] == [b[0]] + b[1..][..|a[1..]|];
      }
    }
    if Before(a, b) {
      if k :| 0 <= k < |a| && k < |b| && a[..k] == b[..k] && a[k] < b[k] {
        assert a[1..][..k - 1] == a[..k][1..] && b[1..][..k - 1] == b[..k][1..];
        assert a[1..][k - 1] < b[1..][k - 1];
      } else {
        assert b[1..][..|a[1..]|] == b[..|a|][1..];
      }
    }
  }

  lemma {:induction false} LessTotal(a: string, b: string)
    ensures Less(a, b) || a == b || Less(b, a)
    ensures !(Less(a, b) && Less(b, a)) && !Less(a, a)
  {
    if a != [] {
      LessTotal(a[1..], a[1..]);
    }
    if a != [] && b != [] && a[0] == b[0] {
      LessTotal(a[1..], b[1..]);
    }
  }

  lemma {:induction false} LessTransitive(a: string, b: string, c: string)
    requires Less(a, b) && Less(b, c)
    ensures Less(a, c)
  {
    if a != [] && a[0] == b[0] == c[0] {
      LessTransitive(a[1..], b[1..], c[1..]);
    }
  }

  /** What one scan for the least name above `last` finds. */
  function Best(names: seq<string>, last: string): Option<string> {
    if names == [] then None else
    var b := Best(names[..|names| - 1], last);
    var x := names[|names| - 1];
    if (b.None? || Less(x, b.value)) && Less(last, x) then Some(x) else b
  }

  ghost predicate IsLeastAbove(names: seq<string>, last: string, best: Option<string>) {
    match best
    case None => forall n :: n in names ==> !Less(last, n)
    case Some(b) => b in names && Less(last, b) && forall n :: n in names && Less(last, n) ==> n == b || Less(b, n)
  }

  lemma {:induction false} BestIsLeast(names: seq<string>, last: string)
    ensures IsLeastAbove(names, last, Best(names, last))
  {
    if names != [] {
      var before, x := names[..|names| - 1], names[|names| - 1];
      BestIsLeast(before, last);
      assert forall n :: n in names <==> n in before || n == x;
      var b := Best(before, last);
      if b.Some? {
        LessTotal(x, b.value);
        forall n | n in before && Less(last, n) && Less(x, b.value)
          ensures n == x || Less(x, n)
        {
          if n != b.value {
            LessTransitive(x, b.value, n);
          }
        }
      }
    }
  }

  /** An entry of a registry, or a printed row. */
  datatype Named<T> = Named(name: string, info: T)

  function Names<T>(entries: seq<Named<T>>): (r: seq<string>)
    ensures |r| == |entries|
  {
    seq(|entries|, i requires 0 <= i < |entries| => entries[i].name)
  }

  /** A muxer or demuxer, with its long name. */
  type Format = Named<string>

  /** The long name of the first entry called `name`. */
  function LongName(formats: seq<Format>, name: string): string {
    if formats == [] then ""
    else if formats[0].name == name then formats[0].info
    else LongName(formats[1..], name)
  }

  lemma {:induction false} LongNameIsFirst(formats: seq<Format>, k: nat)
    requires k < |formats| && forall i :: 0 <= i < k ==> formats[i].name != formats[k].name
    ensures LongName(formats, formats[k].name) == formats[k].info
  {
    if k > 0 {
      LongNameIsFirst(formats[1..], k - 1);
    }
  }

  datatype FormatInfo = FormatInfo(decode: bool, encode: bool, longName: string)

  type FormatRow = Named<FormatInfo>

  /** What `row` says about its name is what all entries of that name say together. */
  ghost predicate FormatRowCorrect(muxers: seq<Format>, demuxers: seq<Format>, row: FormatRow) {
    && (row.info.decode <==> row.name in Names(demuxers))
    && (row.info.encode <==> row.name in Names(muxers))
    && row.info.longName == LongName(muxers + demuxers, row.name)
  }

  lemma {:induction false} LongNameSnoc(formats: seq<Format>, f: Format, name: string)
    ensures LongName(formats + [f], name)
            == if name in Names(formats) then LongName(formats, name) else if f.name == name then f.info else ""
  {
    if formats != [] {
      LongNameSnoc(formats[1..], f, name);
      assert (formats + [f])[1..] == formats[1..] + [f];
      assert Names(formats) == [formats[0].name] + Names(formats[1..]);
    }
  }

  /** Scanning one more entry `f`: the least name may change, and its long name is still the first one. */
  lemma ScanNext(seen: seq<Format>, f: Format, last: string)
    ensures Names(seen + [f]) == Names(seen) + [f.name]
    ensures var b := Best(Names(seen), last);
            var better := (b.None? || Less(f.name, b.value)) && Less(last, f.name);
            && Best(Names(seen + [f]), last) == (if better then Some(f.name) else b)
            && (better ==> f.name !in Names(seen) && LongName(seen + [f], f.name) == f.info)
            && (b.Some? ==> b.value in Names(seen) && LongName(seen + [f], b.value) == LongName(seen, b.value))
  {
    var names := Names(seen);
    assert Names(seen + [f]) == names + [f.name];
    assert (names + [f.name])[..|names|] == names;
    BestIsLeast(names, last);
    LongNameSnoc(seen, f, f.name);
    var b := Best(names, last);
    if b.Some? {
      LongNameSnoc(seen, f, b.value);
      LessTotal(f.name, b.value);
    }
  }

  /** The first loop of a round of `show_formats`. */
  method ScanMuxers(muxers: seq<Format>, last: string) returns (name: Option<string>, longName: string, encode: bool)
    ensures name == Best(Names(muxers), last) && encode == name.Some?
    ensures name.Some? ==> longName == LongName(muxers, name.value)
  {
    encode := false;
    name := None;
    longName := "";
    for i := 0 to |muxers|
      invariant name == Best(Names(muxers[..i]), last) && encode == name.Some?
      invariant name.Some? ==> longName == LongName(muxers[..i], name.value)
    {
      ghost var seen := muxers[..i];
      var f := muxers[i];
      ScanNext(seen, f, last);
      assert muxers[..i + 1] == seen + [f];
      if (name.None? || Less(f.name, name.value)) && Less(last, f.name) {
        name := Some(f.name);
        longName := f.info;
        encode := true;
      }
    }
    assert muxers[..|muxers|] == muxers;
  }

  /** Scanning one more demuxer `f`: the least name may become its name, with a new row, and a row for its
      name says from then on that it can be demuxed. */
  lemma ScanDemuxer(muxers: seq<Format>, seen: seq<Format>, f: Format, last: string)
    ensures var b := Best(Names(muxers + seen), last);
            var better := (b.None? || Less(f.name, b.value)) && Less(last, f.name);
            && Best(Names(muxers + (seen + [f])), last) == (if better then Some(f.name) else b)
            && (better ==> FormatRowCorrect(muxers, seen + [f], Named(f.name, FormatInfo(true, false, f.info))))
  {
    ScanNext(muxers + seen, f, last);
    NamesOfBoth(muxers, seen, f);
  }

  lemma FormatRowGrows(muxers: seq<Format>, seen: seq<Format>, f: Format, last: string, row: FormatRow)
    requires FormatRowCorrect(muxers, seen, row) && Best(Names(muxers + seen), last) == Some(row.name)
    ensures FormatRowCorrect(muxers, seen + [f],
                             row.(info := row.info.(decode := row.info.decode || f.name == row.name)))
  {
    ScanNext(muxers + seen, f, last);
    NamesOfBoth(muxers, seen, f);
  }

  lemma NamesOfBoth(muxers: seq<Format>, seen: seq<Format>, f: Format)
    ensures muxers + (seen + [f]) == muxers + seen + [f]
    ensures Names(muxers + seen) == Names(muxers) + Names(seen) && Names(seen + [f]) == Names(seen) + [f.name]
  {
  }

  /** One round of `show_formats`: both registries are scanned for the least name above `last`. */
  method FormatRound(muxers: seq<Format>, demuxers: seq<Format>, last: string) returns (row: Option<FormatRow>)
    ensures row.None? <==> Best(Names(muxers + demuxers), last).None?
    ensures row.Some? ==> Best(Names(muxers + demuxers), last) == Some(row.value.name)
                          && FormatRowCorrect(muxers, demuxers, row.value)
  {
    var decode := false;
    var name, longName, encode := ScanMuxers(muxers, last);
    assert muxers == muxers + demuxers[..0];
    BestIsLeast(Names(muxers), last);
    for j := 0 to |demuxers|
      invariant name == Best(Names(muxers + demuxers[..j]), last)
      invariant name.Some? ==>
                FormatRowCorrect(muxers, demuxers[..j], Named(name.value, FormatInfo(decode, encode, longName)))
      invariant name.None? ==> !decode && !encode
    {
      var f := demuxers[j];
      ghost var seen := demuxers[..j];
      ScanDemuxer(muxers, seen, f, last);
      assert demuxers[..j + 1] == seen + [f];
      if (name.None? || Less(f.name, name.value)) && Less(last, f.name) {
        name := Some(f.name);
        longName := f.info;
        encode := false;
      } else if name.Some? {
        FormatRowGrows(muxers, seen, f, last, Named(name.value, FormatInfo(decode, encode, longName)));
      }
      if name.Some? && f.name == name.value {
        decode := true;
      }
    }
    assert demuxers[..|demuxers|] == demuxers;
    if name.None? {
      return None;
    }
    return Some(Named(name.value, FormatInfo(decode, encode, longName)));
  }

  /** A listing of the names above "000" and up to `last`. */
  ghost predicate ListedUpTo(names: seq<string>, printed: seq<string>, last: string) {
    && (forall i, j :: 0 <= i < j < |printed| ==> Less(printed[i], printed[j]))
    && (forall p :: p in printed ==> p == last || Less(p, last))
    && (forall n :: n in printed <==> n in names && Less("000", n) && !Less(last, n))
  }

  /** The whole listing: each distinct name above "000" once, in strictly increasing order. */
  ghost predicate Listed(names: seq<string>, printed: seq<string>) {
    && (forall i, j :: 0 <= i < j < |printed| ==> Before(printed[i], printed[j]))
    && (forall n :: n in printed <==> n in names && Before("000", n))
  }

  /** So every name that starts with a letter is listed, or with anything else above the digit 0. */
  lemma NamesAreListed(names: seq<string>, printed: seq<string>, name: string)
    requires Listed(names, printed) && name in names && name != "" && '0' < name[0]
    ensures name in printed
  {
    assert "000"[..0] == name[..0] && "000"[0] < name[0];
  }

  lemma ListedInOrder(names: seq<string>, printed: seq<string>)
    requires forall i, j :: 0 <= i < j < |printed| ==> Less(printed[i], printed[j])
    requires forall n :: n in printed <==> n in names && Less("000", n)
    ensures Listed(names, printed)
  {
    forall a, b | true
      ensures Less(a, b) <==> Before(a, b)
    {
      LessIsBefore(a, b);
    }
  }

  function Above(names: seq<string>, last: string): set<string> {
    set n | n in names && Less(last, n)
  }

  lemma PrintNext(names: seq<string>, printed: seq<string>, last: string, next: string)
    requires ListedUpTo(names, printed, last) && IsLeastAbove(names, last, Some(next))
    requires last == "000" || Less("000", last)
    ensures ListedUpTo(names, printed + [next], next)
    ensures Less("000", next)
    ensures Above(names, next) < Above(names, last)
  {
    if last != "000" {
      LessTransitive("000", last, next);
    }
    LessTotal(next, next);
    forall p | p in printed
      ensures Less(p, next)
    {
      if p != last {
        LessTransitive(p, last, next);
      }
    }
    forall n | Less(next, n)
      ensures Less(last, n)
    {
      LessTransitive(last, next, n);
    }
    forall n | n in names && Less("000", n) && !Less(next, n)
      ensures n in printed + [next]
    {
    }
    forall n | n in printed + [next]
      ensures n in names && Less("000", n) && !Less(next, n)
    {
      LessTotal(n, next);
    }
    assert next in Above(names, last) && next !in Above(names, next);
  }

  method ShowFormats(muxers: seq<Format>, demuxers: seq<Format>) returns (rows: seq<FormatRow>)
    ensures Listed(Names(muxers + demuxers), Names(rows))
    ensures forall i :: 0 <= i < |rows| ==> FormatRowCorrect(muxers, demuxers, rows[i])
  {
    rows := [];
    var lastName := "000";
    ghost var names := Names(muxers + demuxers);
    while true
      invariant ListedUpTo(names, Names(rows), lastName)
      invariant lastName == "000" || Less("000", lastName)
      invariant forall i :: 0 <= i < |rows| ==> FormatRowCorrect(muxers, demuxers, rows[i])
      decreases Above(names, lastName)
    {
      var row := FormatRound(muxers, demuxers, lastName);
      BestIsLeast(names, lastName);
      if row.None? {
        break;
      }
      PrintNext(names, Names(rows), lastName, row.value.name);
      assert Names(rows + [row.value]) == Names(rows) + [row.value.name];
      lastName := row.value.name;
      rows := rows + [row.value];
    }
    ListedInOrder(names, Names(rows));
  }

  datatype MediaType = Video | Audio | Subtitle | Other

  /** `capabilities` is the set of capability bits. */
  datatype CodecInfo = CodecInfo(longName: string, mediaType: MediaType, decode: bool, encode: bool,
                                 capabilities: set<nat>)

  /** A registered codec, or what a row says about all codecs of its name. */
  type Codec = Named<CodecInfo>

  /** A row for the name of `c` with these flags. */
  function Row(c: Codec, decode: bool, encode: bool, capabilities: set<nat>): Codec {
    Named(c.name, c.info.(decode := decode, encode := encode, capabilities := capabilities))
  }

  /** The row says exactly what all codecs of its name offer between them, and describes the first one. */
  ghost predicate CodecRowCorrect(codecs: seq<Codec>, row: Codec) {
    && (row.info.decode <==> exists c :: c in codecs && c.name == row.name && c.info.decode)
    && (row.info.encode <==> exists c :: c in codecs && c.name == row.name && c.info.encode)
    && (forall bit :: bit in row.info.capabilities <==>
                      exists c :: c in codecs && c.name == row.name && bit in c.info.capabilities)
    && (exists i :: 0 <= i < |codecs| && codecs[i].name == row.name && row.name !in Names(codecs[..i])
                    && row.info.longName == codecs[i].info.longName && row.info.mediaType == codecs[i].info.mediaType)
  }

  lemma CodecScanNext(codecs: seq<Codec>, i: nat, last: string)
    requires i < |codecs|
    ensures Names(codecs[..i + 1]) == Names(codecs[..i]) + [codecs[i].name]
    ensures var b, x := Best(Names(codecs[..i]), last), codecs[i].name;
            var better := (b.None? || Less(x, b.value)) && Less(last, x);
            && Best(Names(codecs[..i + 1]), last) == (if better then Some(x) else b)
            && (better ==> x !in Names(codecs[..i]))
  {
    var names := Names(codecs[..i]);
    assert Names(codecs[..i + 1]) == names + [codecs[i].name];
    assert (names + [codecs[i].name])[..|names|] == names;
    BestIsLeast(names, last);
    var b := Best(names, last);
    if b.Some? {
      LessTotal(codecs[i].name, b.value);
    }
  }

  lemma CodecSeen(seen: seq<Codec>, c: Codec)
    ensures Names(seen + [c]) == Names(seen) + [c.name]
    ensures forall x :: x in seen + [c] <==> x in seen || x == c
    ensures forall x :: x in seen ==> x.name in Names(seen)
  {
    forall x | x in seen
      ensures x.name in Names(seen)
    {
      var i :| 0 <= i < |seen| && seen[i] == x;
      assert Names(seen)[i] == x.name;
    }
  }

  /** A row for a name not seen before starts from the entry that brought it. */
  lemma CodecRowStarts(seen: seq<Codec>, c: Codec)
    requires c.name !in Names(seen)
    ensures CodecRowCorrect(seen + [c], Row(c, c.info.decode, c.info.encode, {} + c.info.capabilities))
  {
    CodecSeen(seen, c);
    assert {} + c.info.capabilities == c.info.capabilities;
    assert c in seen + [c];
    assert (seen + [c])[|seen|] == c && (seen + [c])[..|seen|] == seen;
  }

  function Merge(row: Codec, c: Codec): Codec {
    if c.name != row.name then row
    else Row(row, row.info.decode || c.info.decode, row.info.encode || c.info.encode,
             row.info.capabilities + c.info.capabilities)
  }

  lemma CodecRowGrows(seen: seq<Codec>, c: Codec, row: Codec)
    requires CodecRowCorrect(seen, row)
    ensures CodecRowCorrect(seen + [c], Merge(row, c))
  {
    CodecSeen(seen, c);
    assert c in seen + [c];
    var i :| 0 <= i < |seen| && seen[i].name == row.name && row.name !in Names(seen[..i])
             && row.info.longName == seen[i].info.longName && row.info.mediaType == seen[i].info.mediaType;
    assert (seen + [c])[i] == seen[i] && (seen + [c])[..i] == seen[..i];
  }

  method AddFlags(p: Codec, decode0: bool, encode0: bool, cap0: set<nat>)
    returns (decode: bool, encode: bool, cap: set<nat>)
    ensures decode == (decode0 || p.info.decode) && encode == (encode0 || p.info.encode)
            && cap == cap0 + p.info.capabilities
  {
    decode, encode, cap := decode0, encode0, cap0;
    if p.info.decode {
      decode := true;
    }
    if p.info.encode {
      encode := true;
    }
    cap := cap + p.info.capabilities;
  }

  /** One round of `show_codecs`. */
  method CodecRound(codecs: seq<Codec>, last: string) returns (row: Option<Codec>)
    ensures row.None? <==> Best(Names(codecs), last).None?
    ensures row.Some? ==> Best(Names(codecs), last) == Some(row.value.name) && CodecRowCorrect(codecs, row.value)
  {
    var decode, encode, cap := false, false, {};
    var p2: Option<Codec> := None;
    for i := 0 to |codecs|
      invariant Best(Names(codecs[..i]), last) == if p2.None? then None else Some(p2.value.name)
      invariant p2.Some? ==>
                  CodecRowCorrect(codecs[..i], Row(p2.value, decode, encode, cap))
    {
      var p := codecs[i];
      CodecScanNext(codecs, i, last);
      assert codecs[..i + 1] == codecs[..i] + [p];
      if (p2.None? || Less(p.name, p2.value.name)) && Less(last, p.name) {
        CodecRowStarts(codecs[..i], p);
        p2 := Some(p);
        decode, encode, cap := false, false, {};
      } else if p2.Some? {
        CodecRowGrows(codecs[..i], p, Row(p2.value, decode, encode, cap));
      }
      if p2.Some? && p.name == p2.value.name {
        decode, encode, cap := AddFlags(p, decode, encode, cap);
      }
    }
    assert codecs[..|codecs|] == codecs;
    if p2.None? {
      return None;
    }
    return Some(Row(p2.value, decode, encode, cap));
  }

  method ShowCodecs(codecs: seq<Codec>) returns (rows: seq<Codec>)
    ensures Listed(Names(codecs), Names(rows))
    ensures forall i :: 0 <= i < |rows| ==> CodecRowCorrect(codecs, rows[i])
  {
    rows := [];
    var lastName := "000";
    ghost var names := Names(codecs);
    while true
      invariant ListedUpTo(names, Names(rows), lastName)
      invariant lastName == "000" || Less("000", lastName)
      invariant forall i :: 0 <= i < |rows| ==> CodecRowCorrect(codecs, rows[i])
      decreases Above(names, lastName)
    {
      var row := CodecRound(codecs, lastName);
      BestIsLeast(names, lastName);
      if row.None? {
        break;
      }
      PrintNext(names, Names(rows), lastName, row.value.name);
      assert Names(rows + [row.value]) == Names(rows) + [row.value.name];
      lastName := row.value.name;
      rows := rows + [row.value];
    }
    ListedInOrder(names, Names(rows));
  }
}
