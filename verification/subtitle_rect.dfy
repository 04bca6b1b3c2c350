/** The whole of `blend_subrect` (amffmpeg/ffplay.c): clipping, the walk over the rows, and what every byte
    of the three planes holds in the end. */
module SubtitleRect {
  import opened Bytes
  import opened SubtitleBlend
  import opened Wrappers

  function Clip(a: int, low: int, high: int): (r: int)
    requires low <= high
    ensures low <= r <= high
  {
    if a < low then low else if a > high then high else a
  }

  /** Where row `n` starts in a plane whose rows are `wrap` bytes apart: `n * wrap`, as a sum. */
  function Row(n: nat, wrap: nat): nat {
    if n == 0 then 0 else Row(n - 1, wrap) + wrap
  }

  lemma {:induction false} RowIsProduct(n: nat, wrap: nat)
    ensures Row(n, wrap) == n * wrap
  {
    if n > 0 {
      RowIsProduct(n - 1, wrap);
    }
  }

  lemma {:induction false} RowMono(m: nat, n: nat, wrap: nat)
    requires m <= n
    ensures Row(m, wrap) <= Row(n, wrap)
  {
    if m < n {
      RowMono(m, n - 1, wrap);
    }
  }

  /** Row `n` of `rows` ends where the next one starts, and not after the last. */
  lemma RowInside(n: nat, rows: nat, wrap: nat)
    requires n < rows
    ensures Row(n + 1, wrap) == Row(n, wrap) + wrap <= Row(rows, wrap)
  {
    RowMono(n + 1, rows, wrap);
  }

  /** The row that position `i` of a plane lies in, `i / wrap`, and its column, `i % wrap`, by subtraction. */
  function RowOf(i: nat, wrap: nat): nat
    requires wrap > 0
  {
    if i < wrap then 0 else RowOf(i - wrap, wrap) + 1
  }

  function ColumnOf(i: nat, wrap: nat): (c: nat)
    requires wrap > 0
    ensures c < wrap
  {
    if i < wrap then i else ColumnOf(i - wrap, wrap)
  }

  lemma {:induction false} RowAndColumn(i: nat, wrap: nat)
    requires wrap > 0
    ensures Row(RowOf(i, wrap), wrap) + ColumnOf(i, wrap) == i
  {
    if i >= wrap {
      RowAndColumn(i - wrap, wrap);
    }
  }

  lemma RowAndColumnAreQuotientAndRemainder(i: nat, wrap: nat)
    requires wrap > 0
    ensures RowOf(i, wrap) == i / wrap && ColumnOf(i, wrap) == i % wrap
  {
    RowAndColumn(i, wrap);
    RowIsProduct(RowOf(i, wrap), wrap);
    QuotientUnique(i, wrap, RowOf(i, wrap));
  }

  lemma Segment(i: nat, wrap: nat, row: nat, x: nat, n: nat)
    requires wrap > 0 && x + n <= wrap
    ensures Row(row, wrap) + x <= i < Row(row, wrap) + x + n
            <==> RowOf(i, wrap) == row && x <= ColumnOf(i, wrap) < x + n
    ensures RowOf(i, wrap) == row ==> ColumnOf(i, wrap) == i - Row(row, wrap)
  {
    var q := RowOf(i, wrap);
    RowAndColumn(i, wrap);
    if q < row {
      RowInside(q, row, wrap);
    } else if q > row {
      RowInside(row, q, wrap);
    }
  }

  /** The picture before blending, and the clipped rectangle. */
  datatype Scene = Scene(img: Bitmap, g: Geometry, dsty: nat, dsth: nat, lum: seq<byte>, cb: seq<byte>, cr: seq<byte>) {
    predicate Valid() {
      && |img.palette| == 256 && g.Valid() && dsth > 0
      && Row(dsty + dsth, g.wrap) <= |lum| && Row(dsth, g.wrap3) <= |img.pixels|
      && Row((dsty + dsth + 1) / 2, g.cbWrap) <= |cb| && Row((dsty + dsth + 1) / 2, g.crWrap) <= |cr|
    }
  }

  lemma PixelInside(s: Scene, r: nat, c: nat)
    requires s.Valid() && r < s.dsth && c < s.g.wrap3
    ensures Row(r, s.g.wrap3) + c < Row(r, s.g.wrap3) + s.g.wrap3 <= |s.img.pixels|
  {
    RowInside(r, s.dsth, s.g.wrap3);
  }

  /** Byte `i` of the luma plane when `rows` rows of the rectangle are done: inside them, it is blended once
      with the palette entry of its own pixel. */
  function LumaSpec(s: Scene, rows: nat, i: nat): byte
    requires s.Valid() && rows <= s.dsth && i < |s.lum|
  {
    var r, c := RowOf(i, s.g.wrap) - s.dsty, ColumnOf(i, s.g.wrap) - s.g.dstx;
    if 0 <= r < rows && 0 <= c < s.g.dstw then
      PixelInside(s, r, c);
      Luma(s.img.At(Row(r, s.g.wrap3) + c), s.lum[i])
    else s.lum[i]
  }

  ghost predicate LumaDone(s: Scene, rows: nat, now: seq<byte>)
    requires s.Valid() && rows <= s.dsth
  {
    |now| == |s.lum| && forall i :: 0 <= i < |now| ==> now[i] == LumaSpec(s, rows, i)
  }

  /** Where row `r` of the rectangle starts in the luma plane and in the bitmap. */
  ghost predicate RowAt(s: Scene, r: nat, l: nat, p: nat) {
    l == Row(s.dsty + r, s.g.wrap) + s.g.dstx && p == Row(r, s.g.wrap3)
  }

  /** One more row changes the specified value of its own pixels only. */
  lemma LumaSpecNext(s: Scene, r: nat, i: nat, l: nat, p: nat)
    requires s.Valid() && r < s.dsth && i < |s.lum| && RowAt(s, r, l, p)
    ensures p + s.g.dstw <= |s.img.pixels|
    ensures if l <= i < l + s.g.dstw then
              LumaSpec(s, r, i) == s.lum[i] && LumaSpec(s, r + 1, i) == Luma(s.img.At(p + i - l), s.lum[i])
            else LumaSpec(s, r + 1, i) == LumaSpec(s, r, i)
  {
    PixelInside(s, r, 0);
    Segment(i, s.g.wrap, s.dsty + r, s.g.dstx, s.g.dstw);
  }

  lemma NextRowAt(s: Scene, r: nat, l: nat, p: nat)
    requires RowAt(s, r, l, p)
    ensures RowAt(s, r + 1, l + s.g.wrap, p + s.g.wrap3)
  {
  }

  lemma LumaPairAt(s: Scene, r: nat, was: seq<byte>, l: nat, p: nat, i: nat)
    requires s.Valid() && r + 2 <= s.dsth && RowAt(s, r, l, p) && |was| == |s.lum| && i < |was|
             && was[i] == LumaSpec(s, r, i)
    requires l + s.g.wrap + s.g.dstw <= |was| && p + s.g.wrap3 + s.g.dstw <= |s.img.pixels|
    ensures RowsAfter(was, s.img, l, p, l + s.g.wrap, p + s.g.wrap3, s.g.dstw)[i] == LumaSpec(s, r + 2, i)
  {
    RowsAfterAt(was, s.img, l, p, l + s.g.wrap, p + s.g.wrap3, s.g.dstw, i);
    LumaSpecNext(s, r, i, l, p);
    NextRowAt(s, r, l, p);
    LumaSpecNext(s, r + 1, i, l + s.g.wrap, p + s.g.wrap3);
  }

  lemma LumaPairDone(s: Scene, r: nat, before: seq<byte>, after: seq<byte>, l: nat, p: nat)
    requires s.Valid() && r + 2 <= s.dsth && LumaDone(s, r, before) && RowAt(s, r, l, p)
    requires l + s.g.wrap + s.g.dstw <= |before| && p + s.g.wrap3 + s.g.dstw <= |s.img.pixels|
    requires after == RowsAfter(before, s.img, l, p, l + s.g.wrap, p + s.g.wrap3, s.g.dstw)
    ensures LumaDone(s, r + 2, after)
  {
    forall i | 0 <= i < |after|
      ensures after[i] == LumaSpec(s, r + 2, i)
    {
      LumaPairAt(s, r, before, l, p, i);
    }
  }

  lemma LumaRowDone(s: Scene, r: nat, before: seq<byte>, after: seq<byte>, l: nat, p: nat)
    requires s.Valid() && r < s.dsth && LumaDone(s, r, before) && RowAt(s, r, l, p)
    requires l + s.g.dstw <= |before| && p + s.g.dstw <= |s.img.pixels|
    requires after == RowAfter(before, s.img, l, p, s.g.dstw)
    ensures LumaDone(s, r + 1, after)
  {
    forall i | 0 <= i < |after|
      ensures after[i] == LumaSpec(s, r + 1, i)
    {
      RowAfterAt(before, s.img, l, p, s.g.dstw, i);
      LumaSpecNext(s, r, i, l, p);
    }
  }

  function Stride(s: Scene, ch: Channel): nat {
    if ch.U? then s.g.cbWrap else s.g.crWrap
  }

  function Plane(s: Scene, ch: Channel): seq<byte> {
    if ch.U? then s.cb else s.cr
  }

  /** How far the chroma pointers fall behind: an odd first row with a column left over leaves them one short. */
  function Shift(s: Scene): nat
    requires s.Valid()
  {
    if s.dsty % 2 == 1 then s.g.Leftover() else 0
  }

  /** What cell `k` of cell row `n` takes from the rectangle when `rows` rows of it are done. Cell row `n`
      covers the picture rows `2 * n` and `2 * n + 1`: of the rectangle two each, and at last perhaps one. */
  function CellMix(s: Scene, ch: Channel, rows: nat, n: nat, k: int): (mix: Option<Mix>)
    requires s.Valid() && rows <= s.dsth
    ensures mix.Some? ==> mix.value.Valid()
  {
    if 0 <= k < s.g.Cells() && s.dsty <= 2 * n < s.dsty + rows then
      var r := 2 * n - s.dsty;
      PixelInside(s, r, 0);
      if r + 1 < rows then
        PairRowsInside(s, r);
        Some(PairMix(s.img, Row(r, s.g.wrap3), s.g.wrap3, s.g.dstw, s.g.Odd(), k, ch))
      else
        Some(SingleMix(s.img, Row(r, s.g.wrap3), s.g.dstw, s.g.Odd(), k, ch, true))
    else None
  }

  /** What it takes from a first row that is odd: that one shares its cells with the row of the picture above. */
  function FirstMix(s: Scene, ch: Channel, rows: nat, n: nat, k: int): (mix: Option<Mix>)
    requires s.Valid()
    ensures mix.Some? ==> mix.value.Valid()
  {
    if 0 <= k < s.g.Cells() && 2 * n + 1 == s.dsty && rows > 0 then
      PixelInside(s, 0, 0);
      Some(SingleMix(s.img, 0, s.g.dstw, s.g.Odd(), k, ch, false))
    else None
  }

  function Blended(mix: Option<Mix>, was: byte): byte
    requires mix.Some? ==> mix.value.Valid()
  {
    if mix.Some? then mix.value.Over(was) else was
  }

  /** The two mixes for byte `i` of a chroma plane. All cells but those of an odd first row lie `Shift` bytes
      before their place. */
  function FirstAt(s: Scene, ch: Channel, rows: nat, i: nat): (mix: Option<Mix>)
    requires s.Valid()
    ensures mix.Some? ==> mix.value.Valid()
  {
    FirstMix(s, ch, rows, RowOf(i, Stride(s, ch)), ColumnOf(i, Stride(s, ch)) - s.g.Skip2())
  }

  function CellAt(s: Scene, ch: Channel, rows: nat, i: nat): (mix: Option<Mix>)
    requires s.Valid() && rows <= s.dsth
    ensures mix.Some? ==> mix.value.Valid()
  {
    var j := i + Shift(s);
    CellMix(s, ch, rows, RowOf(j, Stride(s, ch)), ColumnOf(j, Stride(s, ch)) - s.g.Skip2())
  }

  /** Byte `i` of a chroma plane when `rows` rows of the rectangle are done. */
  function CellSpec(s: Scene, ch: Channel, rows: nat, i: nat): byte
    requires s.Valid() && rows <= s.dsth && i < |Plane(s, ch)|
  {
    Blended(CellAt(s, ch, rows, i), Blended(FirstAt(s, ch, rows, i), Plane(s, ch)[i]))
  }

  lemma PairRowsInside(s: Scene, r: nat)
    requires s.Valid() && r + 1 < s.dsth
    ensures Row(r, s.g.wrap3) + s.g.wrap3 + s.g.dstw <= |s.img.pixels|
  {
    PixelInside(s, r + 1, 0);
  }

  ghost predicate CellsDone(s: Scene, ch: Channel, rows: nat, now: seq<byte>)
    requires s.Valid() && rows <= s.dsth
  {
    |now| == |Plane(s, ch)| && forall i :: 0 <= i < |now| ==> now[i] == CellSpec(s, ch, rows, i)
  }

  /** Where the cells of cell row `n` that the rectangle touches start, when the pointers are `shift` behind. */
  ghost predicate CellRowAt(s: Scene, ch: Channel, n: nat, shift: nat, c: nat) {
    c + shift == Row(n, Stride(s, ch)) + s.g.Skip2()
  }

  /** Two more rows give cell row `n` its mix, and no other a new one. */
  lemma MixPairNext(s: Scene, ch: Channel, r: nat, n: nat, m: nat, k: int, p: nat)
    requires s.Valid() && r + 2 <= s.dsth && s.dsty + r == 2 * n && p == Row(r, s.g.wrap3)
    ensures p + s.g.wrap3 + s.g.dstw <= |s.img.pixels|
    ensures if m == n && 0 <= k < s.g.Cells() then
              CellMix(s, ch, r, m, k) == None
              && CellMix(s, ch, r + 2, m, k) == Some(PairMix(s.img, p, s.g.wrap3, s.g.dstw, s.g.Odd(), k, ch))
            else CellMix(s, ch, r + 2, m, k) == CellMix(s, ch, r, m, k)
  {
    PairRowsInside(s, r);
  }

  lemma MixLastNext(s: Scene, ch: Channel, r: nat, n: nat, m: nat, k: int, p: nat)
    requires s.Valid() && r + 1 == s.dsth && s.dsty + r == 2 * n && p == Row(r, s.g.wrap3)
    ensures p + s.g.dstw <= |s.img.pixels|
    ensures if m == n && 0 <= k < s.g.Cells() then
              CellMix(s, ch, r, m, k) == None
              && CellMix(s, ch, r + 1, m, k) == Some(SingleMix(s.img, p, s.g.dstw, s.g.Odd(), k, ch, true))
            else CellMix(s, ch, r + 1, m, k) == CellMix(s, ch, r, m, k)
  {
    PixelInside(s, r, 0);
  }

  lemma FirstKept(s: Scene, ch: Channel, r: nat, r': nat, i: nat, n: nat)
    requires s.Valid() && r <= r' && s.dsty + r == 2 * n
    ensures FirstAt(s, ch, r', i) == FirstAt(s, ch, r, i)
  {
  }

  /** Which positions are those of the cells of cell row `n`. */
  lemma CellHome(s: Scene, ch: Channel, n: nat, c: nat, i: nat) returns (m: nat, k: int)
    requires s.Valid() && CellRowAt(s, ch, n, Shift(s), c)
    ensures m == RowOf(i + Shift(s), Stride(s, ch)) && k == ColumnOf(i + Shift(s), Stride(s, ch)) - s.g.Skip2()
    ensures c <= i < c + s.g.Cells() <==> m == n && 0 <= k < s.g.Cells()
    ensures m == n ==> k == i - c
  {
    var j, stride := i + Shift(s), Stride(s, ch);
    Segment(j, stride, n, s.g.Skip2(), s.g.Cells());
    m, k := RowOf(j, stride), ColumnOf(j, stride) - s.g.Skip2();
  }

  lemma AtHome(s: Scene, ch: Channel, rows: nat, i: nat, m: nat, k: int)
    requires s.Valid() && rows <= s.dsth
    requires m == RowOf(i + Shift(s), Stride(s, ch)) && k == ColumnOf(i + Shift(s), Stride(s, ch)) - s.g.Skip2()
    ensures CellAt(s, ch, rows, i) == CellMix(s, ch, rows, m, k)
  {
  }

  lemma CellPairNext(s: Scene, ch: Channel, r: nat, i: nat, n: nat, c: nat, p: nat)
    requires s.Valid() && r + 2 <= s.dsth && s.dsty + r == 2 * n
    requires CellRowAt(s, ch, n, Shift(s), c) && p == Row(r, s.g.wrap3)
    ensures p + s.g.wrap3 + s.g.dstw <= |s.img.pixels|
    ensures if c <= i < c + s.g.Cells() then
              CellAt(s, ch, r, i) == None
              && CellAt(s, ch, r + 2, i) == Some(PairMix(s.img, p, s.g.wrap3, s.g.dstw, s.g.Odd(), i - c, ch))
            else CellAt(s, ch, r + 2, i) == CellAt(s, ch, r, i)
  {
    var m, k := CellHome(s, ch, n, c, i);
    AtHome(s, ch, r, i, m, k);
    AtHome(s, ch, r + 2, i, m, k);
    MixPairNext(s, ch, r, n, m, k, p);
  }

  lemma CellLastNext(s: Scene, ch: Channel, r: nat, i: nat, n: nat, c: nat, p: nat)
    requires s.Valid() && r + 1 == s.dsth && s.dsty + r == 2 * n
    requires CellRowAt(s, ch, n, Shift(s), c) && p == Row(r, s.g.wrap3)
    ensures p + s.g.dstw <= |s.img.pixels|
    ensures if c <= i < c + s.g.Cells() then
              CellAt(s, ch, r, i) == None
              && CellAt(s, ch, r + 1, i) == Some(SingleMix(s.img, p, s.g.dstw, s.g.Odd(), i - c, ch, true))
            else CellAt(s, ch, r + 1, i) == CellAt(s, ch, r, i)
  {
    var m, k := CellHome(s, ch, n, c, i);
    AtHome(s, ch, r, i, m, k);
    AtHome(s, ch, r + 1, i, m, k);
    MixLastNext(s, ch, r, n, m, k, p);
  }

  lemma CellFirstNext(s: Scene, ch: Channel, i: nat, n: nat, c: nat)
    requires s.Valid() && s.dsty == 2 * n + 1 && CellRowAt(s, ch, n, 0, c)
    ensures s.g.dstw <= |s.img.pixels|
    ensures CellAt(s, ch, 0, i) == None && CellAt(s, ch, 1, i) == None && FirstAt(s, ch, 0, i) == None
    ensures FirstAt(s, ch, 1, i)
            == if c <= i < c + s.g.Cells() then Some(SingleMix(s.img, 0, s.g.dstw, s.g.Odd(), i - c, ch, false))
              else None
  {
    PixelInside(s, 0, 0);
    Segment(i, Stride(s, ch), n, s.g.Skip2(), s.g.Cells());
  }

  lemma CellPairAt(s: Scene, ch: Channel, r: nat, was: seq<byte>, n: nat, c: nat, p: nat, i: nat)
    requires s.Valid() && r + 2 <= s.dsth && |was| == |Plane(s, ch)| && i < |was| && was[i] == CellSpec(s, ch, r, i)
    requires s.dsty + r == 2 * n && CellRowAt(s, ch, n, Shift(s), c) && p == Row(r, s.g.wrap3)
    requires c + s.g.Cells() <= |was| && p + s.g.wrap3 + s.g.dstw <= |s.img.pixels|
    ensures CellsAfter(was, s.img, c, p, s.g, s.g.Cells(), ch)[i] == CellSpec(s, ch, r + 2, i)
  {
    CellsAfterAt(was, s.img, c, p, s.g, s.g.Cells(), ch, i);
    CellPairNext(s, ch, r, i, n, c, p);
    FirstKept(s, ch, r, r + 2, i, n);
  }

  lemma CellPairDone(s: Scene, ch: Channel, r: nat, before: seq<byte>, after: seq<byte>, n: nat, c: nat, p: nat)
    requires s.Valid() && r + 2 <= s.dsth && CellsDone(s, ch, r, before)
    requires s.dsty + r == 2 * n && CellRowAt(s, ch, n, Shift(s), c) && p == Row(r, s.g.wrap3)
    requires c + s.g.Cells() <= |before| && p + s.g.wrap3 + s.g.dstw <= |s.img.pixels|
    requires after == CellsAfter(before, s.img, c, p, s.g, s.g.Cells(), ch)
    ensures CellsDone(s, ch, r + 2, after)
  {
    forall i | 0 <= i < |after|
      ensures after[i] == CellSpec(s, ch, r + 2, i)
    {
      CellPairAt(s, ch, r, before, n, c, p, i);
    }
  }

  lemma CellLastAt(s: Scene, ch: Channel, r: nat, was: seq<byte>, n: nat, c: nat, p: nat, i: nat)
    requires s.Valid() && r + 1 == s.dsth && |was| == |Plane(s, ch)| && i < |was| && was[i] == CellSpec(s, ch, r, i)
    requires s.dsty + r == 2 * n && CellRowAt(s, ch, n, Shift(s), c) && p == Row(r, s.g.wrap3)
    requires c + s.g.Cells() <= |was| && p + s.g.dstw <= |s.img.pixels|
    ensures SingleCellsAfter(was, s.img, c, p, s.g, s.g.Cells(), ch, true)[i] == CellSpec(s, ch, r + 1, i)
  {
    SingleCellsAfterAt(was, s.img, c, p, s.g, s.g.Cells(), ch, true, i);
    CellLastNext(s, ch, r, i, n, c, p);
    FirstKept(s, ch, r, r + 1, i, n);
  }

  lemma CellLastDone(s: Scene, ch: Channel, r: nat, before: seq<byte>, after: seq<byte>, n: nat, c: nat, p: nat)
    requires s.Valid() && r + 1 == s.dsth && CellsDone(s, ch, r, before)
    requires s.dsty + r == 2 * n && CellRowAt(s, ch, n, Shift(s), c) && p == Row(r, s.g.wrap3)
    requires c + s.g.Cells() <= |before| && p + s.g.dstw <= |s.img.pixels|
    requires after == SingleCellsAfter(before, s.img, c, p, s.g, s.g.Cells(), ch, true)
    ensures CellsDone(s, ch, r + 1, after)
  {
    forall i | 0 <= i < |after|
      ensures after[i] == CellSpec(s, ch, r + 1, i)
    {
      CellLastAt(s, ch, r, before, n, c, p, i);
    }
  }

  lemma CellFirstDone(s: Scene, ch: Channel, before: seq<byte>, after: seq<byte>, n: nat, c: nat, p: nat)
    requires s.Valid() && CellsDone(s, ch, 0, before) && s.dsty == 2 * n + 1 && CellRowAt(s, ch, n, 0, c) && p == 0
    requires c + s.g.Cells() <= |before| && p + s.g.dstw <= |s.img.pixels|
    requires after == SingleCellsAfter(before, s.img, c, p, s.g, s.g.Cells(), ch, false)
    ensures CellsDone(s, ch, 1, after)
  {
    forall i | 0 <= i < |after|
      ensures after[i] == CellSpec(s, ch, 1, i)
    {
      SingleCellsAfterAt(before, s.img, c, p, s.g, s.g.Cells(), ch, false, i);
      CellFirstNext(s, ch, i, n, c);
    }
  }

  /** The pointers at row `r` of the rectangle, the chroma pointers `shift` cells behind the start of their row. */
  ghost predicate PointersAt(s: Scene, r: nat, shift: nat, o: Origin) {
    && o.lum == Row(s.dsty + r, s.g.wrap) && o.p == Row(r, s.g.wrap3)
    && o.cb + shift == Row((s.dsty + r) / 2, s.g.cbWrap) && o.cr + shift == Row((s.dsty + r) / 2, s.g.crWrap)
  }

  /** Row `r` of the rectangle lies inside all the planes. */
  lemma LumaFits(s: Scene, r: nat, shift: nat, o: Origin)
    requires s.Valid() && r < s.dsth && PointersAt(s, r, shift, o)
    ensures o.lum + s.g.wrap <= |s.lum| && o.p + s.g.wrap3 <= |s.img.pixels|
    ensures RowAt(s, r, o.lum + s.g.dstx, o.p)
  {
    RowInside(s.dsty + r, s.dsty + s.dsth, s.g.wrap);
    RowInside(r, s.dsth, s.g.wrap3);
  }

  lemma CellsFit(s: Scene, r: nat, shift: nat, o: Origin)
    requires s.Valid() && r < s.dsth && PointersAt(s, r, shift, o)
    ensures o.cb + s.g.cbWrap <= |s.cb| && o.cr + s.g.crWrap <= |s.cr|
  {
    var n, rows := (s.dsty + r) / 2, (s.dsty + s.dsth + 1) / 2;
    RowInside(n, rows, s.g.cbWrap);
    RowInside(n, rows, s.g.crWrap);
  }

  lemma PairFits(s: Scene, r: nat, shift: nat, o: Origin)
    requires s.Valid() && r + 2 <= s.dsth && PointersAt(s, r, shift, o)
    ensures o.lum + 2 * s.g.wrap <= |s.lum| && o.p + 2 * s.g.wrap3 <= |s.img.pixels|
    ensures RowAt(s, r, o.lum + s.g.dstx, o.p)
  {
    RowInside(s.dsty + r + 1, s.dsty + s.dsth, s.g.wrap);
    RowInside(r + 1, s.dsth, s.g.wrap3);
  }

  lemma PairPointers(s: Scene, r: nat, shift: nat, o: Origin, next: Origin)
    requires s.Valid() && PointersAt(s, r, shift, o) && (s.dsty + r) % 2 == 0
    requires next == Origin(o.lum + 2 * s.g.wrap, o.cb + s.g.cbWrap, o.cr + s.g.crWrap, o.p + 2 * s.g.wrap3)
    ensures PointersAt(s, r + 2, shift, next)
  {
  }

  /** Both chroma planes hold what they should. */
  ghost predicate ChromaDone(s: Scene, rows: nat, cb: seq<byte>, cr: seq<byte>)
    requires s.Valid() && rows <= s.dsth
  {
    CellsDone(s, U, rows, cb) && CellsDone(s, V, rows, cr)
  }

  lemma LumaPair(s: Scene, r: nat, job: PairJob)
    requires s.Valid() && r + 2 <= s.dsth && RowAt(s, r, job.o.lum + s.g.dstx, job.o.p)
    requires job.Valid() && job.img == s.img && job.g == s.g && LumaDone(s, r, job.lum)
    ensures LumaDone(s, r + 2, job.Lum(s.g.dstw))
  {
    LumaPairDone(s, r, job.lum, job.Lum(s.g.dstw), job.o.lum + s.g.dstx, job.o.p);
  }

  /** The chroma pointers `shift` before the start of cell row `n`, the bitmap pointer at row `r`. */
  ghost predicate CellsAt(s: Scene, r: nat, n: nat, shift: nat, o: Origin) {
    CellRowAt(s, U, n, shift, o.cb + s.g.Skip2()) && CellRowAt(s, V, n, shift, o.cr + s.g.Skip2())
      && o.p == Row(r, s.g.wrap3)
  }

  lemma ChromaPair(s: Scene, r: nat, n: nat, job: PairJob, cb: seq<byte>, cr: seq<byte>)
    requires s.Valid() && r + 2 <= s.dsth && CellsAt(s, r, n, Shift(s), job.o) && s.dsty + r == 2 * n
    requires job.Valid() && job.img == s.img && job.g == s.g && ChromaDone(s, r, job.cb, job.cr)
    requires cb == job.Cb(s.g.Cells()) && cr == job.Cr(s.g.Cells())
    ensures ChromaDone(s, r + 2, cb, cr)
  {
    CellPairDone(s, U, r, job.cb, cb, n, job.o.cb + s.g.Skip2(), job.o.p);
    CellPairDone(s, V, r, job.cr, cr, n, job.o.cr + s.g.Skip2(), job.o.p);
  }

  lemma LumaRow(s: Scene, r: nat, job: RowJob)
    requires s.Valid() && r < s.dsth && RowAt(s, r, job.o.lum + s.g.dstx, job.o.p)
    requires job.Valid() && job.img == s.img && job.g == s.g && LumaDone(s, r, job.lum)
    ensures LumaDone(s, r + 1, job.Lum(s.g.dstw))
  {
    LumaRowDone(s, r, job.lum, job.Lum(s.g.dstw), job.o.lum + s.g.dstx, job.o.p);
  }

  lemma ChromaLast(s: Scene, r: nat, n: nat, job: RowJob, cb: seq<byte>, cr: seq<byte>)
    requires s.Valid() && r + 1 == s.dsth && CellsAt(s, r, n, Shift(s), job.o) && s.dsty + r == 2 * n
    requires job.Valid() && job.img == s.img && job.g == s.g && job.last && ChromaDone(s, r, job.cb, job.cr)
    requires cb == job.Cb(s.g.Cells()) && cr == job.Cr(s.g.Cells())
    ensures ChromaDone(s, r + 1, cb, cr)
  {
    CellLastDone(s, U, r, job.cb, cb, n, job.o.cb + s.g.Skip2(), job.o.p);
    CellLastDone(s, V, r, job.cr, cr, n, job.o.cr + s.g.Skip2(), job.o.p);
  }

  lemma ChromaFirst(s: Scene, n: nat, job: RowJob, cb: seq<byte>, cr: seq<byte>)
    requires s.Valid() && s.dsty == 2 * n + 1 && CellsAt(s, 0, n, 0, job.o)
    requires job.Valid() && job.img == s.img && job.g == s.g && !job.last && ChromaDone(s, 0, job.cb, job.cr)
    requires cb == job.Cb(s.g.Cells()) && cr == job.Cr(s.g.Cells())
    ensures ChromaDone(s, 1, cb, cr)
  {
    CellFirstDone(s, U, job.cb, cb, n, job.o.cb + s.g.Skip2(), job.o.p);
    CellFirstDone(s, V, job.cr, cr, n, job.o.cr + s.g.Skip2(), job.o.p);
  }

  /** The branch for an odd first row, seen from the whole rectangle. */
  method FirstRow(lum: array<byte>, cb: array<byte>, cr: array<byte>, img: Bitmap, g: Geometry, o: Origin,
                  ghost s: Scene)
    returns (next: Origin)
    requires lum != cb && lum != cr && cb != cr && s.Valid() && s.img == img && s.g == g && s.dsty % 2 == 1
    requires PointersAt(s, 0, 0, o) && LumaDone(s, 0, lum[..]) && ChromaDone(s, 0, cb[..], cr[..])
    modifies lum, cb, cr
    ensures LumaDone(s, 1, lum[..]) && ChromaDone(s, 1, cb[..], cr[..])
    ensures PointersAt(s, 1, Shift(s), next)
  {
    ghost var job := RowJob(img, g, o, false, lum[..], cb[..], cr[..]);
    LumaFits(s, 0, 0, o);
    CellsFit(s, 0, 0, o);
    LumaRow(s, 0, job);
    ChromaFirst(s, s.dsty / 2, job, job.Cb(g.Cells()), job.Cr(g.Cells()));
    var lumP, cbP, crP, p := BlendFirstRow(lum, cb, cr, img, g, o, job);
    FirstPointers(s, o, lumP, cbP, crP, p);
    next := Origin(lumP, cbP, crP, p);
  }

  lemma FirstPointers(s: Scene, o: Origin, lumP: int, cbP: int, crP: int, p: int)
    requires s.Valid() && s.dsty % 2 == 1 && PointersAt(s, 0, 0, o)
    requires lumP == o.lum + s.g.wrap && p == o.p + s.g.wrap3
    requires cbP == o.cb + s.g.cbWrap - s.g.Leftover() && crP == o.cr + s.g.crWrap - s.g.Leftover()
    ensures 0 <= lumP && 0 <= cbP && 0 <= crP && 0 <= p && PointersAt(s, 1, Shift(s), Origin(lumP, cbP, crP, p))
  {
  }

  method RowPair(lum: array<byte>, cb: array<byte>, cr: array<byte>, img: Bitmap, g: Geometry, o: Origin,
                 ghost s: Scene, ghost r: nat)
    returns (next: Origin)
    requires lum != cb && lum != cr && cb != cr && s.Valid() && s.img == img && s.g == g && r + 2 <= s.dsth
             && (s.dsty + r) % 2 == 0
    requires lum.Length == |s.lum| && cb.Length == |s.cb| && cr.Length == |s.cr|
    requires PointersAt(s, r, Shift(s), o) && LumaDone(s, r, lum[..]) && ChromaDone(s, r, cb[..], cr[..])
    modifies lum, cb, cr
    ensures LumaDone(s, r + 2, lum[..]) && ChromaDone(s, r + 2, cb[..], cr[..])
    ensures PointersAt(s, r + 2, Shift(s), next)
  {
    ghost var job := PairJob(img, g, o, lum[..], cb[..], cr[..]);
    PairFits(s, r, Shift(s), o);
    CellsFit(s, r, Shift(s), o);
    LumaPair(s, r, job);
    ChromaPair(s, r, (s.dsty + r) / 2, job, job.Cb(g.Cells()), job.Cr(g.Cells()));
    next := BlendRowPair(lum, cb, cr, img, g, o, job);
    PairPointers(s, r, Shift(s), o, next);
  }

  method LastRow(lum: array<byte>, cb: array<byte>, cr: array<byte>, img: Bitmap, g: Geometry, o: Origin,
                 ghost s: Scene, ghost r: nat)
    requires lum != cb && lum != cr && cb != cr && s.Valid() && s.img == img && s.g == g && r + 1 == s.dsth
             && (s.dsty + r) % 2 == 0
    requires lum.Length == |s.lum| && cb.Length == |s.cb| && cr.Length == |s.cr|
    requires PointersAt(s, r, Shift(s), o) && LumaDone(s, r, lum[..]) && ChromaDone(s, r, cb[..], cr[..])
    modifies lum, cb, cr
    ensures LumaDone(s, s.dsth, lum[..]) && ChromaDone(s, s.dsth, cb[..], cr[..])
  {
    ghost var job := RowJob(img, g, o, true, lum[..], cb[..], cr[..]);
    LumaFits(s, r, Shift(s), o);
    CellsFit(s, r, Shift(s), o);
    LumaRow(s, r, job);
    ChromaLast(s, r, (s.dsty + r) / 2, job, job.Cb(g.Cells()), job.Cr(g.Cells()));
    var _, _, _, _ := WalkRow(lum, cb, cr, img, g, o, true, job);
  }

  /** Before the first row, nothing has changed. */
  lemma NothingDone(s: Scene)
    requires s.Valid()
    ensures LumaDone(s, 0, s.lum) && ChromaDone(s, 0, s.cb, s.cr)
  {
  }

  lemma Aligned(s: Scene, r: nat, o: Origin)
    requires s.Valid() && PointersAt(s, r, Shift(s), o)
    ensures PointersAt(s, r, 0, o) <==> s.dsty % 2 == 0 || s.g.Leftover() == 0
  {
  }

  lemma StartPointers(s: Scene)
    ensures PointersAt(s, 0, 0, Origin(s.dsty * s.g.wrap, s.dsty / 2 * s.g.cbWrap, s.dsty / 2 * s.g.crWrap, 0))
  {
    RowIsProduct(s.dsty, s.g.wrap);
    RowIsProduct(s.dsty / 2, s.g.cbWrap);
    RowIsProduct(s.dsty / 2, s.g.crWrap);
  }

  method Start(g: Geometry, dsty: nat, ghost s: Scene) returns (o: Origin)
    requires s.g == g && s.dsty == dsty
    ensures PointersAt(s, 0, 0, o)
  {
    StartPointers(s);
    o := Origin(dsty * g.wrap, dsty / 2 * g.cbWrap, dsty / 2 * g.crWrap, 0);
  }

  /** The pointers at the first row, and that row if it is odd: `h` rows are left. */
  method StartRows(lum: array<byte>, cb: array<byte>, cr: array<byte>, img: Bitmap, g: Geometry, dsty: nat, dsth: nat,
                   ghost s: Scene)
    returns (o: Origin, h: nat, ghost r: nat)
    requires lum != cb && lum != cr && cb != cr && s == Scene(img, g, dsty, dsth, lum[..], cb[..], cr[..]) && s.Valid()
    modifies lum, cb, cr
    ensures h + r == dsth && (dsty + r) % 2 == 0 && PointersAt(s, r, Shift(s), o)
    ensures LumaDone(s, r, lum[..]) && ChromaDone(s, r, cb[..], cr[..])
  {
    NothingDone(s);
    o := Start(g, dsty, s);
    r := 0;
    if dsty % 2 == 1 {
      o := FirstRow(lum, cb, cr, img, g, o, s);
      r := 1;
    }
    h := dsth - dsty % 2;
  }

  /** The loop over pairs of rows: `h` rows are left. */
  method RowPairs(lum: array<byte>, cb: array<byte>, cr: array<byte>, img: Bitmap, g: Geometry, o0: Origin, h0: nat,
                  ghost s: Scene, ghost r0: nat)
    returns (o: Origin, h: nat, ghost r: nat)
    requires lum != cb && lum != cr && cb != cr && s.Valid() && s.img == img && s.g == g
    requires lum.Length == |s.lum| && cb.Length == |s.cb| && cr.Length == |s.cr|
    requires h0 + r0 == s.dsth && (s.dsty + r0) % 2 == 0 && PointersAt(s, r0, Shift(s), o0)
    requires LumaDone(s, r0, lum[..]) && ChromaDone(s, r0, cb[..], cr[..])
    modifies lum, cb, cr
    ensures h + r == s.dsth && h < 2 && (s.dsty + r) % 2 == 0 && PointersAt(s, r, Shift(s), o)
    ensures LumaDone(s, r, lum[..]) && ChromaDone(s, r, cb[..], cr[..])
  {
    o, h, r := o0, h0, r0;
    while h >= 2
      invariant h + r == s.dsth && (s.dsty + r) % 2 == 0
      invariant PointersAt(s, r, Shift(s), o)
      invariant LumaDone(s, r, lum[..])
      invariant ChromaDone(s, r, cb[..], cr[..])
    {
      o := RowPair(lum, cb, cr, img, g, o, s, r);
      h, r := h - 2, r + 2;
    }
  }

  /** All the rows of a clipped rectangle. Every luma pixel of it is blended exactly once with its own palette
      entry, and nothing else in the luma plane changes. The chroma planes hold what `CellSpec` says;
      the chroma pointers are at the start of their row after the pairs exactly if the rectangle starts at
      an even row or no column is left over. */
  method BlendRows(lum: array<byte>, cb: array<byte>, cr: array<byte>, img: Bitmap, g: Geometry, dsty: nat, dsth: nat,
                   ghost s: Scene)
    returns (o: Origin, ghost r: nat)
    requires lum != cb && lum != cr && cb != cr && s == Scene(img, g, dsty, dsth, lum[..], cb[..], cr[..]) && s.Valid()
    modifies lum, cb, cr
    ensures LumaDone(s, dsth, lum[..])
    ensures ChromaDone(s, dsth, cb[..], cr[..])
    ensures r <= dsth < r + 2 && PointersAt(s, r, Shift(s), o)
    ensures PointersAt(s, r, 0, o) <==> dsty % 2 == 0 || g.Leftover() == 0
  {
    var h: nat;
    o, h, r := StartRows(lum, cb, cr, img, g, dsty, dsth, s);
    o, h, r := RowPairs(lum, cb, cr, img, g, o, h, s, r);
    Aligned(s, r, o);
    RowLeft(lum, cb, cr, img, g, o, h, s, r);
  }

  /** The row that is left at the bottom, if there is one. */
  method RowLeft(lum: array<byte>, cb: array<byte>, cr: array<byte>, img: Bitmap, g: Geometry, o: Origin, h: nat,
                 ghost s: Scene, ghost r: nat)
    requires lum != cb && lum != cr && cb != cr && s.Valid() && s.img == img && s.g == g && h < 2 && h + r == s.dsth
    requires lum.Length == |s.lum| && cb.Length == |s.cb| && cr.Length == |s.cr|
    requires (s.dsty + r) % 2 == 0 && PointersAt(s, r, Shift(s), o)
    requires LumaDone(s, r, lum[..]) && ChromaDone(s, r, cb[..], cr[..])
    modifies lum, cb, cr
    ensures LumaDone(s, s.dsth, lum[..]) && ChromaDone(s, s.dsth, cb[..], cr[..])
  {
    if h > 0 {
      LastRow(lum, cb, cr, img, g, o, s, r);
    } else {
      assert r == s.dsth;
    }
  }

  /** `rect` as the source gets it: position and size before clipping. */
  datatype Rect = Rect(x: int, y: int, w: int, h: int)

  /** `blend_subrect`. The planes are large enough for a picture of `imgw` by `imgh`, the bitmap for the
      rectangle; `imgw` and `imgh` of the source are the size of the picture. */
  method BlendSubrect(lum: array<byte>, cb: array<byte>, cr: array<byte>, wrap: nat, cbWrap: nat, crWrap: nat,
                      rect: Rect, img: Bitmap, wrap3: nat, imgw: nat, imgh: nat)
    returns (ghost s: Scene)
    requires lum != cb && lum != cr && cb != cr && imgw > 0 && imgh > 0 && rect.w > 0 && rect.h > 0
    requires imgw <= wrap && (imgw + 1) / 2 <= cbWrap && (imgw + 1) / 2 <= crWrap && rect.w <= wrap3
    requires imgh * wrap <= lum.Length && (imgh + 1) / 2 * cbWrap <= cb.Length && (imgh + 1) / 2 * crWrap <= cr.Length
    requires |img.palette| == 256 && rect.h * wrap3 <= |img.pixels|
    modifies lum, cb, cr
    ensures s.Valid() && s.img == img && s.lum == old(lum[..]) && s.cb == old(cb[..]) && s.cr == old(cr[..])
    // a rectangle that fits the picture is blended where it is; else it is cut to the size of the picture, and
    // moved to the nearest place inside
    ensures s.g.dstw == (if rect.w <= imgw then rect.w else imgw) && s.dsth == (if rect.h <= imgh then rect.h else imgh)
    ensures s.g.dstx
            == if rect.x < 0 then 0 else if rect.x + s.g.dstw <= imgw then rect.x else imgw - s.g.dstw
    ensures s.dsty == if rect.y < 0 then 0 else if rect.y + s.dsth <= imgh then rect.y else imgh - s.dsth
    ensures s.g.wrap == wrap && s.g.cbWrap == cbWrap && s.g.crWrap == crWrap && s.g.wrap3 == wrap3
    ensures LumaDone(s, s.dsth, lum[..])
    ensures ChromaDone(s, s.dsth, cb[..], cr[..])
  {
    var dstw, dsth := Clip(rect.w, 0, imgw), Clip(rect.h, 0, imgh);
    var dstx, dsty := Clip(rect.x, 0, imgw - dstw), Clip(rect.y, 0, imgh - dsth);
    var g := Geometry(wrap, cbWrap, crWrap, wrap3, dstx, dstw);
    s := Scene(img, g, dsty, dsth, lum[..], cb[..], cr[..]);
    SceneFits(s, imgh, rect.h);
    var _, _ := BlendRows(lum, cb, cr, img, g, dsty, dsth, s);
  }

  /** In plain coordinates: the luma byte at row `y` and column `x` is the weighted mean of the old one and of
      the pixel's own palette entry, rounded down, inside the rectangle, and the old one outside. */
  lemma LumaIsBlended(s: Scene, now: seq<byte>, y: nat, x: nat)
    requires s.Valid() && LumaDone(s, s.dsth, now) && x < s.g.wrap && y * s.g.wrap + x < |now|
    ensures |now| == |s.lum| && 0 <= y * s.g.wrap
    ensures var i := y * s.g.wrap + x;
            if s.dsty <= y < s.dsty + s.dsth && s.g.dstx <= x < s.g.dstx + s.g.dstw then
              var p := (y - s.dsty) * s.g.wrap3 + x - s.g.dstx;
              && 0 <= p < |s.img.pixels|
              && var c := s.img.palette[s.img.pixels[p]];
                 now[i] == (s.lum[i] * (255 - c.a) + c.y * c.a) / 255
            else now[i] == s.lum[i]
  {
    var i := y * s.g.wrap + x;
    PlaceOf(y, x, s.g.wrap);
    LumaSpecAt(s, i, y, x);
  }

  lemma LumaSpecAt(s: Scene, i: nat, y: nat, x: nat)
    requires s.Valid() && i < |s.lum| && RowOf(i, s.g.wrap) == y && ColumnOf(i, s.g.wrap) == x
    ensures if s.dsty <= y < s.dsty + s.dsth && s.g.dstx <= x < s.g.dstx + s.g.dstw then
              var p := (y - s.dsty) * s.g.wrap3 + x - s.g.dstx;
              && 0 <= p < |s.img.pixels|
              && var c := s.img.palette[s.img.pixels[p]];
                 LumaSpec(s, s.dsth, i) == (s.lum[i] * (255 - c.a) + c.y * c.a) / 255
            else LumaSpec(s, s.dsth, i) == s.lum[i]
  {
    if s.dsty <= y < s.dsty + s.dsth && s.g.dstx <= x < s.g.dstx + s.g.dstw {
      RowIsProduct(y - s.dsty, s.g.wrap3);
      PixelInside(s, y - s.dsty, x - s.g.dstx);
    }
  }

  lemma PlaceOf(y: nat, x: nat, wrap: nat)
    requires x < wrap
    ensures 0 <= y * wrap && RowOf(y * wrap + x, wrap) == y && ColumnOf(y * wrap + x, wrap) == x
  {
    RowIsProduct(y, wrap);
    Segment(y * wrap + x, wrap, y, x, 1);
  }

  lemma SceneFits(s: Scene, imgh: nat, h: nat)
    requires s.g.Valid() && s.dsth > 0 && |s.img.palette| == 256 && s.dsty + s.dsth <= imgh && s.dsth <= h
    requires imgh * s.g.wrap <= |s.lum| && (imgh + 1) / 2 * s.g.cbWrap <= |s.cb|
             && (imgh + 1) / 2 * s.g.crWrap <= |s.cr|
    requires h * s.g.wrap3 <= |s.img.pixels|
    ensures s.Valid()
  {
    RowsFit(s.dsty + s.dsth, imgh, s.g.wrap);
    RowsFit(s.dsth, h, s.g.wrap3);
    RowsFit((s.dsty + s.dsth + 1) / 2, (imgh + 1) / 2, s.g.cbWrap);
    RowsFit((s.dsty + s.dsth + 1) / 2, (imgh + 1) / 2, s.g.crWrap);
  }

  lemma RowsFit(m: nat, n: nat, wrap: nat)
    requires m <= n
    ensures Row(m, wrap) <= n * wrap
  {
    RowMono(m, n, wrap);
    RowIsProduct(n, wrap);
  }
}
