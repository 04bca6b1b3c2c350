/** Blending a paletted subtitle rectangle into a 4:2:0 picture (`blend_subrect` in amffmpeg/ffplay.c):
    one luma byte a pixel, one byte of each chroma plane for two by two pixels. Pointers are offsets into
    their planes. */
module SubtitleBlend {
  import opened Bytes

  datatype Color = Color(y: byte, u: byte, v: byte, a: byte)

  datatype Channel = U | V

  function Part(c: Color, ch: Channel): byte {
    if ch.U? then c.u else c.v
  }

  /** `rect->pict`: one palette index a pixel, and the palette in YUVA. */
  datatype Bitmap = Bitmap(pixels: seq<byte>, palette: seq<Color>) {
    function At(offset: int): Color
      requires |palette| == 256 && 0 <= offset < |pixels|
    {
      palette[pixels[offset]]
    }
  }

  /** `ALPHA_BLEND`, where the new value is a sum of two to the power `s` bytes. */
  function AlphaBlend(a: byte, oldp: byte, newp: nat, s: nat): (r: byte)
    requires s <= 2 && newp <= 255 * Summands(s)
  {
    BlendStaysByte(a, oldp, newp, Summands(s));
    (oldp * Summands(s) * (255 - a) + newp * a) / (255 * Summands(s))
  }

  /** The number of bytes in such a sum. */
  function Summands(s: nat): nat {
    if s == 0 then 1 else if s == 1 then 2 else 4
  }

  lemma BlendStaysByte(a: byte, oldp: byte, newp: nat, p: nat)
    requires p > 0 && newp <= 255 * p
    ensures 0 <= (oldp * p * (255 - a) + newp * a) / (255 * p) < 256
  {
    var q := 255 * p;
    assert oldp * p <= q;
    assert 0 <= oldp * p * (255 - a) <= q * (255 - a) by {
      MulMono(oldp * p, q, 255 - a);
    }
    assert 0 <= newp * a <= q * a by {
      MulMono(newp, q, a);
    }
    var total := oldp * p * (255 - a) + newp * a;
    assert q * (255 - a) + q * a == q * 255;
    assert total <= q * 255;
    DivBound(total, q);
  }

  lemma MulMono(x: nat, y: nat, z: nat)
    requires x <= y
    ensures 0 <= x * z <= y * z
  {
  }

  lemma DivBound(x: nat, q: nat)
    requires 0 < q && x <= q * 255
    ensures 0 <= x / q <= 255
  {
  }

  lemma MulStep(x: nat, y: nat, q: nat)
    ensures x < y ==> x * q + q <= y * q
  {
    if x < y {
      MulMono(x + 1, y, q);
    }
  }

  lemma QuotientUnique(x: nat, q: nat, r: nat)
    requires q * r <= x < q * r + q
    ensures x / q == r
  {
    MulStep(x / q, r, q);
    MulStep(r, x / q, q);
  }

  lemma QuotientMono(x: nat, y: nat, q: nat)
    requires q > 0 && x <= y
    ensures x / q <= y / q
  {
    MulStep(y / q, x / q, q);
  }

  lemma CancelFactor(newp: nat, p: nat)
    requires p > 0
    ensures newp * 255 / (255 * p) == newp / p
  {
    var r, m := newp / p, newp % p;
    assert newp == r * p + m;
    QuotientUnique(newp * 255, 255 * p, r);
  }

  /** A blended value lies between what was there and the average of what is blended in, rounded down. */
  lemma BlendBetween(a: byte, oldp: byte, newp: nat, s: nat)
    requires s <= 2 && newp <= 255 * Summands(s)
    ensures var r, mean := AlphaBlend(a, oldp, newp, s), newp / Summands(s);
            Min(oldp, mean) <= r && (r <= oldp || r <= mean)
  {
    var p := Summands(s);
    var total := oldp * p * (255 - a) + newp * a;
    WeightedBetween(oldp * p, newp, a);
    CancelFactor(newp, p);
    QuotientUnique(oldp * p * 255, 255 * p, oldp);
    if newp <= oldp * p {
      QuotientMono(newp * 255, total, 255 * p);
      QuotientMono(total, oldp * p * 255, 255 * p);
    } else {
      QuotientMono(oldp * p * 255, total, 255 * p);
      QuotientMono(total, newp * 255, 255 * p);
    }
  }

  /** It is the mean of the old value and that of the new ones, weighted by the alpha and rounded down. */
  lemma BlendIsMean(a: byte, oldp: byte, newp: nat, s: nat)
    requires s <= 2 && newp <= 255 * Summands(s)
    ensures var r, n := AlphaBlend(a, oldp, newp, s), if s == 0 then 1 else if s == 1 then 2 else 4;
            r * (255 * n) <= oldp * n * (255 - a) + newp * a < r * (255 * n) + 255 * n
  {
    var p := Summands(s);
    var total, r := oldp * p * (255 - a) + newp * a, AlphaBlend(a, oldp, newp, s);
    Quotient(total, 255 * p);
  }

  lemma Quotient(x: nat, q: nat)
    requires q > 0
    ensures x / q * q <= x < x / q * q + q
  {
  }

  lemma WeightedBetween(x: nat, y: nat, a: byte)
    ensures var total := x * (255 - a) + y * a;
            if y <= x then y * 255 <= total <= x * 255 else x * 255 <= total <= y * 255
  {
    if y <= x {
      MulMono(y, x, 255 - a);
      MulMono(y, x, a);
    } else {
      MulMono(x, y, 255 - a);
      MulMono(x, y, a);
    }
  }

  /** A clear colour changes nothing; an opaque one replaces. */
  lemma BlendExtremes(oldp: byte, newp: nat, s: nat)
    requires s <= 2 && newp <= 255 * Summands(s)
    ensures AlphaBlend(0, oldp, newp, s) == oldp && AlphaBlend(255, oldp, newp, s) == newp / Summands(s)
  {
  }

  /** The columns of a rectangle `n` wide that chroma cell `k` covers: `odd` says that it starts in the
      second column of cell 0. */
  function First(odd: nat, k: nat): nat {
    if 2 * k < odd then 0 else 2 * k - odd
  }

  predicate Two(n: nat, odd: nat, k: nat) {
    odd <= 2 * k && 2 * k - odd + 1 < n
  }

  /** The number of chroma cells a row touches. */
  function Width2(n: nat, odd: nat): nat
    requires odd <= 1
  {
    (n + odd + 1) / 2
  }

  /** The source computes this number with bit operations, `((dstw + 1) >> 1) + (dstx & ~dstw & 1)`. */
  lemma Width2IsSource(dstw: nat, dstx: nat)
    ensures Width2(dstw, dstx % 2) == (dstw + 1) / 2 + if dstx % 2 == 1 && dstw % 2 == 0 then 1 else 0
  {
  }

  /** What is blended into a chroma cell: the sum of two to the power `s` bytes, under `alpha`. */
  datatype Mix = Mix(alpha: byte, sum: nat, s: nat) {
    predicate Valid() {
      s <= 2 && sum <= 255 * Summands(s)
    }

    function Over(oldp: byte): byte
      requires Valid()
    {
      AlphaBlend(alpha, oldp, sum, s)
    }
  }

  /** Both columns of a pair of rows. */
  function FullMix(img: Bitmap, p: nat, wrap3: nat, ch: Channel): (r: Mix)
    requires |img.palette| == 256 && p + wrap3 + 1 < |img.pixels|
    ensures r.Valid()
  {
    var c00, c01, c10, c11 := img.At(p), img.At(p + 1), img.At(p + wrap3), img.At(p + wrap3 + 1);
    Mix((c00.a + c01.a + c10.a + c11.a) / 4, Part(c00, ch) + Part(c01, ch) + Part(c10, ch) + Part(c11, ch), 2)
  }

  /** One column of a pair of rows. */
  function EdgeMix(img: Bitmap, p: nat, wrap3: nat, ch: Channel): (r: Mix)
    requires |img.palette| == 256 && p + wrap3 < |img.pixels|
    ensures r.Valid()
  {
    var c00, c10 := img.At(p), img.At(p + wrap3);
    Mix((c00.a + c10.a) / 4, Part(c00, ch) + Part(c10, ch), 1)
  }

  /** What chroma cell `k` takes from a pair of rows at `p` and `p + wrap3` of the bitmap. */
  function PairMix(img: Bitmap, p: nat, wrap3: nat, n: nat, odd: nat, k: nat, ch: Channel): (r: Mix)
    requires |img.palette| == 256 && n > 0 && odd <= 1 && k < Width2(n, odd) && p + wrap3 + n <= |img.pixels|
    ensures r.Valid()
  {
    var x := First(odd, k);
    if Two(n, odd, k) then FullMix(img, p + x, wrap3, ch) else EdgeMix(img, p + x, wrap3, ch)
  }

  function Luma(c: Color, oldp: byte): byte {
    AlphaBlend(c.a, oldp, c.y, 0)
  }

  /** Strides and columns: those of the luma plane, of the chroma planes and of the bitmap, and the first
      column and the width of the rectangle. */
  datatype Geometry = Geometry(wrap: nat, cbWrap: nat, crWrap: nat, wrap3: nat, dstx: nat, dstw: nat) {
    function Odd(): nat { dstx % 2 }
    function Skip2(): nat { dstx / 2 }
    function Cells(): nat { Width2(dstw, Odd()) }

    /** 1 if a single row ends with a column alone in its cell. */
    function Leftover(): nat
      requires dstw > 0
    {
      (dstw - Odd()) % 2
    }

    predicate Valid() {
      dstw > 0 && dstx + dstw <= wrap && dstw <= wrap3 && Skip2() + Cells() <= cbWrap && Skip2() + Cells() <= crWrap
    }
  }

  /** `s` with a pixel blended over position `i`. */
  function Dot(s: seq<byte>, i: nat, c: Color): (r: seq<byte>)
    requires i < |s|
    ensures |r| == |s|
  {
    s[i := Luma(c, s[i])]
  }

  /** A luma plane after `m` pixels of the bitmap rows at `p0` and `p1` were blended in from `l0` and from
      `l1` on, column by column. */
  function RowsAfter(was: seq<byte>, img: Bitmap, l0: nat, p0: nat, l1: nat, p1: nat, m: nat): (now: seq<byte>)
    requires |img.palette| == 256 && p0 + m <= |img.pixels| && p1 + m <= |img.pixels| && l0 + m <= |was|
             && l1 + m <= |was|
    ensures |now| == |was|
  {
    if m == 0 then was else
    Dot(Dot(RowsAfter(was, img, l0, p0, l1, p1, m - 1), l0 + m - 1, img.At(p0 + m - 1)), l1 + m - 1, img.At(p1 + m - 1))
  }

  /** A chroma plane after the first `m` cells of a pair of rows were blended in from `c` on. */
  function CellsAfter(was: seq<byte>, img: Bitmap, c: nat, p: nat, g: Geometry, m: nat, ch: Channel): (now: seq<byte>)
    requires |img.palette| == 256 && g.Valid() && p + g.wrap3 + g.dstw <= |img.pixels| && m <= g.Cells()
             && c + m <= |was|
    ensures |now| == |was|
  {
    if m == 0 then was else
    var s := CellsAfter(was, img, c, p, g, m - 1, ch);
    s[c + m - 1 := PairMix(img, p, g.wrap3, g.dstw, g.Odd(), m - 1, ch).Over(s[c + m - 1])]
  }

  /** Each pixel of two disjoint rows is blended exactly once, with its own palette entry, and no other. */
  lemma {:induction false} RowsAfterAt(was: seq<byte>, img: Bitmap, l0: nat, p0: nat, l1: nat, p1: nat, m: nat, i: nat)
    requires |img.palette| == 256 && p0 + m <= |img.pixels| && p1 + m <= |img.pixels| && l0 + m <= l1 && l1 + m <= |was|
    requires i < |was|
    ensures RowsAfter(was, img, l0, p0, l1, p1, m)[i]
            == if l0 <= i < l0 + m then Luma(img.At(p0 + i - l0), was[i])
               else if l1 <= i < l1 + m then Luma(img.At(p1 + i - l1), was[i])
               else was[i]
  {
    if m > 0 {
      RowsAfterAt(was, img, l0, p0, l1, p1, m - 1, i);
    }
  }

  lemma {:induction false} CellsAfterAt(was: seq<byte>, img: Bitmap, c: nat, p: nat, g: Geometry, m: nat, ch: Channel,
                                        i: nat)
    requires |img.palette| == 256 && g.Valid() && p + g.wrap3 + g.dstw <= |img.pixels| && m <= g.Cells()
             && c + m <= |was|
    requires i < |was|
    ensures CellsAfter(was, img, c, p, g, m, ch)[i]
            == if c <= i < c + m then PairMix(img, p, g.wrap3, g.dstw, g.Odd(), i - c, ch).Over(was[i]) else was[i]
  {
    if m > 0 {
      CellsAfterAt(was, img, c, p, g, m - 1, ch, i);
    }
  }

  /** The start of a pair of rows in each plane and in the bitmap. */
  datatype Origin = Origin(lum: nat, cb: nat, cr: nat, p: nat)

  /** The planes before a pair of rows is blended at `o`, and what they hold when `m` columns and `k` cells are done. */
  datatype PairJob = PairJob(img: Bitmap, g: Geometry, o: Origin, lum: seq<byte>, cb: seq<byte>, cr: seq<byte>) {
    predicate Valid() {
      && |img.palette| == 256 && g.Valid()
      && o.lum + g.wrap + g.dstx + g.dstw <= |lum| && o.p + g.wrap3 + g.dstw <= |img.pixels|
      && o.cb + g.Skip2() + g.Cells() <= |cb| && o.cr + g.Skip2() + g.Cells() <= |cr|
    }

    ghost function Lum(m: nat): seq<byte>
      requires Valid() && m <= g.dstw
    {
      RowsAfter(lum, img, o.lum + g.dstx, o.p, o.lum + g.dstx + g.wrap, o.p + g.wrap3, m)
    }

    ghost function Cb(k: nat): seq<byte>
      requires Valid() && k <= g.Cells()
    {
      CellsAfter(cb, img, o.cb + g.Skip2(), o.p, g, k, U)
    }

    ghost function Cr(k: nat): seq<byte>
      requires Valid() && k <= g.Cells()
    {
      CellsAfter(cr, img, o.cr + g.Skip2(), o.p, g, k, V)
    }

    /** The pointers after `m` columns and `k` cells, when `w` columns are left to do. */
    ghost predicate At(lumP: nat, cbP: nat, crP: nat, p: nat, w: int, m: nat, k: nat) {
      && m + w == g.dstw && 0 <= w && k <= g.Cells() && m + g.Odd() == 2 * k
      && lumP == o.lum + g.dstx + m && cbP == o.cb + g.Skip2() + k && crP == o.cr + g.Skip2() + k && p == o.p + m
    }

    ghost predicate Holds(lumNow: array<byte>, cbNow: array<byte>, crNow: array<byte>, m: nat, k: nat)
      reads lumNow, cbNow, crNow
      requires Valid() && m <= g.dstw && k <= g.Cells()
    {
      lumNow[..] == Lum(m) && cbNow[..] == Cb(k) && crNow[..] == Cr(k)
    }
  }

  method BlendPixel(lum: array<byte>, i: nat, c: Color)
    requires i < lum.Length
    modifies lum
    ensures lum[..] == Dot(old(lum[..]), i, c)
  {
    lum[i] := AlphaBlend(c.a, lum[i], c.y, 0);
  }

  lemma DotsCommute(s: seq<byte>, i: nat, c: Color, j: nat, d: Color)
    requires i < |s| && j < |s| && i != j
    ensures Dot(Dot(s, i, c), j, d) == Dot(Dot(s, j, d), i, c)
  {
  }

  /** Two pixels of the upper row and the two below; the order of the middle ones does not matter. */
  method BlendBlock(lum: array<byte>, img: Bitmap, lumP: nat, wrap: nat, p: nat, wrap3: nat)
    requires |img.palette| == 256 && p + wrap3 + 1 < |img.pixels| && lumP + wrap + 1 < lum.Length && 1 < wrap
    modifies lum
    ensures lum[..] == Dot(Dot(Dot(Dot(old(lum[..]), lumP, img.At(p)), lumP + wrap, img.At(p + wrap3)),
                               lumP + 1, img.At(p + 1)), lumP + wrap + 1, img.At(p + wrap3 + 1))
  {
    BlendPixel(lum, lumP, img.At(p));
    DotsCommute(lum[..], lumP + 1, img.At(p + 1), lumP + wrap, img.At(p + wrap3));
    BlendPixel(lum, lumP + 1, img.At(p + 1));
    BlendPixel(lum, lumP + wrap, img.At(p + wrap3));
    BlendPixel(lum, lumP + wrap + 1, img.At(p + wrap3 + 1));
  }

  method BlendCell(plane: array<byte>, i: nat, mix: Mix)
    requires i < plane.Length && mix.Valid()
    modifies plane
    ensures plane[..] == old(plane[..])[i := mix.Over(old(plane[..])[i])]
  {
    plane[i] := AlphaBlend(mix.alpha, plane[i], mix.sum, mix.s);
  }

  /** The planes after one more column, and after the cell at its columns. */
  lemma LumNext(job: PairJob, m: nat)
    requires job.Valid() && m < job.g.dstw
    ensures var l := job.o.lum + job.g.dstx + m;
            job.Lum(m + 1) == Dot(Dot(job.Lum(m), l, job.img.At(job.o.p + m)), l + job.g.wrap,
                                  job.img.At(job.o.p + m + job.g.wrap3))
  {
  }

  /** The chroma bytes of cell `k`. */
  method CellStep(cb: array<byte>, cr: array<byte>, ghost job: PairJob, mixU: Mix, mixV: Mix, cbP: nat, crP: nat,
                  ghost k: nat)
    requires cb != cr && job.Valid() && k < job.g.Cells() && cb[..] == job.Cb(k) && cr[..] == job.Cr(k)
    requires mixU == PairMix(job.img, job.o.p, job.g.wrap3, job.g.dstw, job.g.Odd(), k, U)
    requires mixV == PairMix(job.img, job.o.p, job.g.wrap3, job.g.dstw, job.g.Odd(), k, V)
    requires cbP == job.o.cb + job.g.Skip2() + k && crP == job.o.cr + job.g.Skip2() + k
    modifies cb, cr
    ensures cb[..] == job.Cb(k + 1) && cr[..] == job.Cr(k + 1)
  {
    BlendCell(cb, cbP, mixU);
    BlendCell(cr, crP, mixV);
  }

  /** A column whose cell no other column of the rectangle shares. */
  method EdgeStep(lum: array<byte>, cb: array<byte>, cr: array<byte>, ghost job: PairJob, img: Bitmap, wrap: nat,
                  wrap3: nat,
                  lumP: nat, cbP: nat, crP: nat, p: nat, ghost m: nat, ghost k: nat)
    requires lum != cb && lum != cr && cb != cr && job.Valid() && m < job.g.dstw && k < job.g.Cells()
    requires job.img == img && job.g.wrap == wrap && job.g.wrap3 == wrap3
    requires job.Holds(lum, cb, cr, m, k)
    requires m == First(job.g.Odd(), k) && !Two(job.g.dstw, job.g.Odd(), k)
    requires lumP == job.o.lum + job.g.dstx + m && p == job.o.p + m
    requires cbP == job.o.cb + job.g.Skip2() + k && crP == job.o.cr + job.g.Skip2() + k
    modifies lum, cb, cr
    ensures job.Holds(lum, cb, cr, m + 1, k + 1)
  {
    LumNext(job, m);
    BlendPixel(lum, lumP, img.At(p));
    BlendPixel(lum, lumP + wrap, img.At(p + wrap3));
    CellStep(cb, cr, job, EdgeMix(img, p, wrap3, U), EdgeMix(img, p, wrap3, V), cbP, crP, k);
  }

  /** Two columns that share their cell. */
  method FullStep(lum: array<byte>, cb: array<byte>, cr: array<byte>, ghost job: PairJob, img: Bitmap, wrap: nat,
                  wrap3: nat,
                  lumP: nat, cbP: nat, crP: nat, p: nat, ghost w: nat, ghost m: nat, ghost k: nat)
    requires lum != cb && lum != cr && cb != cr && job.Valid()
    requires job.img == img && job.g.wrap == wrap && job.g.wrap3 == wrap3
    requires job.At(lumP, cbP, crP, p, w, m, k) && w >= 2 && job.Holds(lum, cb, cr, m, k)
    modifies lum, cb, cr
    ensures m + 2 <= job.g.dstw && k + 1 <= job.g.Cells() && job.Holds(lum, cb, cr, m + 2, k + 1)
  {
    BlockAhead(job, lumP, cbP, crP, p, w, m, k);
    BlockStep(lum, job, img, wrap, wrap3, lumP, p, m);
    CellStep(cb, cr, job, FullMix(img, p, wrap3, U), FullMix(img, p, wrap3, V), cbP, crP, k);
  }

  method BlockStep(lum: array<byte>, ghost job: PairJob, img: Bitmap, wrap: nat, wrap3: nat, lumP: nat, p: nat,
                   ghost m: nat)
    requires job.Valid() && job.img == img && job.g.wrap == wrap && job.g.wrap3 == wrap3 && m + 2 <= job.g.dstw
    requires lumP == job.o.lum + job.g.dstx + m && p == job.o.p + m && lum[..] == job.Lum(m)
    modifies lum
    ensures lum[..] == job.Lum(m + 2)
  {
    LumNext(job, m);
    LumNext(job, m + 1);
    BlendBlock(lum, img, lumP, wrap, p, wrap3);
  }

  lemma ColumnsAhead(g: Geometry, w: nat, m: nat, k: nat)
    requires g.Valid() && m + w == g.dstw && w >= 2 && m + g.Odd() == 2 * k
    ensures m == First(g.Odd(), k) && Two(g.dstw, g.Odd(), k) && k < g.Cells()
  {
  }

  lemma BlockAhead(job: PairJob, lumP: nat, cbP: nat, crP: nat, p: nat, w: int, m: nat, k: nat)
    requires job.Valid() && job.At(lumP, cbP, crP, p, w, m, k) && w >= 2
    ensures m == First(job.g.Odd(), k) && Two(job.g.dstw, job.g.Odd(), k) && k < job.g.Cells()
    ensures job.At(lumP + 2, cbP + 1, crP + 1, p + 2, w - 2, m + 2, k + 1)
  {
    ColumnsAhead(job.g, w, m, k);
  }

  /** Columns two by two, as long as there are two; `w` are left. */
  method WalkBlocks(lum: array<byte>, cb: array<byte>, cr: array<byte>, img: Bitmap, g: Geometry, ghost job: PairJob,
                    lum0: nat, cb0: nat, cr0: nat, p0: nat, w0: nat, ghost m0: nat, ghost k0: nat)
    returns (lumP: nat, cbP: nat, crP: nat, p: nat, w: nat, ghost m: nat, ghost k: nat)
    requires lum != cb && lum != cr && cb != cr && job.Valid() && job.img == img && job.g == g
    requires job.At(lum0, cb0, cr0, p0, w0, m0, k0) && job.Holds(lum, cb, cr, m0, k0)
    modifies lum, cb, cr
    ensures job.At(lumP, cbP, crP, p, w, m, k) && job.Holds(lum, cb, cr, m, k) && w < 2
  {
    lumP, cbP, crP, p, w, m, k := lum0, cb0, cr0, p0, w0, m0, k0;
    while w >= 2
      invariant job.At(lumP, cbP, crP, p, w, m, k) && job.Holds(lum, cb, cr, m, k)
    {
      BlockAhead(job, lumP, cbP, crP, p, w, m, k);
      FullStep(lum, cb, cr, job, img, g.wrap, g.wrap3, lumP, cbP, crP, p, w, m, k);
      cbP, crP, p, lumP := cbP + 1, crP + 1, p + 2, lumP + 2;
      w, m, k := w - 2, m + 2, k + 1;
    }
  }

  /** After the columns two by two, what is left decides the number of cells. */
  lemma ColumnsLeft(g: Geometry, w: nat, m: nat, k: nat)
    requires g.Valid() && m + w == g.dstw && w < 2 && m + g.Odd() == 2 * k
    ensures k + w == g.Cells() && w == g.Leftover()
    ensures w == 1 ==> m == First(g.Odd(), k) && !Two(g.dstw, g.Odd(), k)
  {
  }

  /** A first column alone in its cell. */
  method StartPair(lum: array<byte>, cb: array<byte>, cr: array<byte>, img: Bitmap, g: Geometry, o: Origin,
                   ghost job: PairJob)
    returns (lumP: nat, cbP: nat, crP: nat, p: nat, w: nat, ghost m: nat, ghost k: nat)
    requires lum != cb && lum != cr && cb != cr && job == PairJob(img, g, o, lum[..], cb[..], cr[..]) && job.Valid()
    modifies lum, cb, cr
    ensures job.At(lumP, cbP, crP, p, w, m, k) && job.Holds(lum, cb, cr, m, k)
  {
    lumP, cbP, crP, p, m, k := o.lum + g.dstx, o.cb + g.dstx / 2, o.cr + g.dstx / 2, o.p, 0, 0;
    if g.dstx % 2 == 1 {
      EdgeStep(lum, cb, cr, job, img, g.wrap, g.wrap3, lumP, cbP, crP, p, m, k);
      cbP, crP, p, lumP := cbP + 1, crP + 1, p + 1, lumP + 1;
      m, k := 1, 1;
    }
    w := g.dstw - g.dstx % 2;
  }

  /** A last column alone in its cell. */
  method FinishPair(lum: array<byte>, cb: array<byte>, cr: array<byte>, img: Bitmap, g: Geometry, ghost job: PairJob,
                    lum0: nat, cb0: nat, cr0: nat, p0: nat, w: nat, ghost m: nat, ghost k: nat)
    returns (lumP: nat, cbP: nat, crP: nat, p: nat)
    requires lum != cb && lum != cr && cb != cr && job.Valid() && job.img == img && job.g == g
    requires job.At(lum0, cb0, cr0, p0, w, m, k) && job.Holds(lum, cb, cr, m, k) && w < 2
    modifies lum, cb, cr
    ensures p == job.o.p + g.dstw && lumP == job.o.lum + g.dstx + g.dstw
    ensures cbP == job.o.cb + g.Skip2() + g.Cells() && crP == job.o.cr + g.Skip2() + g.Cells()
    ensures job.Holds(lum, cb, cr, g.dstw, g.Cells())
  {
    lumP, cbP, crP, p := lum0, cb0, cr0, p0;
    ColumnsLeft(g, w, m, k);
    if w > 0 {
      EdgeStep(lum, cb, cr, job, img, g.wrap, g.wrap3, lumP, cbP, crP, p, m, k);
      cbP, crP, p, lumP := cbP + 1, crP + 1, p + 1, lumP + 1;
      assert m + 1 == g.dstw && k + 1 == g.Cells();
    } else {
      assert m == g.dstw && k == g.Cells();
    }
  }

  /** The walk along a pair of rows: a first column alone in its cell, columns two by two, a last one alone. */
  method WalkPair(lum: array<byte>, cb: array<byte>, cr: array<byte>, img: Bitmap, g: Geometry, o: Origin,
                  ghost job: PairJob)
    returns (lumP: nat, cbP: nat, crP: nat, p: nat)
    requires lum != cb && lum != cr && cb != cr && job == PairJob(img, g, o, lum[..], cb[..], cr[..]) && job.Valid()
    modifies lum, cb, cr
    ensures lumP == o.lum + g.dstx + g.dstw && p == o.p + g.dstw
    ensures cbP == o.cb + g.Skip2() + g.Cells() && crP == o.cr + g.Skip2() + g.Cells()
    ensures job.Holds(lum, cb, cr, g.dstw, g.Cells())
  {
    var w;
    ghost var m, k;
    lumP, cbP, crP, p, w, m, k := StartPair(lum, cb, cr, img, g, o, job);
    lumP, cbP, crP, p, w, m, k := WalkBlocks(lum, cb, cr, img, g, job, lumP, cbP, crP, p, w, m, k);
    lumP, cbP, crP, p := FinishPair(lum, cb, cr, img, g, job, lumP, cbP, crP, p, w, m, k);
  }

  /** The body of the loop over pairs of rows. The pointers come in at the start of the rows and leave at
      the start of the next ones. */
  method BlendRowPair(lum: array<byte>, cb: array<byte>, cr: array<byte>, img: Bitmap, g: Geometry, o: Origin,
                      ghost job: PairJob)
    returns (next: Origin)
    requires lum != cb && lum != cr && cb != cr && job == PairJob(img, g, o, lum[..], cb[..], cr[..]) && job.Valid()
    modifies lum, cb, cr
    ensures next == Origin(o.lum + 2 * g.wrap, o.cb + g.cbWrap, o.cr + g.crWrap, o.p + 2 * g.wrap3)
    ensures job.Holds(lum, cb, cr, g.dstw, g.Cells())
  {
    var lumP, cbP, crP, p := WalkPair(lum, cb, cr, img, g, o, job);
    next := Origin(lumP + g.wrap + (g.wrap - g.dstw - g.dstx), cbP + g.cbWrap - g.Cells() - g.Skip2(),
                   crP + g.crWrap - g.Cells() - g.Skip2(), p + g.wrap3 + (g.wrap3 - g.dstw));
  }

  /** What chroma cell `k` takes from a single row at `p` of the bitmap. In the row that is left at the
      bottom (`last`) the source sums the alphas of two columns but the colour of the second one only. */
  function SingleMix(img: Bitmap, p: nat, n: nat, odd: nat, k: nat, ch: Channel, last: bool): (r: Mix)
    requires |img.palette| == 256 && n > 0 && odd <= 1 && k < Width2(n, odd) && p + n <= |img.pixels|
    ensures r.Valid()
  {
    var x := p + First(odd, k);
    if Two(n, odd, k) then
      Mix((img.At(x).a + img.At(x + 1).a) / 4, (if last then 0 else Part(img.At(x), ch)) + Part(img.At(x + 1), ch), 1)
    else
      Mix(img.At(x).a / 4, Part(img.At(x), ch), 0)
  }

  /** A luma plane after `m` pixels of the bitmap row at `p` were blended in from `l` on. */
  function RowAfter(was: seq<byte>, img: Bitmap, l: nat, p: nat, m: nat): (now: seq<byte>)
    requires |img.palette| == 256 && p + m <= |img.pixels| && l + m <= |was|
    ensures |now| == |was|
  {
    if m == 0 then was else Dot(RowAfter(was, img, l, p, m - 1), l + m - 1, img.At(p + m - 1))
  }

  function SingleCellsAfter(was: seq<byte>, img: Bitmap, c: nat, p: nat, g: Geometry, m: nat, ch: Channel,
                            last: bool): (now: seq<byte>)
    requires |img.palette| == 256 && g.Valid() && p + g.dstw <= |img.pixels| && m <= g.Cells() && c + m <= |was|
    ensures |now| == |was|
  {
    if m == 0 then was else
    var s := SingleCellsAfter(was, img, c, p, g, m - 1, ch, last);
    s[c + m - 1 := SingleMix(img, p, g.dstw, g.Odd(), m - 1, ch, last).Over(s[c + m - 1])]
  }

  lemma {:induction false} RowAfterAt(was: seq<byte>, img: Bitmap, l: nat, p: nat, m: nat, i: nat)
    requires |img.palette| == 256 && p + m <= |img.pixels| && l + m <= |was| && i < |was|
    ensures RowAfter(was, img, l, p, m)[i] == if l <= i < l + m then Luma(img.At(p + i - l), was[i]) else was[i]
  {
    if m > 0 {
      RowAfterAt(was, img, l, p, m - 1, i);
    }
  }

  lemma {:induction false} SingleCellsAfterAt(was: seq<byte>, img: Bitmap, c: nat, p: nat, g: Geometry, m: nat,
                                              ch: Channel, last: bool, i: nat)
    requires |img.palette| == 256 && g.Valid() && p + g.dstw <= |img.pixels| && m <= g.Cells() && c + m <= |was|
             && i < |was|
    ensures SingleCellsAfter(was, img, c, p, g, m, ch, last)[i]
            == if c <= i < c + m then SingleMix(img, p, g.dstw, g.Odd(), i - c, ch, last).Over(was[i]) else was[i]
  {
    if m > 0 {
      SingleCellsAfterAt(was, img, c, p, g, m - 1, ch, last, i);
    }
  }

  /** The planes before a single row is blended at `o`, and what they hold when `m` columns and `k` cells are done. */
  datatype RowJob = RowJob(img: Bitmap, g: Geometry, o: Origin, last: bool, lum: seq<byte>, cb: seq<byte>,
                           cr: seq<byte>) {
    predicate Valid() {
      && |img.palette| == 256 && g.Valid()
      && o.lum + g.dstx + g.dstw <= |lum| && o.p + g.dstw <= |img.pixels|
      && o.cb + g.Skip2() + g.Cells() <= |cb| && o.cr + g.Skip2() + g.Cells() <= |cr|
    }

    ghost function Lum(m: nat): seq<byte>
      requires Valid() && m <= g.dstw
    {
      RowAfter(lum, img, o.lum + g.dstx, o.p, m)
    }

    ghost function Cb(k: nat): seq<byte>
      requires Valid() && k <= g.Cells()
    {
      SingleCellsAfter(cb, img, o.cb + g.Skip2(), o.p, g, k, U, last)
    }

    ghost function Cr(k: nat): seq<byte>
      requires Valid() && k <= g.Cells()
    {
      SingleCellsAfter(cr, img, o.cr + g.Skip2(), o.p, g, k, V, last)
    }

    ghost predicate At(lumP: nat, cbP: nat, crP: nat, p: nat, w: int, m: nat, k: nat) {
      && m + w == g.dstw && 0 <= w && k <= g.Cells() && m + g.Odd() == 2 * k
      && lumP == o.lum + g.dstx + m && cbP == o.cb + g.Skip2() + k && crP == o.cr + g.Skip2() + k && p == o.p + m
    }

    ghost predicate Holds(lumNow: array<byte>, cbNow: array<byte>, crNow: array<byte>, m: nat, k: nat)
      reads lumNow, cbNow, crNow
      requires Valid() && m <= g.dstw && k <= g.Cells()
    {
      lumNow[..] == Lum(m) && cbNow[..] == Cb(k) && crNow[..] == Cr(k)
    }
  }

  method RowCellStep(cb: array<byte>, cr: array<byte>, ghost job: RowJob, mixU: Mix, mixV: Mix, cbP: nat, crP: nat,
                     ghost k: nat)
    requires cb != cr && job.Valid() && k < job.g.Cells() && cb[..] == job.Cb(k) && cr[..] == job.Cr(k)
    requires mixU == SingleMix(job.img, job.o.p, job.g.dstw, job.g.Odd(), k, U, job.last)
    requires mixV == SingleMix(job.img, job.o.p, job.g.dstw, job.g.Odd(), k, V, job.last)
    requires cbP == job.o.cb + job.g.Skip2() + k && crP == job.o.cr + job.g.Skip2() + k
    modifies cb, cr
    ensures cb[..] == job.Cb(k + 1) && cr[..] == job.Cr(k + 1)
  {
    BlendCell(cb, cbP, mixU);
    BlendCell(cr, crP, mixV);
  }

  lemma RowLumNext(job: RowJob, m: nat)
    requires job.Valid() && m < job.g.dstw
    ensures job.Lum(m + 1) == Dot(job.Lum(m), job.o.lum + job.g.dstx + m, job.img.At(job.o.p + m))
  {
  }

  method RowEdgeStep(lum: array<byte>, cb: array<byte>, cr: array<byte>, ghost job: RowJob, img: Bitmap,
                     lumP: nat, cbP: nat, crP: nat, p: nat, ghost m: nat, ghost k: nat)
    requires lum != cb && lum != cr && cb != cr && job.Valid() && m < job.g.dstw && k < job.g.Cells() && job.img == img
    requires job.Holds(lum, cb, cr, m, k)
    requires m == First(job.g.Odd(), k) && !Two(job.g.dstw, job.g.Odd(), k)
    requires lumP == job.o.lum + job.g.dstx + m && p == job.o.p + m
    requires cbP == job.o.cb + job.g.Skip2() + k && crP == job.o.cr + job.g.Skip2() + k
    modifies lum, cb, cr
    ensures job.Holds(lum, cb, cr, m + 1, k + 1)
  {
    RowLumNext(job, m);
    var c := img.At(p);
    BlendPixel(lum, lumP, c);
    RowCellStep(cb, cr, job, Mix(c.a / 4, c.u, 0), Mix(c.a / 4, c.v, 0), cbP, crP, k);
  }

  method RowFullStep(lum: array<byte>, cb: array<byte>, cr: array<byte>, ghost job: RowJob, img: Bitmap, last: bool,
                     lumP: nat, cbP: nat, crP: nat, p: nat, ghost m: nat, ghost k: nat)
    requires lum != cb && lum != cr && cb != cr && job.Valid() && m + 1 < job.g.dstw && k < job.g.Cells()
    requires job.img == img && job.last == last && job.Holds(lum, cb, cr, m, k)
    requires m == First(job.g.Odd(), k) && Two(job.g.dstw, job.g.Odd(), k)
    requires lumP == job.o.lum + job.g.dstx + m && p == job.o.p + m
    requires cbP == job.o.cb + job.g.Skip2() + k && crP == job.o.cr + job.g.Skip2() + k
    modifies lum, cb, cr
    ensures job.Holds(lum, cb, cr, m + 2, k + 1)
  {
    RowLumNext(job, m);
    RowLumNext(job, m + 1);
    var c, d := img.At(p), img.At(p + 1);
    BlendPixel(lum, lumP, c);
    BlendPixel(lum, lumP + 1, d);
    RowCellStep(cb, cr, job, Mix((c.a + d.a) / 4, (if last then 0 else c.u) + d.u, 1),
                Mix((c.a + d.a) / 4, (if last then 0 else c.v) + d.v, 1), cbP, crP, k);
  }

  method WalkRowBlocks(lum: array<byte>, cb: array<byte>, cr: array<byte>, img: Bitmap, last: bool, ghost job: RowJob,
                       lum0: nat, cb0: nat, cr0: nat, p0: nat, w0: nat, ghost m0: nat, ghost k0: nat)
    returns (lumP: nat, cbP: nat, crP: nat, p: nat, w: nat, ghost m: nat, ghost k: nat)
    requires lum != cb && lum != cr && cb != cr && job.Valid() && job.img == img && job.last == last
    requires job.At(lum0, cb0, cr0, p0, w0, m0, k0) && job.Holds(lum, cb, cr, m0, k0)
    modifies lum, cb, cr
    ensures job.At(lumP, cbP, crP, p, w, m, k) && job.Holds(lum, cb, cr, m, k) && w < 2
  {
    lumP, cbP, crP, p, w, m, k := lum0, cb0, cr0, p0, w0, m0, k0;
    while w >= 2
      invariant job.At(lumP, cbP, crP, p, w, m, k) && job.Holds(lum, cb, cr, m, k)
    {
      ColumnsAhead(job.g, w, m, k);
      RowFullStep(lum, cb, cr, job, img, last, lumP, cbP, crP, p, m, k);
      cbP, crP, p, lumP := cbP + 1, crP + 1, p + 2, lumP + 2;
      w, m, k := w - 2, m + 2, k + 1;
    }
  }

  method StartRow(lum: array<byte>, cb: array<byte>, cr: array<byte>, img: Bitmap, g: Geometry, o: Origin,
                  ghost job: RowJob)
    returns (lumP: nat, cbP: nat, crP: nat, p: nat, w: nat, ghost m: nat, ghost k: nat)
    requires lum != cb && lum != cr && cb != cr && job == RowJob(img, g, o, job.last, lum[..], cb[..], cr[..])
             && job.Valid()
    modifies lum, cb, cr
    ensures job.At(lumP, cbP, crP, p, w, m, k) && job.Holds(lum, cb, cr, m, k)
  {
    lumP, cbP, crP, p, m, k := o.lum + g.dstx, o.cb + g.dstx / 2, o.cr + g.dstx / 2, o.p, 0, 0;
    if g.dstx % 2 == 1 {
      RowEdgeStep(lum, cb, cr, job, img, lumP, cbP, crP, p, m, k);
      cbP, crP, p, lumP := cbP + 1, crP + 1, p + 1, lumP + 1;
      m, k := 1, 1;
    }
    w := g.dstw - g.dstx % 2;
  }

  /** After a last column alone in its cell the chroma pointers stay where they are. */
  method FinishRow(lum: array<byte>, cb: array<byte>, cr: array<byte>, img: Bitmap, g: Geometry, ghost job: RowJob,
                   lum0: nat, cbP: nat, crP: nat, p0: nat, w: nat, ghost m: nat, ghost k: nat)
    returns (lumP: nat, p: nat)
    requires lum != cb && lum != cr && cb != cr && job.Valid() && job.img == img && job.g == g
    requires job.At(lum0, cbP, crP, p0, w, m, k) && job.Holds(lum, cb, cr, m, k) && w < 2
    modifies lum, cb, cr
    ensures lumP == job.o.lum + g.dstx + g.dstw && p == job.o.p + g.dstw
    ensures cbP == job.o.cb + g.Skip2() + g.Cells() - g.Leftover()
            && crP == job.o.cr + g.Skip2() + g.Cells() - g.Leftover()
    ensures job.Holds(lum, cb, cr, g.dstw, g.Cells())
  {
    lumP, p := lum0, p0;
    ColumnsLeft(g, w, m, k);
    if w > 0 {
      RowEdgeStep(lum, cb, cr, job, img, lumP, cbP, crP, p, m, k);
      p, lumP := p + 1, lumP + 1;
      assert m + 1 == g.dstw && k + 1 == g.Cells();
    } else {
      assert m == g.dstw && k == g.Cells();
    }
  }

  /** The walk along a single row, at the top or (`last`) at the bottom. */
  method WalkRow(lum: array<byte>, cb: array<byte>, cr: array<byte>, img: Bitmap, g: Geometry, o: Origin, last: bool,
                 ghost job: RowJob)
    returns (lumP: nat, cbP: nat, crP: nat, p: nat)
    requires lum != cb && lum != cr && cb != cr && job == RowJob(img, g, o, last, lum[..], cb[..], cr[..])
             && job.Valid()
    modifies lum, cb, cr
    ensures lumP == o.lum + g.dstx + g.dstw && p == o.p + g.dstw
    ensures cbP == o.cb + g.Skip2() + g.Cells() - g.Leftover() && crP == o.cr + g.Skip2() + g.Cells() - g.Leftover()
    ensures job.Holds(lum, cb, cr, g.dstw, g.Cells())
  {
    var w;
    ghost var m, k;
    lumP, cbP, crP, p, w, m, k := StartRow(lum, cb, cr, img, g, o, job);
    lumP, cbP, crP, p, w, m, k := WalkRowBlocks(lum, cb, cr, img, last, job, lumP, cbP, crP, p, w, m, k);
    lumP, p := FinishRow(lum, cb, cr, img, g, job, lumP, cbP, crP, p, w, m, k);
  }

  /** The branch for an odd first row. The luma and bitmap pointers reach the next row; the chroma pointers
      do exactly if no column is left over. */
  method BlendFirstRow(lum: array<byte>, cb: array<byte>, cr: array<byte>, img: Bitmap, g: Geometry, o: Origin,
                       ghost job: RowJob)
    returns (lumP: int, cbP: int, crP: int, p: int)
    requires lum != cb && lum != cr && cb != cr && job == RowJob(img, g, o, false, lum[..], cb[..], cr[..])
             && job.Valid()
    modifies lum, cb, cr
    ensures lumP == o.lum + g.wrap && p == o.p + g.wrap3
    ensures cbP == o.cb + g.cbWrap - g.Leftover() && crP == o.cr + g.crWrap - g.Leftover()
    ensures cbP == o.cb + g.cbWrap && crP == o.cr + g.crWrap <==> (g.dstw - g.dstx % 2) % 2 == 0
    ensures job.Holds(lum, cb, cr, g.dstw, g.Cells())
  {
    lumP, cbP, crP, p := WalkRow(lum, cb, cr, img, g, o, false, job);
    p := p + g.wrap3 - g.dstw;
    lumP := lumP + g.wrap - g.dstw - g.dstx;
    cbP := cbP + g.cbWrap - g.Cells() - g.Skip2();
    crP := crP + g.crWrap - g.Cells() - g.Skip2();
  }
}
