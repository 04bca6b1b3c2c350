/** What the chroma of a picture with a subtitle should be, by the pixels that each byte covers, and exactly when
    `blend_subrect` (amffmpeg/ffplay.c) gives that. */
module SubtitleChroma {
  import opened Bytes
  import opened SubtitleBlend
  import opened SubtitleRect
  import opened Wrappers

  /** Some pixels: how many, and the sums of their alphas and of their colours in one channel. */
  datatype Sum = Sum(count: nat, alpha: nat, color: nat) {
    predicate Of(n: nat) {
      count <= n && alpha <= 255 * count && color <= 255 * count
    }

    /** The mean of their colours, under a quarter of the sum of their alphas: of the four pixels of a chroma
        byte, those that are not there are clear. */
    function Mean(): (mix: Option<Mix>)
      requires Of(4)
      ensures mix.Some? ==> mix.value.Valid()
    {
      if count == 0 then None
      else Some(Mix(alpha / 4, color, if count == 1 then 0 else if count == 2 then 1 else 2))
    }
  }

  function One(c: Color, ch: Channel): (sum: Sum)
    ensures sum.Of(1)
  {
    Sum(1, c.a, if ch == U then c.u else c.v)
  }

  /** The pixel at row `r` and column `x` of the rectangle, if that is in it. */
  function PixelAt(s: Scene, ch: Channel, r: int, x: int): (sum: Sum)
    requires s.Valid()
    ensures sum.Of(1)
  {
    if 0 <= r < s.dsth && 0 <= x < s.g.dstw then
      PixelInside(s, r, x);
      One(s.img.At(Row(r, s.g.wrap3) + x), ch)
    else Sum(0, 0, 0)
  }

  /** It and its right neighbour. */
  function InRow(s: Scene, ch: Channel, r: int, x: int): (sum: Sum)
    requires s.Valid()
    ensures sum.Of(2)
  {
    var a, b := PixelAt(s, ch, r, x), PixelAt(s, ch, r, x + 1);
    Sum(a.count + b.count, a.alpha + b.alpha, a.color + b.color)
  }

  /** And the two below. */
  function InSquare(s: Scene, ch: Channel, r: int, x: int): (sum: Sum)
    requires s.Valid()
    ensures sum.Of(4)
  {
    var a, b := InRow(s, ch, r, x), InRow(s, ch, r + 1, x);
    Sum(a.count + b.count, a.alpha + b.alpha, a.color + b.color)
  }

  /** The mix of all pixels that the chroma byte at row `n` and column `c` covers: two by two of the picture, as far
      as they are in the rectangle. */
  function CoveredMix(s: Scene, ch: Channel, n: nat, c: nat): (mix: Option<Mix>)
    requires s.Valid()
    ensures mix.Some? ==> mix.value.Valid()
  {
    InSquare(s, ch, 2 * n - s.dsty, 2 * c - s.g.dstx).Mean()
  }

  /** What byte `i` of a chroma plane should hold in the end. This knows no order of blending and no pointers. */
  function Intended(s: Scene, ch: Channel, i: nat): byte
    requires s.Valid() && i < |Plane(s, ch)|
  {
    Blended(CoveredMix(s, ch, RowOf(i, Stride(s, ch)), ColumnOf(i, Stride(s, ch))), Plane(s, ch)[i])
  }

  lemma NoneInRow(s: Scene, ch: Channel, r: int, x: int)
    requires s.Valid() && !(0 <= r < s.dsth && -1 <= x < s.g.dstw)
    ensures InRow(s, ch, r, x) == Sum(0, 0, 0)
  {
  }

  /** What a row at `p` of the bitmap has for cell `k`. */
  function InCell(img: Bitmap, ch: Channel, p: nat, n: nat, odd: nat, k: nat): (sum: Sum)
    requires |img.palette| == 256 && n > 0 && odd <= 1 && k < Width2(n, odd) && p + n <= |img.pixels|
    ensures sum.Of(2)
  {
    var x := p + First(odd, k);
    if Two(n, odd, k) then
      var a, b := img.At(x), img.At(x + 1);
      Sum(2, a.a + b.a, Part(a, ch) + Part(b, ch))
    else One(img.At(x), ch)
  }

  lemma SomeInRow(s: Scene, ch: Channel, r: nat, k: nat, x: int, p: nat)
    requires s.Valid() && r < s.dsth && k < s.g.Cells() && x == 2 * k - s.g.Odd() && p == Row(r, s.g.wrap3)
    ensures p + s.g.dstw <= |s.img.pixels|
    ensures InRow(s, ch, r, x) == InCell(s.img, ch, p, s.g.dstw, s.g.Odd(), k)
  {
    PixelInside(s, r, 0);
  }

  /** What the code takes for cell `k` of cell row `n` in all, if no pointer is behind. */
  function TakenMix(s: Scene, ch: Channel, n: nat, k: int): (mix: Option<Mix>)
    requires s.Valid()
    ensures mix.Some? ==> mix.value.Valid()
  {
    if 2 * n + 1 == s.dsty then FirstMix(s, ch, s.dsth, n, k) else CellMix(s, ch, s.dsth, n, k)
  }

  /** Two columns of the row left at the bottom share the cell. */
  predicate BottomPair(s: Scene, n: nat, k: int)
    requires s.Valid()
  {
    s.dsty <= 2 * n && 2 * n + 1 == s.dsty + s.dsth && 0 <= k && Two(s.g.dstw, s.g.Odd(), k)
  }

  /** That is the mean of the covered pixels, but for those cells. */
  lemma TakenIsMean(s: Scene, ch: Channel, n: nat, k: int, r: int, x: int)
    requires s.Valid() && !BottomPair(s, n, k) && 2 * n == s.dsty + r && x == 2 * k - s.g.Odd()
    requires 0 <= k < s.g.Cells() <==> -1 <= x < s.g.dstw
    ensures TakenMix(s, ch, n, k) == InSquare(s, ch, r, x).Mean()
  {
    if !(0 <= k < s.g.Cells() && -1 <= r < s.dsth) {
      NoneInRow(s, ch, r, x);
      NoneInRow(s, ch, r + 1, x);
      NothingTaken(s, ch, n, k);
    } else if r == -1 {
      TopIsMean(s, ch, n, k, r, x);
    } else if r + 1 < s.dsth {
      PairIsMean(s, ch, n, k, r, x, Row(r, s.g.wrap3));
    } else {
      BottomIsMean(s, ch, n, k, r, x);
    }
  }

  lemma NothingTaken(s: Scene, ch: Channel, n: nat, k: int)
    requires s.Valid() && !(0 <= k < s.g.Cells() && -1 <= 2 * n - s.dsty < s.dsth)
    ensures TakenMix(s, ch, n, k) == None
  {
  }

  lemma CellColumn(g: Geometry, c: nat)
    requires g.dstw > 0
    ensures 2 * c - g.dstx == 2 * (c - g.Skip2()) - g.Odd()
    ensures 0 <= c - g.Skip2() < g.Cells() <==> -1 <= 2 * c - g.dstx < g.dstw
  {
  }

  lemma TopIsMean(s: Scene, ch: Channel, n: nat, k: nat, r: int, x: int)
    requires s.Valid() && k < s.g.Cells() && 2 * n == s.dsty + r && r == -1 && x == 2 * k - s.g.Odd()
    ensures FirstMix(s, ch, s.dsth, n, k) == InSquare(s, ch, r, x).Mean()
  {
    NoneInRow(s, ch, r, x);
    SomeInRow(s, ch, 0, k, x, 0);
  }

  lemma PairIsMean(s: Scene, ch: Channel, n: nat, k: nat, r: nat, x: int, p: nat)
    requires s.Valid() && k < s.g.Cells() && x == 2 * k - s.g.Odd()
    requires 2 * n == s.dsty + r && r + 1 < s.dsth && p == Row(r, s.g.wrap3)
    ensures CellMix(s, ch, s.dsth, n, k) == InSquare(s, ch, r, x).Mean()
  {
    SomeInRow(s, ch, r, k, x, p);
    SomeInRow(s, ch, r + 1, k, x, p + s.g.wrap3);
    PairMean(s.img, ch, p, s.g.wrap3, s.g.dstw, s.g.Odd(), k, InSquare(s, ch, r, x));
  }

  lemma PairMean(img: Bitmap, ch: Channel, p: nat, wrap3: nat, n: nat, odd: nat, k: nat, sum: Sum)
    requires |img.palette| == 256 && n > 0 && odd <= 1 && k < Width2(n, odd) && p + wrap3 + n <= |img.pixels|
    requires var a, b := InCell(img, ch, p, n, odd, k), InCell(img, ch, p + wrap3, n, odd, k);
             sum == Sum(a.count + b.count, a.alpha + b.alpha, a.color + b.color)
    ensures sum.Of(4) && sum.Mean() == Some(PairMix(img, p, wrap3, n, odd, k, ch))
  {
  }

  lemma BottomMean(s: Scene, ch: Channel, n: nat, k: nat, r: nat, x: int, p: nat)
    requires s.Valid() && k < s.g.Cells() && x == 2 * k - s.g.Odd()
    requires 2 * n == s.dsty + r && r + 1 == s.dsth && p == Row(r, s.g.wrap3)
    ensures p + s.g.dstw <= |s.img.pixels|
    ensures InSquare(s, ch, r, x).Mean() == Some(SingleMix(s.img, p, s.g.dstw, s.g.Odd(), k, ch, false))
    ensures CellMix(s, ch, s.dsth, n, k) == Some(SingleMix(s.img, p, s.g.dstw, s.g.Odd(), k, ch, true))
  {
    SomeInRow(s, ch, r, k, x, p);
    NoneInRow(s, ch, r + 1, x);
  }

  lemma BottomIsMean(s: Scene, ch: Channel, n: nat, k: nat, r: nat, x: int)
    requires s.Valid() && k < s.g.Cells() && x == 2 * k - s.g.Odd() && !Two(s.g.dstw, s.g.Odd(), k)
    requires 2 * n == s.dsty + r && r + 1 == s.dsth
    ensures CellMix(s, ch, s.dsth, n, k) == InSquare(s, ch, r, x).Mean()
  {
    BottomMean(s, ch, n, k, r, x, Row(r, s.g.wrap3));
  }

  /** For which rectangles the chroma comes out right: the pointers do not fall behind, or no row follows, and
      no row with two columns in a cell is left at the bottom. */
  predicate ChromaFits(s: Scene)
    requires s.Valid()
  {
    (Shift(s) == 0 || s.dsth == 1) && !((s.dsty + s.dsth) % 2 == 1 && s.g.dstw - s.g.Odd() >= 2)
  }

  lemma ChromaAsIntended(s: Scene, ch: Channel, i: nat)
    requires s.Valid() && i < |Plane(s, ch)| && ChromaFits(s)
    ensures CellSpec(s, ch, s.dsth, i) == Intended(s, ch, i)
  {
    var n, k := RowOf(i, Stride(s, ch)), ColumnOf(i, Stride(s, ch)) - s.g.Skip2();
    OneMix(s, ch, i, n, k);
    NoBottomPair(s, n, k);
    IntendedIsTaken(s, ch, i, n, k);
  }

  lemma IntendedIsTaken(s: Scene, ch: Channel, i: nat, n: nat, k: int)
    requires s.Valid() && i < |Plane(s, ch)| && !BottomPair(s, n, k)
    requires n == RowOf(i, Stride(s, ch)) && k == ColumnOf(i, Stride(s, ch)) - s.g.Skip2()
    ensures Intended(s, ch, i) == Blended(TakenMix(s, ch, n, k), Plane(s, ch)[i])
  {
    var c := ColumnOf(i, Stride(s, ch));
    CellColumn(s.g, c);
    TakenIsCovered(s, ch, n, k, c);
  }

  lemma TakenIsCovered(s: Scene, ch: Channel, n: nat, k: int, c: nat)
    requires s.Valid() && !BottomPair(s, n, k) && 2 * c - s.g.dstx == 2 * k - s.g.Odd()
    requires 0 <= k < s.g.Cells() <==> -1 <= 2 * c - s.g.dstx < s.g.dstw
    ensures TakenMix(s, ch, n, k) == CoveredMix(s, ch, n, c)
  {
    TakenIsMean(s, ch, n, k, 2 * n - s.dsty, 2 * c - s.g.dstx);
  }

  lemma NoBottomPair(s: Scene, n: nat, k: int)
    requires s.Valid() && ChromaFits(s)
    ensures !BottomPair(s, n, k)
  {
  }

  /** Without a pointer behind, a byte takes the mix of its own cell only. */
  lemma OneMix(s: Scene, ch: Channel, i: nat, n: nat, k: int)
    requires s.Valid() && i < |Plane(s, ch)| && (Shift(s) == 0 || s.dsth == 1)
    requires n == RowOf(i, Stride(s, ch)) && k == ColumnOf(i, Stride(s, ch)) - s.g.Skip2()
    ensures CellSpec(s, ch, s.dsth, i) == Blended(TakenMix(s, ch, n, k), Plane(s, ch)[i])
  {
    MixesUnshifted(s, ch, i, n, k);
    if 2 * n + 1 == s.dsty {
      assert CellAt(s, ch, s.dsth, i) == None;
    } else {
      assert FirstAt(s, ch, s.dsth, i) == None;
    }
  }

  lemma MixesUnshifted(s: Scene, ch: Channel, i: nat, n: nat, k: int)
    requires s.Valid() && (Shift(s) == 0 || s.dsth == 1)
    requires n == RowOf(i, Stride(s, ch)) && k == ColumnOf(i, Stride(s, ch)) - s.g.Skip2()
    ensures FirstAt(s, ch, s.dsth, i) == if 2 * n + 1 == s.dsty then FirstMix(s, ch, s.dsth, n, k) else None
    ensures CellAt(s, ch, s.dsth, i) == if 2 * n + 1 == s.dsty then None else CellMix(s, ch, s.dsth, n, k)
  {
    OneMixOnly(s, ch, n, k);
    if Shift(s) == 0 {
      assert CellAt(s, ch, s.dsth, i) == CellMix(s, ch, s.dsth, n, k);
    } else {
      var j := i + Shift(s);
      OneMixOnly(s, ch, RowOf(j, Stride(s, ch)), ColumnOf(j, Stride(s, ch)) - s.g.Skip2());
    }
  }

  /** A cell row takes a mix from an odd first row or from later ones, not from both. */
  lemma OneMixOnly(s: Scene, ch: Channel, n: nat, k: int)
    requires s.Valid()
    ensures if 2 * n + 1 == s.dsty then CellMix(s, ch, s.dsth, n, k) == None else FirstMix(s, ch, s.dsth, n, k) == None
    ensures s.dsty % 2 == 1 && s.dsth == 1 ==> CellMix(s, ch, s.dsth, n, k) == None
  {
  }

  /** For every other rectangle there is a picture that shows it. If the pointers fall behind, all its pixels are
      black and opaque, and the chroma plane is all ones: then the byte before the first cell of the second
      cell row is darkened, once more than it should be. */
  lemma ShiftedChroma(s: Scene, ch: Channel) returns (t: Scene, i: nat)
    requires s.Valid() && Shift(s) != 0 && s.dsth > 1
    ensures SameShape(s, t) && i < |Plane(t, ch)| && CellSpec(t, ch, t.dsth, i) != Intended(t, ch, i)
  {
    t := Darkened(s);
    assert SameShape(s, t) && AllBlack(t.img);
    i := ByteBefore(s, ch, (s.dsty + 1) / 2);
    ShiftedByte(t, ch, (s.dsty + 1) / 2, i);
  }

  function Darkened(s: Scene): Scene {
    s.(img := Bitmap(s.img.pixels, seq(256, _ => Color(0, 0, 0, 255))), cb := seq(|s.cb|, _ => 255),
       cr := seq(|s.cr|, _ => 255))
  }

  /** The byte before the first cell of cell row `n`. */
  lemma ByteBefore(s: Scene, ch: Channel, n: nat) returns (i: nat)
    requires s.Valid() && 0 < n && 2 * n < s.dsty + s.dsth
    ensures i + 1 == Row(n, Stride(s, ch)) + s.g.Skip2() && i < |Plane(s, ch)|
  {
    RowInside(n, (s.dsty + s.dsth + 1) / 2, Stride(s, ch));
    RowMono(1, n, Stride(s, ch));
    i := Row(n, Stride(s, ch)) + s.g.Skip2() - 1;
  }

  lemma ShiftedByte(s: Scene, ch: Channel, n: nat, i: nat)
    requires s.Valid() && Shift(s) != 0 && s.dsth > 1 && 2 * n == s.dsty + 1 && AllBlack(s.img)
    requires i + 1 == Row(n, Stride(s, ch)) + s.g.Skip2() && i < |Plane(s, ch)| && Plane(s, ch)[i] == 255
    ensures CellSpec(s, ch, s.dsth, i) < Intended(s, ch, i)
  {
    var m, k := RowOf(i, Stride(s, ch)), ColumnOf(i, Stride(s, ch)) - s.g.Skip2();
    CellAfter(s, ch, n, i);
    DarkCell(s, ch, n);
    DarkFirst(s, ch, m, k);
    OwnMix(s, ch, n, i, m, k);
    DarkTwice(CellMix(s, ch, s.dsth, n, 0), FirstMix(s, ch, s.dsth, m, k));
  }

  lemma DarkTwice(cell: Option<Mix>, first: Option<Mix>)
    requires Dark(cell) && cell.Some? && Dark(first) && (first.Some? ==> first.value.alpha < 128)
    ensures Blended(cell, Blended(first, 255)) < Blended(first, 255)
  {
    DarkOnce(first, 255);
    DarkOnce(cell, Blended(first, 255));
  }

  lemma OwnMix(s: Scene, ch: Channel, n: nat, i: nat, m: nat, k: int)
    requires s.Valid() && 2 * n == s.dsty + 1 && i + 1 == Row(n, Stride(s, ch)) + s.g.Skip2() && i < |Plane(s, ch)|
    requires m == RowOf(i, Stride(s, ch)) && k == ColumnOf(i, Stride(s, ch)) - s.g.Skip2()
    ensures Intended(s, ch, i) == Blended(FirstMix(s, ch, s.dsth, m, k), Plane(s, ch)[i])
  {
    CellBefore(s, ch, n, i);
    MixBefore(s, ch, n, m, k);
    IntendedIsTaken(s, ch, i, m, k);
  }

  lemma MixBefore(s: Scene, ch: Channel, n: nat, m: nat, k: int)
    requires s.Valid() && 2 * n == s.dsty + 1 && (m + 1 == n || (m == n && k == -1))
    ensures !BottomPair(s, m, k) && TakenMix(s, ch, m, k) == FirstMix(s, ch, s.dsth, m, k)
  {
  }

  ghost predicate SameShape(s: Scene, t: Scene) {
    t.Valid() && t.g == s.g && t.dsty == s.dsty && t.dsth == s.dsth
    && |t.lum| == |s.lum| && |t.cb| == |s.cb| && |t.cr| == |s.cr| && t.img.pixels == s.img.pixels
  }

  /** The byte before the first cell of cell row `n` takes the mix of that cell ... */
  lemma CellAfter(s: Scene, ch: Channel, n: nat, i: nat)
    requires s.Valid() && Shift(s) != 0 && i + 1 == Row(n, Stride(s, ch)) + s.g.Skip2()
    ensures CellAt(s, ch, s.dsth, i) == CellMix(s, ch, s.dsth, n, 0)
  {
    Segment(i + 1, Stride(s, ch), n, s.g.Skip2(), s.g.Cells());
  }

  /** ... while its own place is in no cell, or in the row before. */
  lemma CellBefore(s: Scene, ch: Channel, n: nat, i: nat)
    requires s.Valid() && n > 0 && i + 1 == Row(n, Stride(s, ch)) + s.g.Skip2()
    ensures RowOf(i, Stride(s, ch)) == n - 1
            || (RowOf(i, Stride(s, ch)) == n && ColumnOf(i, Stride(s, ch)) - s.g.Skip2() == -1)
  {
    var stride := Stride(s, ch);
    if s.g.Skip2() > 0 {
      Segment(i, stride, n, s.g.Skip2() - 1, 1);
    } else {
      RowInside(n - 1, n, stride);
      Segment(i, stride, n - 1, stride - 1, 1);
    }
  }

  ghost predicate Dark(mix: Option<Mix>) {
    mix.Some? ==> mix.value.Valid() && mix.value.sum == 0 && 0 < mix.value.alpha
  }

  ghost predicate AllBlack(img: Bitmap) {
    |img.palette| == 256 && forall x :: 0 <= x < 256 ==> img.palette[x] == Color(0, 0, 0, 255)
  }

  lemma DarkCell(s: Scene, ch: Channel, n: nat)
    requires s.Valid() && s.dsth > 1 && 2 * n == s.dsty + 1 && AllBlack(s.img)
    ensures CellMix(s, ch, s.dsth, n, 0).Some? && Dark(CellMix(s, ch, s.dsth, n, 0))
  {
    PixelInside(s, 1, 0);
    if s.dsth > 2 {
      PairRowsInside(s, 1);
    }
  }

  lemma DarkFirst(s: Scene, ch: Channel, m: nat, k: int)
    requires s.Valid() && AllBlack(s.img)
    ensures var first := FirstMix(s, ch, s.dsth, m, k);
            Dark(first) && (first.Some? ==> first.value.alpha < 128)
  {
    PixelInside(s, 0, 0);
  }

  lemma DarkOnce(mix: Option<Mix>, was: byte)
    requires Dark(mix) && 0 < was
    ensures mix.Some? ==> Blended(mix, was) < was
    ensures mix.Some? && mix.value.alpha < 128 && was == 255 ==> 0 < Blended(mix, was)
  {
    if mix.Some? {
      var a, p := mix.value.alpha, Summands(mix.value.s);
      MulMono(255 - a, 254, was * p);
      assert was * p * (255 - a) < was * (255 * p);
      Smaller(was * p * (255 - a), 255 * p, was);
      if a < 128 && was == 255 {
        MulMono(1, 255 - a, 255 * p);
        QuotientMono(255 * p, 255 * p * (255 - a), 255 * p);
      }
    }
  }

  lemma Smaller(x: nat, q: nat, y: nat)
    requires q > 0 && x < y * q
    ensures x / q < y
  {
    var d := x / q;
    assert x == d * q + x % q;
    MulStep(y - 1, d, q);
  }

  /** If two columns share a cell of a row left at the bottom, all pixels are of one opaque colour, and the
      planes are zero: then the colour of only one of the two is blended in. */
  lemma BottomChroma(s: Scene, ch: Channel) returns (t: Scene, i: nat)
    requires s.Valid() && Shift(s) == 0 && (s.dsty + s.dsth) % 2 == 1 && s.g.dstw - s.g.Odd() >= 2
    ensures SameShape(s, t) && i < |Plane(t, ch)| && CellSpec(t, ch, t.dsth, i) != Intended(t, ch, i)
  {
    t := Brightened(s);
    assert SameShape(s, t) && AllBright(t.img);
    var n := (s.dsty + s.dsth) / 2;
    i := CellPlace(s, ch, n, s.g.Odd());
    BottomByte(t, ch, n, i, s.g.Odd(), s.dsth - 1, Row(s.dsth - 1, s.g.wrap3));
  }

  function Brightened(s: Scene): Scene {
    s.(img := Bitmap(s.img.pixels, seq(256, _ => BRIGHT)), cb := seq(|s.cb|, _ => 0), cr := seq(|s.cr|, _ => 0))
  }

  const BRIGHT := Color(0, 255, 255, 255)

  ghost predicate AllBright(img: Bitmap) {
    |img.palette| == 256 && forall x :: 0 <= x < 256 ==> img.palette[x] == BRIGHT
  }

  lemma CellPlace(s: Scene, ch: Channel, n: nat, k: nat) returns (i: nat)
    requires s.Valid() && 2 * n < s.dsty + s.dsth && k < s.g.Cells()
    ensures i < |Plane(s, ch)| && RowOf(i, Stride(s, ch)) == n && ColumnOf(i, Stride(s, ch)) == s.g.Skip2() + k
  {
    i := Row(n, Stride(s, ch)) + s.g.Skip2() + k;
    RowInside(n, (s.dsty + s.dsth + 1) / 2, Stride(s, ch));
    Segment(i, Stride(s, ch), n, s.g.Skip2(), s.g.Cells());
  }

  lemma BottomByte(s: Scene, ch: Channel, n: nat, i: nat, k: nat, r: nat, p: nat)
    requires s.Valid() && Shift(s) == 0 && k == s.g.Odd() && k + 2 <= s.g.dstw && AllBright(s.img)
    requires 2 * n == s.dsty + r && r + 1 == s.dsth && p == Row(r, s.g.wrap3) && i < |Plane(s, ch)|
             && Plane(s, ch)[i] == 0
    requires RowOf(i, Stride(s, ch)) == n && ColumnOf(i, Stride(s, ch)) == s.g.Skip2() + k
    ensures CellSpec(s, ch, s.dsth, i) == 63 && Intended(s, ch, i) == 127
  {
    OneMix(s, ch, i, n, k);
    CellColumn(s.g, s.g.Skip2() + k);
    BottomMean(s, ch, n, k, r, k, p);
    BrightMix(s.img, ch, p, s.g.dstw, k);
  }

  lemma BrightMix(img: Bitmap, ch: Channel, p: nat, n: nat, odd: nat)
    requires AllBright(img) && odd <= 1 && odd + 2 <= n && p + n <= |img.pixels|
    ensures SingleMix(img, p, n, odd, odd, ch, true).Over(0) == 63
            && SingleMix(img, p, n, odd, odd, ch, false).Over(0) == 127
  {
  }

  /** So the chroma of every picture of this shape comes out as intended exactly in these cases. */
  lemma ChromaIsIntendedIff(s: Scene, ch: Channel)
    requires s.Valid()
    ensures ChromaFits(s)
            <==> forall t, i :: SameShape(s, t) && 0 <= i < |Plane(t, ch)|
                                ==> CellSpec(t, ch, t.dsth, i) == Intended(t, ch, i)
  {
    if ChromaFits(s) {
      forall t, i | SameShape(s, t) && 0 <= i < |Plane(t, ch)|
        ensures CellSpec(t, ch, t.dsth, i) == Intended(t, ch, i)
      {
        ChromaAsIntended(t, ch, i);
      }
    } else if Shift(s) != 0 && s.dsth > 1 {
      var t, i := ShiftedChroma(s, ch);
    } else {
      var t, i := BottomChroma(s, ch);
    }
  }
}
