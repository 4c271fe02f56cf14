/**
 * The packed framebuffer as a value: pixel (x, y) is bit y % PixInPage of byte
 * x + Width * (y / PixInPage). The driver class keeps this sequence in an array;
 * its methods are specified by the functions here.
 */
module Framebuffer {
  import opened Geometry

  type Point = (int, int)

  predicate OnScreen(x: int, y: int) {
    0 <= x < Width && 0 <= y < Height
  }

  predicate AllOnScreen(pts: seq<Point>) {
    forall k :: 0 <= k < |pts| ==> OnScreen(pts[k].0, pts[k].1)
  }

  /** Byte that holds pixel (x, y): column x of page y / PixInPage. */
  function PixelIndex(x: int, y: int): (i: nat)
    requires OnScreen(x, y)
    ensures i < NumBuffers
  {
    x + Width * (y / PixInPage)
  }

  function Pow2(k: nat): nat {
    if k == 0 then 1 else 2 * Pow2(k - 1)
  }

  /** The single-bit mask `1 << k` for bit position k of a byte. */
  function BitMask(k: nat): bv8
    requires k < PixInPage
  {
    if k == 0 then 1 else if k == 1 then 2 else if k == 2 then 4 else if k == 3 then 8
    else if k == 4 then 16 else if k == 5 then 32 else if k == 6 then 64 else 128
  }

  /** The mask's integer value is a power of two below 256, so the source's int shift fits in a uint8_t unchanged. */
  lemma BitMaskValue(k: nat)
    requires k < PixInPage
    ensures BitMask(k) as int == Pow2(k) && Pow2(k) < 256
  {
    assert k == 0 || k == 1 || k == 2 || k == 3 || k == 4 || k == 5 || k == 6 || k == 7;
  }

  lemma BitMaskIsShift(k: nat)
    requires k < PixInPage
    ensures BitMask(k) == (1 as bv8) << k
    ensures (0 as bv8) << k == 0
  {
    assert k == 0 || k == 1 || k == 2 || k == 3 || k == 4 || k == 5 || k == 6 || k == 7;
  }

  /** Bit j of byte v. */
  predicate Bit(v: bv8, j: nat)
    requires j < PixInPage
  {
    v & BitMask(j) != 0
  }

  /** Whether pixel (x, y) is lit in framebuffer b. */
  predicate Pixel(b: seq<bv8>, x: int, y: int)
    requires |b| == NumBuffers && OnScreen(x, y)
  {
    Bit(b[PixelIndex(x, y)], y % PixInPage)
  }

  /** The framebuffer with every byte zero. */
  function EmptyFrame(): (b: seq<bv8>)
    ensures |b| == NumBuffers
  {
    seq(NumBuffers, _ => 0 as bv8)
  }

  /** The value of `val << k` for val 0 or 1 (BitMaskIsShift). */
  function Shifted(val: int, k: nat): bv8
    requires (val == 0 || val == 1) && k < PixInPage
  {
    if val == 0 then 0 else BitMask(k)
  }

  /**
   * The framebuffer after setPixel(x, y, val), as the source writes it: for a
   * non-zero val the byte is OR-ed with `val << (y % 8)`; for val == 0 it is
   * AND-ed with `0xFF & (val << (y % 8))`.
   */
  function WithPixel(b: seq<bv8>, x: int, y: int, val: int): (r: seq<bv8>)
    requires |b| == NumBuffers && OnScreen(x, y) && (val == 0 || val == 1)
    ensures |r| == NumBuffers
  {
    var i := PixelIndex(x, y);
    var shifted := Shifted(val, y % PixInPage);
    if val != 0 then b[i := b[i] | shifted] else b[i := b[i] & (0xFF & shifted)]
  }

  /** Setting a pixel sets bit y % 8 of its byte; every other bit of every byte is kept. */
  lemma SetPixelBits(b: seq<bv8>, x: int, y: int)
    requires |b| == NumBuffers && OnScreen(x, y)
    ensures forall k, j :: 0 <= k < NumBuffers && 0 <= j < PixInPage ==>
      Bit(WithPixel(b, x, y, 1)[k], j) == if k == PixelIndex(x, y) && j == y % PixInPage then true else Bit(b[k], j)
  {
    var i, r := PixelIndex(x, y), WithPixel(b, x, y, 1);
    BitMaskIsShift(y % PixInPage);
    forall k, j | 0 <= k < NumBuffers && 0 <= j < PixInPage
      ensures Bit(r[k], j) == if k == i && j == y % PixInPage then true else Bit(b[k], j)
    {
      if k == i {
        OrBit(b[i], y % PixInPage, j);
      }
    }
  }

  /** OR-ing in the single bit k sets bit k and keeps every other bit. */
  lemma OrBit(v: bv8, k: nat, j: nat)
    requires k < PixInPage && j < PixInPage
    ensures Bit(v | BitMask(k), j) == (j == k || Bit(v, j))
  {
  }

  /** After setPixel(x, y, 1), (x, y) reads lit and every other pixel reads as before. */
  lemma SetPixelReads(b: seq<bv8>, x: int, y: int)
    requires |b| == NumBuffers && OnScreen(x, y)
    ensures forall u, v | OnScreen(u, v) :: Pixel(WithPixel(b, x, y, 1), u, v) == ((u, v) == (x, y) || Pixel(b, u, v))
  {
    SetPixelBits(b, x, y);
    forall u, v | OnScreen(u, v)
      ensures Pixel(WithPixel(b, x, y, 1), u, v) == ((u, v) == (x, y) || Pixel(b, u, v))
    {
      SamePixelBit(x, y, u, v);
    }
  }

  /** Two on-screen pixels share both byte and bit position only if they are the same pixel. */
  lemma SamePixelBit(x: int, y: int, u: int, v: int)
    requires OnScreen(x, y) && OnScreen(u, v)
    ensures (PixelIndex(x, y) == PixelIndex(u, v) && y % PixInPage == v % PixInPage) <==> (x, y) == (u, v)
  {
  }

  /**
   * As written, setPixel(x, y, 0) zeroes the whole byte that holds (x, y), since
   * `0xFF & (0 << k)` is 0: all PixInPage pixels of that column of the page go dark.
   */
  lemma ClearPixelWipesByte(b: seq<bv8>, x: int, y: int)
    requires |b| == NumBuffers && OnScreen(x, y)
    ensures WithPixel(b, x, y, 0) == b[PixelIndex(x, y) := 0]
    ensures forall v | 0 <= v < Height && v / PixInPage == y / PixInPage :: !Pixel(WithPixel(b, x, y, 0), x, v)
  {
    BitMaskIsShift(y % PixInPage);
  }

  /** A concrete case: lighting (0, 0) and (0, 1), then clearing (0, 0), also clears (0, 1). */
  lemma ClearWipesNeighbour()
    ensures var lit := WithPixel(WithPixel(EmptyFrame(), 0, 0, 1), 0, 1, 1);
            Pixel(lit, 0, 1) && !Pixel(WithPixel(lit, 0, 0, 0), 0, 1)
  {
    var one := WithPixel(EmptyFrame(), 0, 0, 1);
    var lit := WithPixel(one, 0, 1, 1);
    SetPixelReads(one, 0, 1);
    ClearPixelWipesByte(lit, 0, 0);
  }

  /** setPixel as intended: clearing AND-s the byte with the complement of the single-bit mask. */
  function WithPixelIntended(b: seq<bv8>, x: int, y: int, val: int): (r: seq<bv8>)
    requires |b| == NumBuffers && OnScreen(x, y) && (val == 0 || val == 1)
    ensures |r| == NumBuffers
  {
    var i := PixelIndex(x, y);
    var m := BitMask(y % PixInPage);
    if val != 0 then b[i := b[i] | m] else b[i := b[i] & !m]
  }

  /** A write followed by a read of the same pixel returns the written value; all other pixels keep theirs. */
  lemma IntendedWriteReads(b: seq<bv8>, x: int, y: int, val: int)
    requires |b| == NumBuffers && OnScreen(x, y) && (val == 0 || val == 1)
    ensures Pixel(WithPixelIntended(b, x, y, val), x, y) == (val == 1)
    ensures forall u, v | OnScreen(u, v) && (u, v) != (x, y) ::
      Pixel(WithPixelIntended(b, x, y, val), u, v) == Pixel(b, u, v)
  {
    var i, k := PixelIndex(x, y), y % PixInPage;
    OrBit(b[i], k, k);
    AndNotBit(b[i], k, k);
    forall u, v | OnScreen(u, v) && (u, v) != (x, y)
      ensures Pixel(WithPixelIntended(b, x, y, val), u, v) == Pixel(b, u, v)
    {
      IntendedKeepsOthers(b, x, y, val, u, v);
    }
  }

  lemma IntendedKeepsOthers(b: seq<bv8>, x: int, y: int, val: int, u: int, v: int)
    requires |b| == NumBuffers && OnScreen(x, y) && (val == 0 || val == 1) && OnScreen(u, v) && (u, v) != (x, y)
    ensures Pixel(WithPixelIntended(b, x, y, val), u, v) == Pixel(b, u, v)
  {
    var i, j := PixelIndex(x, y), PixelIndex(u, v);
    if i == j {
      SamePixelBit(x, y, u, v);
      OrBit(b[i], y % PixInPage, v % PixInPage);
      AndNotBit(b[i], y % PixInPage, v % PixInPage);
    }
  }

  /** AND-ing with the complement of the single bit k clears bit k and keeps every other bit. */
  lemma AndNotBit(v: bv8, k: nat, j: nat)
    requires k < PixInPage && j < PixInPage
    ensures Bit(v & !BitMask(k), j) == (j != k && Bit(v, j))
  {
  }

  /** Setting a pixel is the same under the source's and the intended definition. */
  lemma IntendedAgreesOnSet(b: seq<bv8>, x: int, y: int)
    requires |b| == NumBuffers && OnScreen(x, y)
    ensures WithPixelIntended(b, x, y, 1) == WithPixel(b, x, y, 1)
  {
    BitMaskIsShift(y % PixInPage);
  }

  /** The framebuffer after setting every pixel of pts, in order. */
  function Plot(b: seq<bv8>, pts: seq<Point>): (r: seq<bv8>)
    requires |b| == NumBuffers && AllOnScreen(pts)
    ensures |r| == NumBuffers
    decreases |pts|
  {
    if pts == [] then b
    else
      var p := pts[|pts| - 1];
      WithPixel(Plot(b, pts[..|pts| - 1]), p.0, p.1, 1)
  }

  lemma PlotSnoc(b: seq<bv8>, pts: seq<Point>, x: int, y: int)
    requires |b| == NumBuffers && AllOnScreen(pts) && OnScreen(x, y)
    ensures AllOnScreen(pts + [(x, y)])
    ensures Plot(b, pts + [(x, y)]) == WithPixel(Plot(b, pts), x, y, 1)
  {
    assert (pts + [(x, y)])[..|pts|] == pts;
  }

  /** Plotting one more point of pts after its first k points. */
  lemma PlotPrefixStep(b: seq<bv8>, pts: seq<Point>, k: nat)
    requires |b| == NumBuffers && AllOnScreen(pts) && k < |pts|
    ensures AllOnScreen(pts[..k]) && AllOnScreen(pts[..k + 1]) && OnScreen(pts[k].0, pts[k].1)
    ensures Plot(b, pts[..k + 1]) == WithPixel(Plot(b, pts[..k]), pts[k].0, pts[k].1, 1)
  {
    assert pts[..k + 1][..k] == pts[..k];
  }

  /** Plotting p and then q is plotting p + q. */
  lemma {:induction false} PlotAppend(b: seq<bv8>, p: seq<Point>, q: seq<Point>)
    requires |b| == NumBuffers && AllOnScreen(p) && AllOnScreen(q)
    ensures AllOnScreen(p + q)
    ensures Plot(b, p + q) == Plot(Plot(b, p), q)
    decreases |q|
  {
    if q == [] {
      assert p + q == p;
    } else {
      var init, last := q[..|q| - 1], q[|q| - 1];
      assert q == init + [last];
      assert p + q == (p + init) + [last];
      PlotAppend(b, p, init);
      PlotSnoc(b, p + init, last.0, last.1);
      PlotSnoc(Plot(b, p), init, last.0, last.1);
    }
  }

  /** Plotting [p] + q is setting pixel p and then plotting q. */
  lemma PlotCons(b: seq<bv8>, p: Point, q: seq<Point>)
    requires |b| == NumBuffers && AllOnScreen([p] + q)
    ensures OnScreen(p.0, p.1) && AllOnScreen(q)
    ensures Plot(b, [p] + q) == Plot(WithPixel(b, p.0, p.1, 1), q)
  {
    assert ([p] + q)[0] == p;
    assert forall k | 0 <= k < |q| :: q[k] == ([p] + q)[k + 1];
    PlotSnoc(b, [], p.0, p.1);
    assert [] + [p] == [p];
    PlotAppend(b, [p], q);
  }

  /** Every slice of an on-screen point list is on screen. */
  lemma OnScreenSlice(pts: seq<Point>, i: nat, j: nat)
    requires AllOnScreen(pts) && i <= j <= |pts|
    ensures AllOnScreen(pts[i..j])
  {
  }

  /** Plotting lights exactly the plotted points and leaves every other pixel as it was. */
  lemma {:induction false} PlotReads(b: seq<bv8>, pts: seq<Point>)
    requires |b| == NumBuffers && AllOnScreen(pts)
    ensures forall u, v | OnScreen(u, v) :: Pixel(Plot(b, pts), u, v) == ((u, v) in pts || Pixel(b, u, v))
    decreases |pts|
  {
    if pts != [] {
      var init, p := pts[..|pts| - 1], pts[|pts| - 1];
      assert pts == init + [p];
      PlotReads(b, init);
      SetPixelReads(Plot(b, init), p.0, p.1);
    }
  }

  /** A cleared framebuffer has no lit pixel. */
  lemma EmptyFrameDark()
    ensures forall u, v | OnScreen(u, v) :: !Pixel(EmptyFrame(), u, v)
  {
  }
}
