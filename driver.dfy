/**
 * The SSD1305 driver object: a packed framebuffer held in an array, the
 * "buffer changed" flag, and the SPI traffic to the controller. The level of the
 * data/command pin and the bytes sent over SPI are recorded as state, so each
 * method states exactly what it puts on the wire.
 */
module Driver {
  import opened Geometry
  import opened Framebuffer
  import opened Protocol
  import opened Raster

  /** Bytes of PageData sent once framebuffer bytes 0 .. i - 1 and the fillers that follow them are out. */
  function PageSent(i: nat): nat
    requires i <= NumBuffers
  {
    i + Blank * (if i < NumBuffers then i / Width else (NumBuffers - 1) / Width)
  }

  class Ssd1305 {
    /** Chip select, data/command and reset pin numbers. */
    const cs: int
    const dc: int
    const reset: int

    /** The framebuffer: pixel (x, y) is bit y % PixInPage of byte x + Width * (y / PixInPage). */
    const buffer: array<bv8>
    /** Whether the framebuffer was written since the last flush. */
    var bufferChanged: bool
    /** Current level of the data/command pin. */
    var dcLevel: Line
    /** Every byte sent to the controller so far, in order. */
    ghost var trace: seq<Transfer>

    ghost predicate Valid()
      reads this
    {
      buffer.Length == NumBuffers
    }

    /** SPI.transfer(cs, value, framing): one byte out, with the data/command pin at its current level. */
    method SpiTransfer(value: bv8, framing: Framing)
      modifies this`trace
      ensures trace == old(trace) + [Transfer(dcLevel, value, framing)]
    {
      trace := trace + [Transfer(dcLevel, value, framing)];
    }

    /**
     * Zeroes the framebuffer, then sends the configuration commands, clears the
     * controller's memory with TotalBuffers zero data bytes and switches the
     * display on.
     */
    constructor (cs: int, dc: int, reset: int)
      ensures Valid() && fresh(buffer)
      ensures this.cs == cs && this.dc == dc && this.reset == reset
      ensures buffer[..] == EmptyFrame() && !bufferChanged
      ensures trace == StartupStream() && dcLevel == Command
    {
      this.cs := cs;
      this.dc := dc;
      this.reset := reset;
      buffer := new bv8[NumBuffers];
      trace := [];
      dcLevel := Command;
      new;
      for i := 0 to NumBuffers
        modifies buffer
        invariant forall k | 0 <= k < i :: buffer[k] == 0
      {
        buffer[i] := 0;
      }
      bufferChanged := false;
      assert buffer[..] == EmptyFrame();

      dcLevel := Command;
      for k := 0 to |InitCommands()|
        modifies this`trace
        invariant dcLevel == Command && trace == Commands(InitCommands()[..k])
      {
        SpiTransfer(InitCommands()[k], Continue);
        CommandsSnoc(InitCommands(), k);
      }
      assert InitCommands()[..|InitCommands()|] == InitCommands();

      dcLevel := Data;
      for i := 0 to TotalBuffers
        modifies this`trace
        invariant dcLevel == Data
        invariant trace == Commands(InitCommands()) + DataRun(0, i)
      {
        SpiTransfer(0x00, Continue);
        DataRunSnoc(0, i);
      }

      dcLevel := Command;
      SpiTransfer(DisplayOn, Last);
    }

    /** setPixel(x, y, val): writes the pixel's bit into its byte exactly as the source does. */
    method SetPixel(x: int, y: int, val: int)
      requires Valid() && OnScreen(x, y) && (val == 0 || val == 1)
      modifies buffer
      ensures Valid()
      ensures buffer[..] == WithPixel(old(buffer[..]), x, y, val)
    {
      var i := x + Width * (y / PixInPage);
      BitMaskIsShift(y % PixInPage);
      if val != 0 {
        buffer[i] := buffer[i] | ((val as bv8) << (y % PixInPage));
      } else {
        buffer[i] := buffer[i] & (0xFF & ((val as bv8) << (y % PixInPage)));
      }
    }

    /**
     * draw(): when the framebuffer changed since the last flush, sends the whole
     * flush (FlushStream) and clears the flag; otherwise sends nothing.
     */
    method Draw()
      requires Valid()
      modifies this`bufferChanged, this`dcLevel, this`trace
      ensures Valid()
      ensures !bufferChanged
      ensures old(bufferChanged) ==> trace == old(trace) + FlushStream(buffer[..]) && dcLevel == Data
      ensures !old(bufferChanged) ==> trace == old(trace) && dcLevel == old(dcLevel)
    {
      if bufferChanged {
        dcLevel := Data;
        SendJunk();
        SendPages();
        assert trace == old(trace) + (DataRun(0, JunkBuffer) + PageData(buffer[..]));
        bufferChanged := false;
      }
    }

    /** The first loop of draw(): JunkBuffer zero data bytes. */
    method SendJunk()
      requires Valid() && dcLevel == Data
      modifies this`trace
      ensures Valid()
      ensures trace == old(trace) + DataRun(0, JunkBuffer)
    {
      ghost var t0 := trace;
      for i := 0 to JunkBuffer
        invariant trace == t0 + DataRun(0, i)
      {
        SpiTransfer(0, Continue);
        DataRunSnoc(0, i);
      }
    }

    /** The second loop of draw(): every framebuffer byte, with Blank 0xFF bytes after each page but the last. */
    method SendPages()
      requires Valid() && dcLevel == Data
      modifies this`trace
      ensures Valid()
      ensures trace == old(trace) + PageData(buffer[..])
    {
      ghost var t0, b := trace, buffer[..];
      ghost var s := PageData(b);
      for i := 0 to NumBuffers
        invariant PageSent(i) <= |s| && trace == t0 + s[..PageSent(i)]
      {
        PageStep(b, i);
        SpiTransfer(buffer[i], if i == NumBuffers - 1 then Last else Continue);
        if i % Width == Width - 1 && i != NumBuffers - 1 {
          ghost var t1 := trace;
          for j := 0 to Blank
            invariant trace == t1 + DataRun(255, j)
          {
            SpiTransfer(255, Continue);
            DataRunSnoc(255, j);
          }
        }
      }
      assert s[..PageSent(NumBuffers)] == s;
    }

    /** clear(): every pixel of the framebuffer off, and the framebuffer marked changed. */
    method Clear()
      requires Valid()
      modifies buffer, this`bufferChanged
      ensures Valid()
      ensures buffer[..] == EmptyFrame() && bufferChanged
    {
      for i := 0 to NumBuffers
        invariant forall k | 0 <= k < i :: buffer[k] == 0
      {
        buffer[i] := 0;
      }
      bufferChanged := true;
      assert buffer[..] == EmptyFrame();
    }

    /**
     * drawLine(x1, y1, x2, y2): sets, in order, the pixels LinePoints lists, and
     * marks the framebuffer changed. stepAt[k] is the outcome of the float test
     * `offset >= threshold` in iteration k.
     */
    method DrawLine(x1: int, y1: int, x2: int, y2: int, stepAt: seq<bool>)
      requires Valid() && |stepAt| == LineIterations(x1, y1, x2, y2)
      requires AllOnScreen(LinePoints(x1, y1, x2, y2, stepAt))
      modifies buffer, this`bufferChanged
      ensures Valid()
      ensures buffer[..] == Plot(old(buffer[..]), LinePoints(x1, y1, x2, y2, stepAt))
      ensures bufferChanged
    {
      var dy := y2 - y1;
      var dx := x2 - x1;
      if dx == 0 {
        var lo, hi := y1, y2;
        if y2 < y1 {
          lo, hi := y2, y1;
        }
        DrawColumn(x1, lo, hi);
      } else {
        var adjust := if dy == 0 || (dy > 0) == (dx > 0) then 1 else -1;
        if Abs(dy) <= Abs(dx) {
          var y := y1;
          var lo, hi := x1, x2;
          if x2 < x1 {
            lo, hi := x2, x1;
            y := y2;
          }
          DrawShallow(lo, hi, y, adjust, stepAt);
        } else {
          var x := x1;
          var lo, hi := y1, y2;
          if y2 < y1 {
            lo, hi := y2, y1;
            x := x2;
          }
          DrawSteep(lo, hi, x, adjust, stepAt);
        }
      }
      bufferChanged := true;
    }

    /** The vertical branch of drawLine: pixels (x, lo) up to (x, hi). */
    method DrawColumn(x: int, lo: int, hi: int)
      requires Valid() && lo <= hi && AllOnScreen(Column(x, lo, hi))
      modifies buffer
      ensures Valid()
      ensures buffer[..] == Plot(old(buffer[..]), Column(x, lo, hi))
    {
      ghost var target := Plot(buffer[..], Column(x, lo, hi));
      var y := lo;
      while y < hi + 1
        invariant y <= hi + 1
        invariant AllOnScreen(Column(x, y, hi))
        invariant Plot(buffer[..], Column(x, y, hi)) == target
        decreases hi + 1 - y
      {
        ghost var b, py := buffer[..], y;
        assert Column(x, y, hi)[0] == (x, y);
        SetPixel(x, y, 1);
        y := y + 1;
        ColumnRemaining(b, x, hi, py, y);
      }
      assert Column(x, y, hi) == [];
    }

    /** The |dy| <= |dx| branch of drawLine: one pixel per x from lo to hi, starting at row y0. */
    method DrawShallow(lo: int, hi: int, y0: int, adjust: int, stepAt: seq<bool>)
      requires Valid() && lo <= hi && |stepAt| == hi + 1 - lo
      requires AllOnScreen(Staircase(lo, y0, hi + 1 - lo, adjust, stepAt))
      modifies buffer
      ensures Valid()
      ensures buffer[..] == Plot(old(buffer[..]), Staircase(lo, y0, hi + 1 - lo, adjust, stepAt))
    {
      ghost var target := Plot(buffer[..], Staircase(lo, y0, hi + 1 - lo, adjust, stepAt));
      var y := y0;
      var x := lo;
      assert stepAt[x - lo..] == stepAt;
      while x < hi + 1
        invariant lo <= x <= hi + 1
        invariant AllOnScreen(Staircase(x, y, hi + 1 - x, adjust, stepAt[x - lo..]))
        invariant Plot(buffer[..], Staircase(x, y, hi + 1 - x, adjust, stepAt[x - lo..])) == target
        decreases hi + 1 - x
      {
        ghost var b, px, py := buffer[..], x, y;
        StairHead(lo, hi, adjust, stepAt, x, y);
        SetPixel(x, y, 1);
        if stepAt[x - lo] {
          y := y + adjust;
        }
        x := x + 1;
        ShallowRemaining(b, lo, hi, adjust, stepAt, px, py, x, y);
      }
      assert Staircase(x, y, hi + 1 - x, adjust, stepAt[x - lo..]) == [];
    }

    /** The |dy| > |dx| branch of drawLine: one pixel per y from lo to hi, starting at column x0. */
    method DrawSteep(lo: int, hi: int, x0: int, adjust: int, stepAt: seq<bool>)
      requires Valid() && lo <= hi && |stepAt| == hi + 1 - lo
      requires AllOnScreen(Transposed(Staircase(lo, x0, hi + 1 - lo, adjust, stepAt)))
      modifies buffer
      ensures Valid()
      ensures buffer[..] == Plot(old(buffer[..]), Transposed(Staircase(lo, x0, hi + 1 - lo, adjust, stepAt)))
    {
      ghost var target := Plot(buffer[..], Transposed(Staircase(lo, x0, hi + 1 - lo, adjust, stepAt)));
      var x := x0;
      var y := lo;
      assert stepAt[y - lo..] == stepAt;
      while y < hi + 1
        invariant lo <= y <= hi + 1
        invariant AllOnScreen(Transposed(Staircase(y, x, hi + 1 - y, adjust, stepAt[y - lo..])))
        invariant Plot(buffer[..], Transposed(Staircase(y, x, hi + 1 - y, adjust, stepAt[y - lo..]))) == target
        decreases hi + 1 - y
      {
        ghost var b, px, py := buffer[..], x, y;
        StairHead(lo, hi, adjust, stepAt, y, x);
        assert Transposed(Staircase(y, x, hi + 1 - y, adjust, stepAt[y - lo..]))[0] == (x, y);
        SetPixel(x, y, 1);
        if stepAt[y - lo] {
          x := x + adjust;
        }
        y := y + 1;
        SteepRemaining(b, lo, hi, adjust, stepAt, py, px, y, x);
      }
      assert Transposed(Staircase(y, x, hi + 1 - y, adjust, stepAt[y - lo..])) == [];
    }

    /** The eight setPixel calls of one drawCircle iteration, in the source's order. */
    method PlotOctants(x0: int, y0: int, u: int, v: int)
      requires Valid() && AllOnScreen(Octants(x0, y0, u, v))
      modifies buffer
      ensures Valid()
      ensures buffer[..] == Plot(old(buffer[..]), Octants(x0, y0, u, v))
    {
      ghost var b0 := buffer[..];
      var o := Octants(x0, y0, u, v);
      for j := 0 to 8
        invariant buffer[..] == Plot(b0, o[..j])
      {
        PlotPrefixStep(b0, o, j);
        SetPixel(o[j].0, o[j].1, 1);
      }
      assert o[..8] == o;
    }

    /**
     * drawCircle(x0, y0, radius): sets, in order, the pixels CirclePoints lists
     * (eight per loop iteration), and marks the framebuffer changed.
     */
    method DrawCircle(x0: int, y0: int, radius: int)
      requires Valid() && AllOnScreen(CirclePoints(x0, y0, radius))
      modifies buffer, this`bufferChanged
      ensures Valid()
      ensures buffer[..] == Plot(old(buffer[..]), CirclePoints(x0, y0, radius))
      ensures bufferChanged
    {
      ghost var target := Plot(buffer[..], CirclePoints(x0, y0, radius));
      var x := radius;
      var y := 0;
      var radiusError := 1 - x;
      while x >= y
        invariant AllOnScreen(Expand(x0, y0, OctantSteps(x, y, radiusError)))
        invariant Plot(buffer[..], Expand(x0, y0, OctantSteps(x, y, radiusError))) == target
        decreases x - y
      {
        ghost var b, u, v, e := buffer[..], x, y, radiusError;
        CircleOctantsOnScreen(x0, y0, x, y, radiusError);
        PlotOctants(x0, y0, x, y);
        y := y + 1;
        if radiusError < 0 {
          radiusError := radiusError + 2 * y + 1;
        } else {
          x := x - 1;
          radiusError := radiusError + 2 * (y - x + 1);
        }
        CircleRemaining(b, x0, y0, u, v, e, x, y, radiusError);
      }
      OctantStepsStart(x, y, radiusError);
      bufferChanged := true;
    }
  }

  /** After setting pixel (x, y) of the vertical branch, the rest of the column is still to plot. */
  lemma ColumnRemaining(b: seq<bv8>, x: int, hi: int, y: int, y': int)
    requires |b| == NumBuffers && y <= hi && y' == y + 1 && AllOnScreen(Column(x, y, hi))
    ensures OnScreen(x, y) && AllOnScreen(Column(x, y', hi))
    ensures Plot(WithPixel(b, x, y, 1), Column(x, y', hi)) == Plot(b, Column(x, y, hi))
  {
    assert Column(x, y, hi) == [(x, y)] + Column(x, y', hi);
    PlotCons(b, (x, y), Column(x, y', hi));
  }

  /** The first pair of the staircase still to plot from independent coordinate i is (i, d). */
  lemma StairHead(lo: int, hi: int, adjust: int, stepAt: seq<bool>, i: int, d: int)
    requires lo <= i <= hi && |stepAt| == hi + 1 - lo
    ensures Staircase(i, d, hi + 1 - i, adjust, stepAt[i - lo..])[0] == (i, d)
  {
  }

  /**
   * One iteration of drawLine's staircase loop from pair (i, d) to pair (i', d'):
   * the pair's pixel is set, and the rest of the staircase is still to plot.
   */
  lemma StairRemaining(lo: int, hi: int, adjust: int, stepAt: seq<bool>, i: int, d: int, i': int, d': int)
    requires lo <= i <= hi && |stepAt| == hi + 1 - lo
    requires i' == i + 1 && d' == (if stepAt[i - lo] then d + adjust else d)
    ensures Staircase(i, d, hi + 1 - i, adjust, stepAt[i - lo..]) ==
      [(i, d)] + Staircase(i', d', hi + 1 - i', adjust, stepAt[i' - lo..])
  {
    assert stepAt[i - lo..][1..] == stepAt[i' - lo..];
  }

  /** The shallow branch of drawLine: setting pixel (x, y) leaves the rest of the staircase to plot. */
  lemma ShallowRemaining(b: seq<bv8>, lo: int, hi: int, adjust: int, stepAt: seq<bool>, x: int, y: int, x': int, y': int)
    requires |b| == NumBuffers && lo <= x <= hi && |stepAt| == hi + 1 - lo
    requires x' == x + 1 && y' == (if stepAt[x - lo] then y + adjust else y)
    requires AllOnScreen(Staircase(x, y, hi + 1 - x, adjust, stepAt[x - lo..]))
    ensures OnScreen(x, y) && AllOnScreen(Staircase(x', y', hi + 1 - x', adjust, stepAt[x' - lo..]))
    ensures Plot(WithPixel(b, x, y, 1), Staircase(x', y', hi + 1 - x', adjust, stepAt[x' - lo..])) ==
      Plot(b, Staircase(x, y, hi + 1 - x, adjust, stepAt[x - lo..]))
  {
    StairRemaining(lo, hi, adjust, stepAt, x, y, x', y');
    PlotCons(b, (x, y), Staircase(x', y', hi + 1 - x', adjust, stepAt[x' - lo..]));
  }

  /** The steep branch of drawLine: setting pixel (x, y) leaves the rest of the transposed staircase to plot. */
  lemma SteepRemaining(b: seq<bv8>, lo: int, hi: int, adjust: int, stepAt: seq<bool>, y: int, x: int, y': int, x': int)
    requires |b| == NumBuffers && lo <= y <= hi && |stepAt| == hi + 1 - lo
    requires y' == y + 1 && x' == (if stepAt[y - lo] then x + adjust else x)
    requires AllOnScreen(Transposed(Staircase(y, x, hi + 1 - y, adjust, stepAt[y - lo..])))
    ensures OnScreen(x, y) && AllOnScreen(Transposed(Staircase(y', x', hi + 1 - y', adjust, stepAt[y' - lo..])))
    ensures Plot(WithPixel(b, x, y, 1), Transposed(Staircase(y', x', hi + 1 - y', adjust, stepAt[y' - lo..]))) ==
      Plot(b, Transposed(Staircase(y, x, hi + 1 - y, adjust, stepAt[y - lo..])))
  {
    var rest := Staircase(y', x', hi + 1 - y', adjust, stepAt[y' - lo..]);
    StairRemaining(lo, hi, adjust, stepAt, y, x, y', x');
    assert Transposed([(y, x)] + rest) == [(x, y)] + Transposed(rest);
    PlotCons(b, (x, y), Transposed(rest));
  }

  /** The eight points of the drawCircle iteration from pair (x, y) are among the points still to plot. */
  lemma CircleOctantsOnScreen(x0: int, y0: int, x: int, y: int, radiusError: int)
    requires x >= y && AllOnScreen(Expand(x0, y0, OctantSteps(x, y, radiusError)))
    ensures AllOnScreen(Octants(x0, y0, x, y))
  {
    var y' := y + 1;
    var x' := if radiusError < 0 then x else x - 1;
    var e' := if radiusError < 0 then radiusError + 2 * y' + 1 else radiusError + 2 * (y' - x' + 1);
    ExpandNext(x0, y0, x, y, radiusError, x', y', e');
    OnScreenSlice(Expand(x0, y0, OctantSteps(x, y, radiusError)), 0, 8);
    assert Expand(x0, y0, OctantSteps(x, y, radiusError))[0..8] == Octants(x0, y0, x, y);
  }

  /**
   * One drawCircle iteration from pair (u, v) to pair (x, y): plotting its eight
   * points and then the points of the iterations from (x, y) on plots the points
   * of the iterations from (u, v) on, and those still to plot stay on screen.
   */
  lemma CircleRemaining(b: seq<bv8>, x0: int, y0: int, u: int, v: int, e: int, x: int, y: int, radiusError: int)
    requires |b| == NumBuffers && u >= v && AllOnScreen(Expand(x0, y0, OctantSteps(u, v, e)))
    requires x == (if e < 0 then u else u - 1) && y == v + 1
    requires radiusError == if e < 0 then e + 2 * y + 1 else e + 2 * (y - x + 1)
    ensures AllOnScreen(Octants(x0, y0, u, v)) && AllOnScreen(Expand(x0, y0, OctantSteps(x, y, radiusError)))
    ensures Plot(Plot(b, Octants(x0, y0, u, v)), Expand(x0, y0, OctantSteps(x, y, radiusError))) ==
      Plot(b, Expand(x0, y0, OctantSteps(u, v, e)))
  {
    var all := Expand(x0, y0, OctantSteps(u, v, e));
    ExpandNext(x0, y0, u, v, e, x, y, radiusError);
    OnScreenSlice(all, 0, 8);
    OnScreenSlice(all, 8, |all|);
    assert all[..8] == Octants(x0, y0, u, v) && all[8..] == all[8..|all|];
    PlotAppend(b, Octants(x0, y0, u, v), all[8..]);
  }

  /**
   * One iteration of draw()'s page loop: byte i, framed Last only if it is the
   * final one, then the Blank filler bytes when it ends a page other than the last.
   */
  lemma PageStep(b: seq<bv8>, i: nat)
    requires |b| == NumBuffers && i < NumBuffers
    ensures PageSent(i + 1) <= |PageData(b)|
    ensures PageData(b)[..PageSent(i + 1)] ==
      PageData(b)[..PageSent(i)] + [Transfer(Data, b[i], if i == NumBuffers - 1 then Last else Continue)] +
      (if i % Width == Width - 1 && i != NumBuffers - 1 then DataRun(0xFF, Blank) else [])
  {
    var s := PageData(b);
    PageDataHolds(b, i);
    PageSentStep(i);
    var k := PageSent(i);
    if i % Width == Width - 1 && i != NumBuffers - 1 {
      PageFiller(b, i);
      assert s[..k + 1 + Blank] == s[..k] + [s[k]] + s[k + 1..k + 1 + Blank];
    } else {
      assert s[..k + 1] == s[..k] + [s[k]];
    }
  }

  /** After byte i, and its Blank fillers when it ends a page other than the last, PageSent(i + 1) bytes are out. */
  lemma PageSentStep(i: nat)
    requires i < NumBuffers
    ensures PageSent(i + 1) == PageSent(i) + 1 + (if i % Width == Width - 1 && i != NumBuffers - 1 then Blank else 0)
  {
  }

  /** The Blank bytes after byte i, when it ends a page other than the last, are 0xFF data framed Continue. */
  lemma PageFiller(b: seq<bv8>, i: nat)
    requires |b| == NumBuffers && i < NumBuffers - 1 && i % Width == Width - 1
    ensures PageSent(i) + 1 + Blank <= |PageData(b)|
    ensures PageData(b)[PageSent(i) + 1..PageSent(i) + 1 + Blank] == DataRun(0xFF, Blank)
  {
    var s := PageData(b);
    var k, p := PageSent(i), i / Width;
    assert k + 1 == p * Stride + Width;
    forall q | k + 1 <= q < k + 1 + Blank
      ensures s[q] == Transfer(Data, 0xFF, Continue)
    {
      PageDataFiller(b, p, q - k - 1);
    }
    var fill := s[k + 1..k + 1 + Blank];
    assert forall m | 0 <= m < Blank :: fill[m] == s[k + 1 + m];
  }

  /** A second draw() right after a first one sends nothing. */
  method RedrawSendsNothing(d: Ssd1305)
    requires d.Valid()
    modifies d`bufferChanged, d`dcLevel, d`trace
    ensures d.trace == old(d.trace) + (if old(d.bufferChanged) then FlushStream(d.buffer[..]) else [])
  {
    d.Draw();
    d.Draw();
  }

  /** clear() followed by draw() sends the all-dark flush, whatever was drawn before. */
  method ClearThenDraw(d: Ssd1305)
    requires d.Valid()
    modifies d.buffer, d`bufferChanged, d`dcLevel, d`trace
    ensures d.trace == old(d.trace) + FlushStream(EmptyFrame()) && !d.bufferChanged
  {
    d.Clear();
    d.Draw();
  }
}
