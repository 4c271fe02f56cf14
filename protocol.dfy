/**
 * The bytes the driver clocks out over SPI: each carries the level of the
 * data/command select line and the SPI framing (more bytes follow, or last byte).
 * FlushStream is the reference layout of what draw() sends; StartupStream is what
 * the constructor sends.
 */
module Protocol {
  import opened Geometry

  /** Level of the data/command select line while a byte is sent. */
  datatype Line = Command | Data

  /** SPI_CONTINUE or SPI_LAST. */
  datatype Framing = Continue | Last

  datatype Transfer = Transfer(line: Line, value: bv8, framing: Framing)

  /** n data bytes of value v, all framed Continue. */
  function DataRun(v: bv8, n: nat): seq<Transfer> {
    seq(n, _ => Transfer(Data, v, Continue))
  }

  /** The bytes of bs as data, all framed Continue. */
  function Continues(bs: seq<bv8>): seq<Transfer> {
    seq(|bs|, k requires 0 <= k < |bs| => Transfer(Data, bs[k], Continue))
  }

  /**
   * The pixel part of a flush: the framebuffer page by page, Blank 0xFF filler
   * bytes after every page but the last, and only the very last byte framed Last.
   */
  function PageData(b: seq<bv8>): (s: seq<Transfer>)
    requires |b| > 0
    ensures |s| == |b| + Blank * ((|b| - 1) / Width)
    decreases |b|
  {
    if |b| <= Width then Continues(b[..|b| - 1]) + [Transfer(Data, b[|b| - 1], Last)]
    else Continues(b[..Width]) + DataRun(0xFF, Blank) + PageData(b[Width..])
  }

  /** Everything one flush of framebuffer b sends: the zero preamble, then the pages. */
  function FlushStream(b: seq<bv8>): (s: seq<Transfer>)
    requires |b| == NumBuffers
    ensures |s| == TotalBuffers && s[TotalBuffers - 1] == Transfer(Data, b[NumBuffers - 1], Last)
  {
    PageDataHolds(b, NumBuffers - 1);
    DataRun(0, JunkBuffer) + PageData(b)
  }

  /** A page plus its filler is Width + Blank bytes long. */
  const Stride: nat := Width + Blank

  /** Position of column c of page p in PageData: p * Stride + c, counted page by page. */
  function PagePos(p: nat, c: nat): nat {
    if p == 0 then c else Stride + PagePos(p - 1, c)
  }

  /** Framebuffer index of column c of page p: p * Width + c, counted page by page. */
  function PageByte(p: nat, c: nat): nat {
    if p == 0 then c else Width + PageByte(p - 1, c)
  }

  lemma {:induction false} PagePosValue(p: nat, c: nat)
    ensures PagePos(p, c) == p * Stride + c && PageByte(p, c) == p * Width + c
  {
    if p > 0 {
      PagePosValue(p - 1, c);
    }
  }

  /**
   * PageData position by position: column c (c < Stride) of page p carries the
   * framebuffer byte of that page and column when c < Width, and is 0xFF filler
   * otherwise; only the final byte is framed Last.
   */
  lemma {:induction false} PageDataAt(b: seq<bv8>, p: nat, c: nat)
    requires |b| > 0 && c < Stride && PagePos(p, c) < |PageData(b)|
    ensures c < Width ==> PageByte(p, c) < |b|
    ensures PageData(b)[PagePos(p, c)] ==
      if c < Width then
        Transfer(Data, b[PageByte(p, c)], if PagePos(p, c) == |PageData(b)| - 1 then Last else Continue)
      else Transfer(Data, 0xFF, Continue)
    decreases p
  {
    var s := PageData(b);
    if |b| <= Width {
      PagePosValue(p, c);
      assert p == 0;
      assert s == Continues(b[..|b| - 1]) + [Transfer(Data, b[|b| - 1], Last)];
    } else {
      var rest := b[Width..];
      assert s == Continues(b[..Width]) + DataRun(0xFF, Blank) + PageData(rest);
      if p == 0 {
        if c < Width {
          assert s[c] == Continues(b[..Width])[c];
        } else {
          assert s[c] == DataRun(0xFF, Blank)[c - Width];
        }
      } else {
        PageDataAt(rest, p - 1, c);
        assert s[PagePos(p, c)] == PageData(rest)[PagePos(p - 1, c)];
      }
    }
  }

  /** The framebuffer byte i sits at position i + Blank * (i / Width) of PageData, framed Last only if it is the last byte. */
  lemma PageDataHolds(b: seq<bv8>, i: nat)
    requires |b| == NumBuffers && i < NumBuffers
    ensures i + Blank * (i / Width) < |PageData(b)|
    ensures PageData(b)[i + Blank * (i / Width)] == Transfer(Data, b[i], if i == NumBuffers - 1 then Last else Continue)
  {
    var p, c := i / Width, i % Width;
    PagePosValue(p, c);
    assert i == p * Width + c;
    assert i + Blank * (i / Width) == p * Stride + c;
    PageDataAt(b, p, c);
  }

  /** Filler byte f (f < Blank) after page p (every page but the last) is 0xFF, framed Continue. */
  lemma PageDataFiller(b: seq<bv8>, p: nat, f: nat)
    requires |b| == NumBuffers && p < Pages - 1 && f < Blank
    ensures p * Stride + Width + f < |PageData(b)|
    ensures PageData(b)[p * Stride + Width + f] == Transfer(Data, 0xFF, Continue)
  {
    PagePosValue(p, Width + f);
    PageDataAt(b, p, Width + f);
  }

  /** The flush sends JunkBuffer zero bytes first. */
  lemma FlushPreamble(b: seq<bv8>)
    requires |b| == NumBuffers
    ensures forall k | 0 <= k < JunkBuffer :: FlushStream(b)[k] == Transfer(Data, 0, Continue)
  {
  }

  /**
   * All of a flush is data; exactly one byte is framed Last, the final one, and
   * it carries the last framebuffer byte.
   */
  lemma FlushFraming(b: seq<bv8>)
    requires |b| == NumBuffers
    ensures |FlushStream(b)| == TotalBuffers
    ensures forall k | 0 <= k < TotalBuffers :: FlushStream(b)[k].line == Data
    ensures forall k | 0 <= k < TotalBuffers :: (FlushStream(b)[k].framing == Last <==> k == TotalBuffers - 1)
    ensures FlushStream(b)[TotalBuffers - 1].value == b[NumBuffers - 1]
  {
    var s := FlushStream(b);
    forall k | JunkBuffer <= k < TotalBuffers
      ensures s[k].line == Data && (s[k].framing == Last <==> k == TotalBuffers - 1)
    {
      assert s[k] == PageData(b)[k - JunkBuffer];
      PageDataFraming(b, k - JunkBuffer);
    }
    PageDataHolds(b, NumBuffers - 1);
  }

  /** Every byte of PageData is data, and only the final one is framed Last. */
  lemma PageDataFraming(b: seq<bv8>, j: nat)
    requires |b| == NumBuffers && j < |PageData(b)|
    ensures PageData(b)[j].line == Data && (PageData(b)[j].framing == Last <==> j == |PageData(b)| - 1)
  {
    if j == |PageData(b)| - 1 {
      PageDataHolds(b, NumBuffers - 1);
    } else {
      var p, c := j / Stride, j % Stride;
      PagePosValue(p, c);
      assert j == p * Stride + c;
      PageDataAt(b, p, c);
    }
  }

  /** The values of a run of transfers. */
  function Values(s: seq<Transfer>): seq<bv8> {
    seq(|s|, k requires 0 <= k < |s| => s[k].value)
  }

  /** What the controller keeps of the pixel part of a flush: every page, with the filler after it dropped. */
  function Payload(s: seq<Transfer>): seq<bv8>
    decreases |s|
  {
    if |s| <= Stride then Values(s[..if |s| < Width then |s| else Width])
    else Values(s[..Width]) + Payload(s[Stride..])
  }

  lemma {:induction false} PayloadOfPageData(b: seq<bv8>)
    requires |b| > 0
    ensures Payload(PageData(b)) == b
    decreases |b|
  {
    var s := PageData(b);
    if |b| <= Width {
      assert Values(s) == b;
    } else {
      assert s[..Width] == Continues(b[..Width]);
      assert s[Stride..] == PageData(b[Width..]);
      PayloadOfPageData(b[Width..]);
      assert Values(s[..Width]) == b[..Width];
      assert b == b[..Width] + b[Width..];
    }
  }

  /** Dropping the preamble and the page fillers from a flush gives back the framebuffer, in order. */
  lemma FlushRoundTrip(b: seq<bv8>)
    requires |b| == NumBuffers
    ensures Payload(FlushStream(b)[JunkBuffer..]) == b
  {
    assert FlushStream(b)[JunkBuffer..] == PageData(b);
    PayloadOfPageData(b);
  }

  /**
   * The controller configuration commands sent once by the constructor: 31 of them,
   * starting with display-off, and none of them switches the display on.
   */
  function InitCommands(): (c: seq<bv8>)
    ensures |c| == 31 && c[0] == DisplayOff && DisplayOn !in c
  {
    [
    0xAE, 0xD5, 0xA0, 0xA8, 0x3F, 0xD3, 0x00, 0x40, 0xAD, 0x8E, 0xD8, 0x05, 0xA1, 0xC8, 0xDA, 0x12,
    0x91, 0x3F, 0x3F, 0x3F, 0x3F, 0x81, 0x8F, 0xD9, 0xD2, 0xDB, 0x34, 0xA4, 0xA6, 0x20, 0x00
    ]
  }

  /** The bytes of bs as commands, all framed Continue. */
  function Commands(bs: seq<bv8>): seq<Transfer> {
    seq(|bs|, k requires 0 <= k < |bs| => Transfer(Command, bs[k], Continue))
  }

  lemma CommandsSnoc(bs: seq<bv8>, k: nat)
    requires k < |bs|
    ensures Commands(bs[..k + 1]) == Commands(bs[..k]) + [Transfer(Command, bs[k], Continue)]
  {
  }

  lemma DataRunSnoc(v: bv8, n: nat)
    ensures DataRun(v, n + 1) == DataRun(v, n) + [Transfer(Data, v, Continue)]
  {
  }

  /** Display-on command that ends the start-up transfer. */
  const DisplayOn: bv8 := 0xAF
  /** Display-off command that opens the start-up transfer. */
  const DisplayOff: bv8 := 0xAE

  /**
   * What the constructor sends: the configuration commands, TotalBuffers zero data
   * bytes that clear the controller's memory, and display-on framed Last.
   */
  function StartupStream(): (s: seq<Transfer>)
    ensures |s| == |InitCommands()| + TotalBuffers + 1 && s[|s| - 1] == Transfer(Command, DisplayOn, Last)
  {
    Commands(InitCommands()) + DataRun(0, TotalBuffers) + [Transfer(Command, DisplayOn, Last)]
  }

  /**
   * The clear-memory run of the start-up is as long as a flush, and the start-up
   * transfer has only its final byte framed Last.
   */
  lemma StartupShape(b: seq<bv8>)
    requires |b| == NumBuffers
    ensures |StartupStream()| == |InitCommands()| + |FlushStream(b)| + 1
    ensures StartupStream()[|InitCommands()|..|InitCommands()| + TotalBuffers] == DataRun(0, |FlushStream(b)|)
    ensures forall k | 0 <= k < |StartupStream()| :: (StartupStream()[k].framing == Last <==> k == |StartupStream()| - 1)
  {
  }
}
