# SSD1305 OLED driver, modelled in Dafny

This project models the Arduino driver class `SSD1305` for the Solomon Systech SSD1305
OLED controller (a 128 x 32 monochrome display driven over SPI) and proves properties of
that model. The model covers:

- the packed framebuffer of 512 bytes: pixel (x, y) is bit `y % 8` of byte `x + 128 * (y / 8)`;
- the "buffer changed" flag;
- `setPixel`, `clear` and `draw`, the flush serialiser that streams the framebuffer to the controller;
- the two rasterisers: `drawLine` (Bresenham with a float error term) and
  `drawCircle` (the integer midpoint circle);
- what the constructor leaves behind: a zeroed framebuffer, a clear flag, the start-up command
  stream and the clear-memory run.

Modules:

- `Geometry` holds the constants of `SSD1305.h` and the arithmetic that ties them together.
- `Framebuffer` treats the framebuffer as a value (`seq<bv8>`). `WithPixel` is `setPixel` exactly as
  written, and `Plot` sets a sequence of pixels in order. It also holds the lemmas on the bits
  each operation changes.
- `Protocol` defines the bytes on the wire. Every byte carries three things:
  - the level of the data/command pin;
  - its value;
  - its SPI framing (`Continue` or `Last`).

  `FlushStream` is the reference layout of one flush, and `StartupStream` is what the
  constructor sends. `Payload` is the controller's view of a flush, and `FlushRoundTrip`
  proves that it gives back the framebuffer.
- `Raster` lists the pixels `drawLine` and `drawCircle` set, in the order they set them:
  - `LinePoints` for a line, built from `Column` or `Staircase`;
  - `CirclePoints` for a circle, built from `OctantSteps` and `Octants`.

  Its lemmas give the shape of these sequences. `IdealSteps` is a reference
  definition of the line's step decisions in exact rational arithmetic.
- `Driver` holds the class `Ssd1305`:
  - an `array<bv8>` framebuffer;
  - the `bufferChanged` flag;
  - the current level of the data/command pin;
  - a ghost `trace` of every byte sent over SPI.

  Each method that loops is a `while`/`for` transcription of the source's loop. It is proved against the
  functions above: the new framebuffer is `Plot` of the old one over the listed points, and the
  new trace is the old trace followed by the reference stream.

## Model

| member | source | states |
|---|---|---|
| Geometry.NumBuffersMatchesGeometry | SSD1305.h:13-30 | the 512 visible bytes are exactly width * height / pix_in_page; height is a whole number (4) of pages; 512 bytes are 4 pages of 128 |
| Geometry.TotalBuffersMatchesLayout | SSD1305.h:13-18 | total_buffers (1056) is the preamble (532), the framebuffer (512) and one filler block of 4 bytes per page boundary (3) |
| Framebuffer.WithPixel | SSD1305.cpp:94-98 | setPixel as written on the framebuffer value: the result is again a 512-byte framebuffer |
| Framebuffer.WithPixelIntended | SSD1305.cpp:94-98 | setPixel with the clear path corrected: the result is again a 512-byte framebuffer |
| Framebuffer.Plot | SSD1305.cpp:94-99 | setPixel(..., 1) over a list of on-screen points, in order: the result is again a 512-byte framebuffer |
| Framebuffer.EmptyFrame | SSD1305.cpp:22-24 | the buffer after a zeroing loop (also SSD1305.cpp:131-133) has the full 512 bytes; EmptyFrameDark says no pixel of it is lit |
| Framebuffer.PixelIndex | SSD1305.cpp:96 | for an on-screen pixel the byte index setPixel computes is below numBuffers |
| Framebuffer.BitMaskValue | SSD1305.cpp:96 | the mask `1 << (y % 8)` is the power of two 2^(y % 8), below 256, so it fits in a uint8_t unchanged |
| Framebuffer.BitMaskIsShift | SSD1305.cpp:96-98 | the single-bit mask equals the byte shift `1 << k`, and `0 << k` is 0 |
| Framebuffer.SetPixelBits | SSD1305.cpp:95-96 | setPixel(x, y, 1) sets bit y % 8 of byte x + 128 * (y / 8) and keeps every other bit of every byte |
| Framebuffer.SetPixelReads | SSD1305.cpp:95-96 | after setPixel(x, y, 1), pixel (x, y) reads lit and every other pixel reads as before |
| Framebuffer.SamePixelBit | SSD1305.cpp:96 | two on-screen pixels map to the same byte and bit if and only if they are the same pixel |
| Framebuffer.ClearPixelWipesByte | SSD1305.cpp:97-98 | setPixel(x, y, 0) as written sets the whole byte of (x, y) to 0 and keeps all other bytes, so all 8 pixels of that column of the page go dark |
| Framebuffer.ClearWipesNeighbour | SSD1305.cpp:98 | a concrete case: with (0, 0) and (0, 1) lit, clearing (0, 0) also turns (0, 1) off |
| Framebuffer.IntendedWriteReads | SSD1305.cpp:91-98 | with the clear path corrected, writing val to a pixel makes it read val == 1, and every other pixel keeps its value |
| Framebuffer.IntendedKeepsOthers | SSD1305.cpp:95-98 | the corrected write of one pixel leaves any other given pixel unchanged |
| Framebuffer.IntendedAgreesOnSet | SSD1305.cpp:95-96 | the corrected and the as-written setPixel agree when val is 1 |
| Framebuffer.OrBit | SSD1305.cpp:96 | OR-ing in the single bit k sets bit k and keeps every other bit |
| Framebuffer.AndNotBit | SSD1305.cpp:98 | AND-ing with the complement of bit k (the intended clear) clears bit k and keeps every other bit |
| Framebuffer.PlotReads | SSD1305.cpp:94-99 | after setting a list of pixels, a pixel reads lit exactly when it is in the list or was lit before |
| Framebuffer.PlotAppend | SSD1305.cpp:94-99 | setting the pixels of p and then those of q is setting the pixels of p + q |
| Framebuffer.EmptyFrameDark | SSD1305.cpp:130-135 | a zeroed framebuffer has no lit pixel |
| Protocol.PageData | SSD1305.cpp:113-121 | the page part of a flush is one byte per framebuffer byte plus 4 filler bytes per page boundary |
| Protocol.FlushStream | SSD1305.cpp:105-125 | one flush is exactly total_buffers (1056) bytes, and its final byte is buffer[511] as data framed SPI_LAST |
| Protocol.InitCommands | SSD1305.cpp:36-66 | the constructor sends 31 configuration commands, display-off (0xAE) first, and none of them is display-on (0xAF) |
| Protocol.StartupStream | SSD1305.cpp:35-76 | the constructor sends the 31 configuration commands, a 1056-byte run and one more byte; the final one is 0xAF, a command framed SPI_LAST |
| Protocol.FlushPreamble | SSD1305.cpp:109-111 | the first 532 bytes of a flush are zero data bytes framed SPI_CONTINUE |
| Protocol.PageDataHolds | SSD1305.cpp:113-114 | framebuffer byte i is sent at position i + 4 * (i / 128) of the page part, as data, framed SPI_LAST exactly when i is 511 |
| Protocol.PageDataFiller | SSD1305.cpp:117-121 | after each page but the last come 4 data bytes 255 framed SPI_CONTINUE |
| Protocol.PageDataAt | SSD1305.cpp:113-121 | position c of page p of the page part is framebuffer byte 128 * p + c when c < 128, else filler 255; only the final position is framed SPI_LAST |
| Protocol.PageDataFraming | SSD1305.cpp:113-121 | every byte of the page part is data, and only its final byte is framed SPI_LAST |
| Protocol.FlushFraming | SSD1305.cpp:109-121 | every byte of a flush is data; exactly one byte is framed SPI_LAST, the final one, and it carries buffer[511] |
| Protocol.PayloadOfPageData | SSD1305.cpp:113-121 | dropping the filler after each page gives back the framebuffer bytes in index order |
| Protocol.FlushRoundTrip | SSD1305.cpp:109-122 | dropping the 532-byte preamble and the fillers from a flush gives back the framebuffer, in order |
| Protocol.StartupShape | SSD1305.cpp:35-76 | the start-up stream is 31 + 1056 + 1 bytes long; bytes 31 up to 1087 are a zero data run as long as a flush; only the final byte is framed SPI_LAST |
| Protocol.PagePosValue | SSD1305.cpp:113-121 | the page-by-page position of column c of page p is p * 132 + c, and its framebuffer index is p * 128 + c |
| Raster.Column | SSD1305.cpp:148-156 | the vertical branch sets hi - lo + 1 pixels, from (x, lo) to (x, hi), and none when lo > hi |
| Raster.Adjust | SSD1305.cpp:159 | the per-step change of the dependent coordinate is +1 or -1 |
| Raster.Staircase | SSD1305.cpp:163-197 | a sloped branch run for n iterations sets n pixels |
| Raster.LinePoints | SSD1305.cpp:144-202 | drawLine sets one pixel per loop iteration: max(abs(dx), abs(dy)) + 1 |
| Raster.StaircaseAt | SSD1305.cpp:163-197 | iteration k of a sloped drawLine branch visits independent coordinate start + k, with the dependent one moved by adjust once per step taken before k |
| Raster.StaircaseSteps | SSD1305.cpp:172-178 | between consecutive pixels the dependent coordinate moves by adjust when that iteration's test held and by 0 otherwise |
| Raster.CountTrueSnoc | SSD1305.cpp:175-178 | one more iteration adds one step exactly when its test held |
| Raster.VerticalLine | SSD1305.cpp:148-157 | a vertical line sets (x1, y) for y from min(y1, y2) to max(y1, y2), in order; a point is set if and only if it is in that column |
| Raster.SinglePointLine | SSD1305.cpp:148-157 | a line whose endpoints coincide sets exactly that one pixel |
| Raster.ShallowLine | SSD1305.cpp:163-179 | with abs(dy) <= abs(dx), each x from min(x1, x2) to max(x1, x2) is visited once, in order; y starts at the y paired with the smaller x; adjust is +1 or -1; y changes by 0 or adjust per step |
| Raster.SteepLine | SSD1305.cpp:181-197 | with abs(dy) > abs(dx) the same holds with x and y exchanged |
| Raster.IdealDelta | SSD1305.cpp:164 | the `delta` of either sloped branch (also SSD1305.cpp:182) in exact arithmetic lies in [0, 1], and max(abs(dx), abs(dy)) of them make min(abs(dx), abs(dy)) |
| Raster.IdealLineSteps | SSD1305.cpp:160-178 | the decisions of drawLine's loop from offset 0 and threshold 0.5, in exact arithmetic: one per iteration |
| Raster.IdealSteps | SSD1305.cpp:172-178 | the exact decision sequence has one decision per iteration |
| Raster.IdealStepsCount | SSD1305.cpp:172-178 | in exact arithmetic, after j iterations the steps taken c satisfy threshold - 1 <= offset + j * delta - c < threshold, i.e. the dependent coordinate is the rounded exact one |
| Raster.ScaledValue | SSD1305.cpp:174 | adding delta j times gives j * delta |
| Raster.RiseCount | SSD1305.cpp:172-178 | over k + 1 iterations with k * delta == r, the first k decisions take exactly r steps, and no prefix takes more |
| Raster.IdealRise | SSD1305.cpp:163-197 | the same for the branch's slope r / k |
| Raster.IdealStair | SSD1305.cpp:163-197 | with exact decisions the staircase runs from (i0, d0) to (i0 + k, d0 + adjust * r) and never leaves the range between them |
| Raster.IdealBranchStair | SSD1305.cpp:158-197 | the same for either sloped branch of drawLine, ending at the other endpoint |
| Raster.IdealLineInBox | SSD1305.cpp:144-202 | in exact arithmetic every line starts at one endpoint, ends at the other and stays inside their bounding box |
| Raster.IdealShallowLine | SSD1305.cpp:163-179 | the same for the abs(dy) <= abs(dx) branch |
| Raster.IdealSteepLine | SSD1305.cpp:181-197 | the same for the abs(dy) > abs(dx) branch |
| Raster.ShallowInBox | SSD1305.cpp:163-179 | for any decisions whose staircase ends at the far endpoint without leaving the range between the two ys, the shallow branch starts at one endpoint, ends at the other and stays in their bounding box |
| Raster.SteepInBox | SSD1305.cpp:181-197 | the same for the steep branch, with x and y exchanged |
| Raster.IdealLineOnScreen | SSD1305.cpp:144-202 | in exact arithmetic a line between two on-screen endpoints sets only on-screen pixels |
| Raster.IdealHorizontalLine | SSD1305.cpp:163-179 | in exact arithmetic a horizontal line is one straight row with no step taken |
| Raster.OctantSteps | SSD1305.cpp:215-234 | the circle loop from (x, y) runs at most x - y + 1 times, and not at all when x < y |
| Raster.Octants | SSD1305.cpp:216-223 | one circle iteration sets eight points |
| Raster.Expand | SSD1305.cpp:215-234 | a run of circle iterations sets eight points per iteration |
| Raster.CirclePoints | SSD1305.cpp:210-234 | drawCircle sets eight points per loop iteration, and sets none exactly when the radius is negative |
| Raster.ExpandAppend | SSD1305.cpp:215-234 | the pixels of consecutive circle iterations are the concatenation of each iteration's eight |
| Raster.ExpandNext | SSD1305.cpp:215-234 | one circle iteration sets its eight points, then come the points of the following iterations |
| Raster.OctantStepsNext | SSD1305.cpp:225-233 | one circle iteration moves (x, y, radiusError) exactly as the two update branches do |
| Raster.OctantStepsStart | SSD1305.cpp:215 | the circle loop runs if and only if x >= y, and its first pair is the current (x, y) |
| Raster.OctantStepsBounds | SSD1305.cpp:210-234 | every iteration of a radius r circle has 0 <= y <= x <= r |
| Raster.OctantStepsProgress | SSD1305.cpp:225-233 | from one iteration to the next y grows by exactly 1 and x drops by 0 or 1, so x - y strictly decreases |
| Raster.NegativeRadius | SSD1305.cpp:210-215 | a negative radius sets no pixel |
| Raster.CircleExtremes | SSD1305.cpp:211-223 | a circle of radius r >= 0 sets the eight points of (r, 0): r pixels left, right, above and below the centre |
| Raster.ExpandContains | SSD1305.cpp:215-223 | every iteration's eight points are among the circle's points |
| Raster.ExpandMember | SSD1305.cpp:215-223 | every circle point is one of the eight points of some iteration |
| Raster.OctantsMembers | SSD1305.cpp:216-223 | the eight points of offset (u, v) are exactly the centre plus (+-u, +-v) and (+-v, +-u) |
| Raster.OctantsClosed | SSD1305.cpp:216-223 | the eight points of any of the eight points of (u, v) are among those of (u, v) |
| Raster.ExpandSymmetricAt | SSD1305.cpp:215-223 | with any set point, all eight reflections of it about the centre are set |
| Raster.CircleSymmetric | SSD1305.cpp:210-234 | the set of points drawCircle sets is closed under the eight octant symmetries |
| Raster.CircleOnScreen | SSD1305.cpp:210-234 | a circle whose bounding square is on screen sets only on-screen pixels |
| Driver.Ssd1305.SpiTransfer | SSD1305.cpp:36-119 | every SPI.transfer call (lines 36-76, 110, 114 and 119) appends one byte to the trace, with the given value and framing, at the current data/command level |
| Driver.Ssd1305.constructor | SSD1305.cpp:14-77 | the framebuffer is all zero and the flag clear; the trace is the configuration commands, 1056 zero data bytes and 0xAF framed SPI_LAST, with the pin back at command level |
| Driver.Ssd1305.SetPixel | SSD1305.cpp:94-99 | the framebuffer becomes WithPixel of the old one: the source's OR or AND on the one addressed byte |
| Driver.Ssd1305.Draw | SSD1305.cpp:105-125 | with the flag set it appends one whole flush (FlushStream) of the unchanged framebuffer and clears the flag; with it clear, it sends nothing and changes nothing |
| Driver.Ssd1305.SendJunk | SSD1305.cpp:109-111 | the first loop of draw appends the 532 zero data bytes |
| Driver.Ssd1305.SendPages | SSD1305.cpp:113-122 | the page loop of draw appends PageData: every framebuffer byte, 4 bytes 255 after each page but the last, only buffer[511] framed SPI_LAST |
| Driver.Ssd1305.Clear | SSD1305.cpp:130-135 | the framebuffer becomes all zero whatever it held, so a second clear changes nothing, and the flag is set |
| Driver.Ssd1305.DrawLine | SSD1305.cpp:144-202 | the framebuffer becomes the old one with the pixels of LinePoints set in order, in every branch, and the flag is set |
| Driver.Ssd1305.DrawColumn | SSD1305.cpp:148-157 | the vertical branch sets (x, lo) up to (x, hi) in order |
| Driver.Ssd1305.DrawShallow | SSD1305.cpp:163-179 | the abs(dy) <= abs(dx) branch sets the staircase pixels in order |
| Driver.Ssd1305.DrawSteep | SSD1305.cpp:181-197 | the abs(dy) > abs(dx) branch sets the transposed staircase pixels in order |
| Driver.Ssd1305.PlotOctants | SSD1305.cpp:216-223 | the eight setPixel calls of one circle iteration set the eight points of Octants, in the source's order |
| Driver.Ssd1305.DrawCircle | SSD1305.cpp:210-236 | the framebuffer becomes the old one with the pixels of CirclePoints set in order, and the flag is set |
| Driver.RedrawSendsNothing | SSD1305.cpp:105-125 | two draws in a row send at most one flush: the second sends nothing |
| Driver.ClearThenDraw | SSD1305.cpp:105-135 | clear followed by draw sends the all-dark flush whatever was drawn before, and leaves the flag clear |
| Driver.PageStep | SSD1305.cpp:113-121 | one iteration of the page loop extends the part of PageData already sent by byte i and, at the end of a page but the last, the 4 fillers |
| Driver.PageFiller | SSD1305.cpp:117-121 | the 4 bytes after a page end other than the last are filler 255 framed SPI_CONTINUE |
| Driver.CircleRemaining | SSD1305.cpp:215-234 | one loop iteration of drawCircle sets its eight points and leaves exactly the points of the remaining iterations to set |
| Driver.ColumnRemaining | SSD1305.cpp:154-156 | one iteration of the vertical loop sets its pixel and leaves the rest of the column to set |
| Driver.ShallowRemaining | SSD1305.cpp:172-179 | one iteration of the shallow loop sets its pixel and leaves the rest of the staircase to set |
| Driver.SteepRemaining | SSD1305.cpp:190-197 | one iteration of the steep loop sets its pixel and leaves the rest of the transposed staircase to set |

## Left out

- Hardware I/O is outside the model: `pinMode`, `delay`, `SPI.begin`, `SPI.setClockDivider`, the reset pulse (SSD1305.cpp:19-20, 29-34) and the electrical effect of `SPI.transfer`. The bus is a ghost `trace` of transfers. `digitalWrite(dc, ...)` becomes the `dcLevel` field, which every transfer records. The pin numbers are stored but not used otherwise.
- The constructor sends its 31 configuration commands (SSD1305.cpp:36-66) as a loop over the sequence `InitCommands` rather than 31 statements; the bytes and their order are the source's.
- Driver.Ssd1305.DrawLine: the float arithmetic of the sloped branches (`m`, `offset`, `threshold`, `delta`: SSD1305.cpp:158-197) is not modelled. The outcome of each float test `offset >= threshold` is the parameter `stepAt`, one entry per iteration, so the contract holds for any outcomes. `IdealSteps` gives the outcomes in exact rational arithmetic. The IEEE rounding that may make the float loop differ from it, or miss the far endpoint on long lines, is not analysed.
- Driver.Ssd1305.DrawLine: the float branch test `-1 <= m <= 1` is modelled as `abs(dy) <= abs(dx)`. `adjust` is modelled as `+1` when dy is 0 or has the sign of dx (a zero slope gives `+0.0` or `-0.0`, both `>= 0`), and `-1` otherwise. `y += adjust` on an int is exact for +-1. Integers too large for a float to keep exactly are not considered.
- The source has no bounds check: an off-screen `setPixel` writes outside the buffer. SetPixel, DrawLine and DrawCircle therefore require every pixel they set to be on screen, and CircleOnScreen and IdealLineOnScreen say when that holds.
- SetPixel takes only val 0 or 1, the values its documentation allows (SSD1305.cpp:91).
- Coordinates and radiusError are unbounded integers, and the 32-bit `int` overflow that would need coordinates near 2^31 is not modelled. The on-screen requirements keep the values of drawLine and of a drawCircle that sets pixels in range. The exception is a radius of INT_MIN or INT_MIN + 1: `1 - x` (SSD1305.cpp:213) then overflows, whereas the model computes it exactly. The loop still does not run, because x < y = 0.
- The destructor (SSD1305.cpp:82-84) does nothing and is not modelled.
- In draw, drawLine and drawCircle, each inner loop or branch is a helper method of the class (SendJunk, SendPages, DrawColumn, DrawShallow, DrawSteep, PlotOctants), each with the source's loop as its body. PlotOctants issues the eight `setPixel` calls of one circle iteration (SSD1305.cpp:216-223) as a loop over the eight points, in the same order.
- `buffer_changed` is an `int` in the source that only ever holds 0 or 1; it is modelled as a `bool`.

## Findings

| source | as written | input that shows it | evidently intended | confidence | as-written member | corrected member |
|---|---|---|---|---|---|---|
| SSD1305.cpp:98 | `buffer[i] &= 0xFF & (val << (y % 8))` with val == 0 ANDs the byte with 0, switching off all 8 pixels of that column of the page | setPixel(0, 0, 1); setPixel(0, 1, 1); setPixel(0, 0, 0) leaves (0, 1) dark | `buffer[i] &= ~(1 << (y % 8))`: clear only bit y % 8 | not executed | Framebuffer.ClearWipesNeighbour | Framebuffer.IntendedWriteReads |

Driver.Ssd1305.SetPixel keeps the as-written behaviour, because it models the source. Every other
member sets pixels only through `Plot`, which uses val 1 only. For val 1 the as-written and the
corrected definitions agree (Framebuffer.IntendedAgreesOnSet), so the drawing results hold for
either.
