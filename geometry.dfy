/** Display geometry and flush-protocol constants of the SSD1305 driver. */
module Geometry {
  /** Bytes of colour data the controller expects ahead of the pixel data; the driver sends zeros. */
  const JunkBuffer: nat := 532
  /** Off-screen filler bytes sent after every page of pixel data but the last. */
  const Blank: nat := 4
  /** Pixel rows packed into one framebuffer byte (one page is this many rows high). */
  const PixInPage: nat := 8
  /** Bytes of one whole flush, and of the clear-memory run sent at start-up. */
  const TotalBuffers: nat := 1056
  /** Bytes of the visible framebuffer. */
  const NumBuffers: nat := 512

  const Width: nat := 128
  const Height: nat := 32

  /** Number of pages (rows of bytes) of the display. */
  const Pages: nat := Height / PixInPage

  /** The framebuffer holds exactly one bit per visible pixel, arranged as whole pages. */
  lemma NumBuffersMatchesGeometry()
    ensures NumBuffers == Width * Height / PixInPage
    ensures Height % PixInPage == 0 && Pages == 4
    ensures NumBuffers == Width * Pages
  {
  }

  /** A flush is the preamble, the framebuffer, and one filler block per page boundary. */
  lemma TotalBuffersMatchesLayout()
    ensures TotalBuffers == JunkBuffer + NumBuffers + Blank * (Pages - 1)
  {
  }
}
