/**
 * Pixels, colours and the flat pixel layout the image code of package
 * xgraphics works on: an image of width w and height h keeps pixel (x, y) at
 * index x + y*w, and every loop over an image visits x in the outer loop and
 * y in the inner loop.
 */
module Raster {
  import opened Arith

  /** A pixel of an image.RGBA, or a color.RGBA value: four 8-bit channels. */
  datatype RGBA = RGBA(r: bv8, g: bv8, b: bv8, a: bv8)

  /** The four 16-bit channels color.Color.RGBA() returns, each held in a uint32. */
  datatype Color16 = Color16(r: bv32, g: bv32, b: bv32, a: bv32)

  /** Why an image conversion gives up: a Go panic, or an error from the X server. */
  datatype GraphicsError =
    | IndexOutOfRange
    | DivideByZero
    | RequestFailed(code: int)

  /** The pixel image.NewRGBA starts every image with. */
  const Transparent := RGBA(0, 0, 0, 0)

  /** uint8(x): the low byte of x. */
  function Low8(x: bv32): bv8 {
    (x & 0xFF) as bv8
  }

  /** byte(x >> 8): the high byte of a 16-bit channel. */
  function High8(x: bv32): bv8 {
    Low8(x >> 8)
  }

  /** An 8-bit channel widened to 16 bits as color.RGBA.RGBA() does: c * 0x101. */
  function Widen(c: bv8): (w: bv32)
    ensures w == c as bv32 * 0x101
    ensures w < 0x1_0000
  {
    (c as bv32 << 8) | c as bv32
  }

  /** Widening keeps the channel in both bytes, so either byte gives it back. */
  lemma WidenRoundTrip(c: bv8)
    ensures Low8(Widen(c)) == c
    ensures High8(Widen(c)) == c
    ensures Widen(c) > 0 <==> c > 0
  {
  }

  /** image.RGBA.At(x, y).RGBA(): the stored pixel in 16-bit channels. */
  function ColorOf(p: RGBA): Color16 {
    Color16(Widen(p.r), Widen(p.g), Widen(p.b), Widen(p.a))
  }

  /** color.Alpha{a}.RGBA(): every channel is the widened alpha. */
  function AlphaColor(a: bv8): Color16 {
    Color16(Widen(a), Widen(a), Widen(a), Widen(a))
  }

  /**
   * image.RGBA.Set(x, y, c): the colour is converted by color.RGBAModel, which
   * keeps the high byte of each 16-bit channel.
   */
  function Stored(c: Color16): RGBA {
    RGBA(High8(c.r), High8(c.g), High8(c.b), High8(c.a))
  }

  /** Storing an image.RGBA pixel read back through At gives the same pixel. */
  lemma StoredColorOf(p: RGBA)
    ensures Stored(ColorOf(p)) == p
  {
    WidenRoundTrip(p.r);
    WidenRoundTrip(p.g);
    WidenRoundTrip(p.b);
    WidenRoundTrip(p.a);
  }

  /** Setting color.Alpha{a} into an image.RGBA stores a in all four channels. */
  lemma StoredAlpha(a: bv8)
    ensures Stored(AlphaColor(a)) == RGBA(a, a, a, a)
  {
    WidenRoundTrip(a);
  }

  // ---------------------------------------------------------------------------
  // Image bounds

  /** An image.Rectangle: Min and Max corners. */
  datatype Rect = Rect(minX: int, minY: int, maxX: int, maxY: int)

  /** A rectangle moved by (dx, dy). */
  function Translate(bounds: Rect, dx: int, dy: int): Rect {
    Rect(bounds.minX + dx, bounds.minY + dy, bounds.maxX + dx, bounds.maxY + dy)
  }

  /** GetDim: the width and height of an image's bounds. */
  function GetDim(bounds: Rect): (dim: (int, int))
    ensures bounds.minX + dim.0 == bounds.maxX
    ensures bounds.minY + dim.1 == bounds.maxY
  {
    (bounds.maxX - bounds.minX, bounds.maxY - bounds.minY)
  }

  /**
   * The dimensions do not depend on where the image sits, are never negative
   * for a well-formed (canonical) rectangle, and are (w, h) for the rectangle
   * image.Rect(0, 0, w, h).
   */
  lemma GetDimProperties(bounds: Rect, dx: int, dy: int, w: int, h: int)
    ensures GetDim(Translate(bounds, dx, dy)) == GetDim(bounds)
    ensures bounds.minX <= bounds.maxX && bounds.minY <= bounds.maxY ==> GetDim(bounds).0 >= 0 && GetDim(bounds).1 >= 0
    ensures GetDim(Rect(0, 0, w, h)) == (w, h)
  {
  }

  // ---------------------------------------------------------------------------
  // Flat layout

  /** An image with its origin at (0, 0): width, height and pixels row by row. */
  datatype Image = Image(width: nat, height: nat, pix: seq<RGBA>)

  /** The index of pixel (x, y): x + y*width. */
  function Offset(x: nat, y: nat, w: nat): nat {
    x + y * w
  }

  /** Every pixel inside the image has an index inside its buffer. */
  lemma OffsetInBounds(x: nat, y: nat, w: nat, h: nat)
    requires x < w && y < h
    ensures Offset(x, y, w) < w * h
  {
    MulStep(y, h, w);
  }

  /** The column of index p in an image of width w: p % w, by repeated subtraction. */
  function Col(p: nat, w: nat): (c: nat)
    requires w > 0
    decreases p
  {
    if p < w then p else Col(p - w, w)
  }

  /** The row of index p in an image of width w: p / w, by repeated subtraction. */
  function Row(p: nat, w: nat): (r: nat)
    requires w > 0
    decreases p
  {
    if p < w then 0 else 1 + Row(p - w, w)
  }

  /** Column and row split an index: p == Col + Row*w with the column below w. */
  lemma {:induction false} ColRow(p: nat, w: nat)
    requires w > 0
    ensures Col(p, w) < w && p == Offset(Col(p, w), Row(p, w), w)
  {
    if p >= w {
      ColRow(p - w, w);
    }
  }

  /** The column and row of pixel (x, y) are x and y. */
  lemma {:induction false} ColRowOfOffset(x: nat, y: nat, w: nat)
    requires x < w
    ensures Col(Offset(x, y, w), w) == x && Row(Offset(x, y, w), w) == y
  {
    if y > 0 {
      ColRowOfOffset(x, y - 1, w);
      assert Offset(x, y, w) - w == Offset(x, y - 1, w);
    }
  }

  /** An index below w*h lies in a row below h. */
  lemma RowBelow(p: nat, w: nat, h: nat)
    requires p < w * h
    ensures w > 0 && Row(p, w) < h
  {
    ColRow(p, w);
  }

  /** No two pixels of an image share an index. */
  lemma OffsetInjective(x1: nat, y1: nat, x2: nat, y2: nat, w: nat)
    requires x1 < w && x2 < w
    requires Offset(x1, y1, w) == Offset(x2, y2, w)
    ensures x1 == x2 && y1 == y2
  {
    ColRowOfOffset(x1, y1, w);
    ColRowOfOffset(x2, y2, w);
  }

  /**
   * Whether index p has been visited by a scan over x (outer) and y (inner)
   * that is about to visit pixel (x, y).
   */
  predicate Scanned(p: nat, w: nat, x: nat, y: nat) {
    w > 0 && (Col(p, w) < x || (Col(p, w) == x && Row(p, w) < y))
  }

  /** Visiting (x, y) adds exactly its index. */
  lemma ScanStep(w: nat, x: nat, y: nat)
    requires x < w
    ensures forall p: nat :: Scanned(p, w, x, y + 1) <==> Scanned(p, w, x, y) || p == Offset(x, y, w)
    ensures !Scanned(Offset(x, y, w), w, x, y)
  {
    ColRowOfOffset(x, y, w);
    forall p: nat
      ensures Scanned(p, w, x, y + 1) <==> Scanned(p, w, x, y) || p == Offset(x, y, w)
    {
      ColRow(p, w);
    }
  }

  /**
   * The state of a scan over a buffer about to visit pixel (x, y): indices
   * already visited hold what the scan writes (want), the others still hold
   * what they held before it (orig).
   */
  ghost predicate ScanState<T>(s: seq<T>, orig: seq<T>, want: seq<T>, w: nat, x: nat, y: nat) {
    |s| == |orig| == |want| &&
    forall p: nat :: p < |s| ==> s[p] == if Scanned(p, w, x, y) then want[p] else orig[p]
  }

  /** Before the scan nothing is visited. */
  lemma ScanStateStart<T>(s: seq<T>, want: seq<T>, w: nat)
    requires |s| == |want|
    ensures ScanState(s, s, want, w, 0, 0)
  {
  }

  /** The pixel about to be visited still holds its original value. */
  lemma ScanStateUnvisited<T>(s: seq<T>, orig: seq<T>, want: seq<T>, w: nat, x: nat, y: nat)
    requires ScanState(s, orig, want, w, x, y)
    requires x < w && Offset(x, y, w) < |s|
    ensures s[Offset(x, y, w)] == orig[Offset(x, y, w)]
  {
    ScanStep(w, x, y);
  }

  /** Writing want at (x, y) moves the scan one row down. */
  lemma ScanStateStep<T>(s: seq<T>, orig: seq<T>, want: seq<T>, w: nat, x: nat, y: nat)
    requires ScanState(s, orig, want, w, x, y)
    requires x < w && Offset(x, y, w) < |s|
    ensures ScanState(s[Offset(x, y, w) := want[Offset(x, y, w)]], orig, want, w, x, y + 1)
  {
    ScanStep(w, x, y);
  }

  /** Finishing column x is starting column x + 1. */
  lemma ScanStateColumn<T>(s: seq<T>, orig: seq<T>, want: seq<T>, w: nat, h: nat, x: nat)
    requires |s| == w * h
    requires ScanState(s, orig, want, w, x, h)
    ensures ScanState(s, orig, want, w, x + 1, 0)
  {
    forall p: nat | p < |s|
      ensures Scanned(p, w, x, h) <==> Scanned(p, w, x + 1, 0)
    {
      RowBelow(p, w, h);
    }
  }

  /** After the last column the buffer holds exactly what the scan writes. */
  lemma ScanStateDone<T>(s: seq<T>, orig: seq<T>, want: seq<T>, w: nat, h: nat)
    requires |s| == w * h
    requires ScanState(s, orig, want, w, w, 0)
    ensures s == want
  {
    forall p: nat | p < |s|
      ensures s[p] == want[p]
    {
      RowBelow(p, w, h);
      ColRow(p, w);
    }
  }

  /** Every index below w*h is visited once the scan has passed column w - 1. */
  lemma ScanDone(w: nat, h: nat)
    ensures forall p: nat :: p < w * h ==> Scanned(p, w, w, 0)
  {
    forall p: nat | p < w * h
      ensures Scanned(p, w, w, 0)
    {
      RowBelow(p, w, h);
      ColRow(p, w);
    }
  }

  /** Scanned indices of column x before row h are also scanned once column x + 1 starts. */
  lemma ScanColumn(w: nat, h: nat, x: nat)
    ensures forall p: nat :: p < w * h ==> (Scanned(p, w, x, h) <==> Scanned(p, w, x + 1, 0))
  {
    forall p: nat | p < w * h
      ensures Scanned(p, w, x, h) <==> Scanned(p, w, x + 1, 0)
    {
      RowBelow(p, w, h);
    }
  }
}
