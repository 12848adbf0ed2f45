/**
 * CreatePixmap: the image is packed into a ZPixmap byte buffer (four bytes
 * per pixel, in the order blue, green, red, alpha) and uploaded with as many
 * PutImage requests as the maximum request size demands, each carrying a
 * band of whole rows. Requests are recorded rather than sent.
 */
module PixmapUpload {
  import opened Wrappers
  import opened Raster
  import opened Arith

  /** The maximum X request size assumed by the upload: (2^16)*4 bytes. */
  const MaxRequestSize := 262144

  /** The fixed part of a PutImage request, in bytes. */
  const PutImageHeader := 28

  /** The most image bytes one PutImage request can carry. */
  const MaxPayload := MaxRequestSize - PutImageHeader

  /** Go's uint16(n): n modulo 2^16. */
  function U16(n: int): (r: nat)
    ensures r < 0x1_0000
    ensures 0 <= n < 0x1_0000 ==> r == n
  {
    n % 0x1_0000
  }

  /** Go's int16(n): n wrapped into [-2^15, 2^15). */
  function I16(n: int): (r: int)
    ensures -0x8000 <= r < 0x8000
    ensures -0x8000 <= n < 0x8000 ==> r == n
  {
    (n + 0x8000) % 0x1_0000 - 0x8000
  }

  /** The requests CreatePixmap issues, with the pixmap id, depth, GC and format left out. */
  datatype XRequest =
    | CreatePixmapRequest(width: nat, height: nat)
    | PutImageRequest(width: nat, height: nat, dstY: int, data: seq<bv8>)

  // ---------------------------------------------------------------------------
  // Packing

  /** Byte q of the packed buffer: channel q % 4 (blue, green, red, alpha) of pixel q / 4, high byte. */
  function PackedByte(colors: seq<Color16>, q: nat): bv8
    requires q < 4 * |colors|
  {
    var c := colors[q / 4];
    match q % 4
    case 0 => High8(c.b)
    case 1 => High8(c.g)
    case 2 => High8(c.r)
    case _ => High8(c.a)
  }

  /** The ZPixmap buffer of an image whose colours are given row by row. */
  function Pack(colors: seq<Color16>): (data: seq<bv8>)
    ensures |data| == 4 * |colors|
  {
    seq(4 * |colors|, q requires 0 <= q < 4 * |colors| => PackedByte(colors, q))
  }

  /** The four bytes a pixel is packed into: the high bytes of blue, green, red and alpha. */
  function PixelBytes(c: Color16): (bytes: seq<bv8>)
    ensures |bytes| == 4
  {
    [High8(c.b), High8(c.g), High8(c.r), High8(c.a)]
  }

  /** Pixel o of the colours is packed into bytes 4*o to 4*o + 3. */
  lemma PackAt(colors: seq<Color16>, o: nat)
    requires o < |colors|
    ensures 4 * o + 4 <= |Pack(colors)|
    ensures Pack(colors)[4 * o..4 * o + 4] == PixelBytes(colors[o])
  {
    var i := 4 * o;
    assert i / 4 == o && (i + 1) / 4 == o && (i + 2) / 4 == o && (i + 3) / 4 == o;
    assert i % 4 == 0 && (i + 1) % 4 == 1 && (i + 2) % 4 == 2 && (i + 3) % 4 == 3;
    var data := Pack(colors);
    assert data[i] == PackedByte(colors, i);
    assert data[i + 1] == PackedByte(colors, i + 1);
    assert data[i + 2] == PackedByte(colors, i + 2);
    assert data[i + 3] == PackedByte(colors, i + 3);
  }

  /** Pixel (x, y) occupies bytes 4*(x + y*w) to 4*(x + y*w) + 3. */
  lemma PackLayout(colors: seq<Color16>, w: nat, h: nat, x: nat, y: nat)
    requires |colors| == w * h && x < w && y < h
    ensures Offset(x, y, w) < |colors|
    ensures Pack(colors)[4 * Offset(x, y, w)..4 * Offset(x, y, w) + 4] == PixelBytes(colors[Offset(x, y, w)])
  {
    OffsetInBounds(x, y, w, h);
    PackAt(colors, Offset(x, y, w));
  }

  /** No two (pixel, channel) pairs share a byte of the buffer. */
  lemma PackSlotsDisjoint(w: nat, x1: nat, y1: nat, k1: nat, x2: nat, y2: nat, k2: nat)
    requires x1 < w && x2 < w && k1 < 4 && k2 < 4
    requires 4 * Offset(x1, y1, w) + k1 == 4 * Offset(x2, y2, w) + k2
    ensures x1 == x2 && y1 == y2 && k1 == k2
  {
    assert Offset(x1, y1, w) == Offset(x2, y2, w);
    OffsetInjective(x1, y1, x2, y2, w);
  }

  /** The packing scan about to visit (x, y): visited pixels' bytes are packed, the rest still 0. */
  ghost predicate PackState(s: seq<bv8>, want: seq<bv8>, w: nat, x: nat, y: nat) {
    |s| == |want| &&
    forall q: nat :: q < |s| ==> s[q] == if Scanned(q / 4, w, x, y) then want[q] else 0
  }

  /** Packing pixel (x, y) moves the scan one row down. */
  lemma PackStateStep(s: seq<bv8>, colors: seq<Color16>, w: nat, h: nat, x: nat, y: nat)
    requires |colors| == w * h && x < w && y < h
    requires PackState(s, Pack(colors), w, x, y)
    ensures Offset(x, y, w) < |colors| && 4 * Offset(x, y, w) + 3 < |s|
    ensures var i, c := 4 * Offset(x, y, w), colors[Offset(x, y, w)];
      PackState(s[i := High8(c.b)][i + 1 := High8(c.g)][i + 2 := High8(c.r)][i + 3 := High8(c.a)], Pack(colors), w, x, y + 1)
  {
    PackLayout(colors, w, h, x, y);
    ScanStep(w, x, y);
  }

  lemma PackStateColumn(s: seq<bv8>, want: seq<bv8>, w: nat, h: nat, x: nat)
    requires |s| == 4 * (w * h)
    requires PackState(s, want, w, x, h)
    ensures PackState(s, want, w, x + 1, 0)
  {
    ScanColumn(w, h, x);
    forall q: nat | q < |s|
      ensures Scanned(q / 4, w, x, h) <==> Scanned(q / 4, w, x + 1, 0)
    {
      assert q / 4 < w * h;
    }
  }

  lemma PackStateDone(s: seq<bv8>, want: seq<bv8>, w: nat, h: nat)
    requires |s| == 4 * (w * h)
    requires PackState(s, want, w, w, 0)
    ensures s == want
  {
    ScanDone(w, h);
    forall q: nat | q < |s|
      ensures s[q] == want[q]
    {
      assert q / 4 < w * h;
    }
  }

  /** The four stores of one pixel: the high bytes of blue, green, red and alpha at i..i+3. */
  method StorePixel(imgData: array<bv8>, i: nat, c: Color16)
    requires i + 3 < imgData.Length
    modifies imgData
    ensures imgData[..] == old(imgData[..])[i := High8(c.b)][i + 1 := High8(c.g)][i + 2 := High8(c.r)][i + 3 := High8(c.a)]
  {
    imgData[i + 0] := High8(c.b);
    imgData[i + 1] := High8(c.g);
    imgData[i + 2] := High8(c.r);
    imgData[i + 3] := High8(c.a);
  }

  /**
   * The packing loops of CreatePixmap: a zeroed buffer of width*height*4
   * bytes, filled pixel by pixel with x in the outer loop.
   */
  method PackPixels(width: nat, height: nat, colors: seq<Color16>) returns (data: seq<bv8>)
    requires |colors| == width * height
    ensures data == Pack(colors)
  {
    var imgData := new bv8[width * height * 4](_ => 0);
    ghost var want := Pack(colors);
    assert imgData.Length == |want| == 4 * (width * height);
    for x := 0 to width
      invariant PackState(imgData[..], want, width, x, 0)
    {
      for y := 0 to height
        invariant PackState(imgData[..], want, width, x, y)
      {
        PackStateStep(imgData[..], colors, width, height, x, y);
        StorePixel(imgData, 4 * Offset(x, y, width), colors[Offset(x, y, width)]);
      }
      PackStateColumn(imgData[..], want, width, height, x);
    }
    PackStateDone(imgData[..], want, width, height);
    return imgData[..];
  }

  // ---------------------------------------------------------------------------
  // The chunk plan

  /** rowsPer: the whole rows that fit in one request. */
  function RowsPer(w: nat): (r: nat)
    requires w > 0
    ensures r * (w * 4) <= MaxPayload < (r + 1) * (w * 4)
  {
    var d := w * 4;
    DivNonneg(MaxPayload, d);
    DivMod(MaxPayload, d);
    MulSucc(MaxPayload / d, d);
    MaxPayload / d
  }

  /** The bytes of one full chunk: rowsPer*width*4. */
  function ChunkBytes(w: nat): nat
    requires w > 0
  {
    RowsPer(w) * w * 4
  }

  /** sends: the number of PutImage requests, len/(MAX_REQ_SIZE-28) + 1. */
  function Sends(len: nat): (n: nat)
    ensures n >= 1 && (n - 1) * MaxPayload <= len < n * MaxPayload
  {
    len / MaxPayload + 1
  }

  /** Where chunk i starts: i*step, clamped to the buffer. */
  function ChunkStart(i: nat, step: nat, len: nat): (s: nat)
    ensures s <= len
  {
    if i * step <= len then i * step else len
  }

  lemma ChunkStartMonotone(i: nat, j: nat, step: nat, len: nat)
    requires i <= j
    ensures ChunkStart(i, step, len) <= ChunkStart(j, step, len)
  {
    assert i * step <= j * step by {
      assert j * step == i * step + (j - i) * step;
    }
  }

  /** PutImage request i of the plan: chunk i of the buffer, placed at row i*rowsPer. */
  function Chunk(data: seq<bv8>, w: nat, i: nat): (req: XRequest)
    requires w > 0
    ensures req.PutImageRequest? && req.width == U16(w) && req.dstY == I16(i * RowsPer(w))
    ensures ChunkStart(i, ChunkBytes(w), |data|) <= ChunkStart(i + 1, ChunkBytes(w), |data|)
    ensures req.data == data[ChunkStart(i, ChunkBytes(w), |data|)..ChunkStart(i + 1, ChunkBytes(w), |data|)]
    ensures |req.data| <= ChunkBytes(w)
  {
    var step := ChunkBytes(w);
    ChunkAtMostStep(i, step, |data|);
    var s, e := ChunkStart(i, step, |data|), ChunkStart(i + 1, step, |data|);
    PutImageRequest(U16(w), U16((e - s) / 4 / w), I16(i * RowsPer(w)), data[s..e])
  }

  /** The first n PutImage requests of the plan. */
  function Plan(data: seq<bv8>, w: nat, n: nat): (plan: seq<XRequest>)
    requires w > 0
    ensures |plan| == n
    ensures forall i :: 0 <= i < n ==> plan[i].PutImageRequest?
  {
    seq(n, i requires 0 <= i < n => Chunk(data, w, i))
  }

  /** The PutImage requests CreatePixmap issues for a buffer. */
  function PutImagePlan(data: seq<bv8>, w: nat): seq<XRequest>
    requires w > 0
  {
    Plan(data, w, Sends(|data|))
  }

  /** The image bytes a list of PutImage requests carries, in order. */
  function SentBytes(reqs: seq<XRequest>): seq<bv8>
    requires forall i :: 0 <= i < |reqs| ==> reqs[i].PutImageRequest?
  {
    if reqs == [] then [] else SentBytes(reqs[..|reqs| - 1]) + reqs[|reqs| - 1].data
  }

  /**
   * The chunks follow one another: together the first n carry the buffer up to
   * where chunk n would start, each byte once and in order.
   */
  lemma {:induction false} PlanSendsPrefix(data: seq<bv8>, w: nat, n: nat)
    requires w > 0
    ensures SentBytes(Plan(data, w, n)) == data[..ChunkStart(n, ChunkBytes(w), |data|)]
  {
    var step := ChunkBytes(w);
    if n > 0 {
      PlanSendsPrefix(data, w, n - 1);
      assert Plan(data, w, n)[..n - 1] == Plan(data, w, n - 1);
      ChunkStartMonotone(n - 1, n, step, |data|);
      var s, e := ChunkStart(n - 1, step, |data|), ChunkStart(n, step, |data|);
      assert data[..s] + data[s..e] == data[..e];
    }
  }

  /** Every request fits: a chunk never holds more than rowsPer rows, nor more than MAX_REQ_SIZE-28 bytes. */
  lemma ChunkFits(data: seq<bv8>, w: nat, i: nat)
    requires w > 0
    ensures |Chunk(data, w, i).data| <= ChunkBytes(w) <= MaxPayload
    ensures PutImageHeader + |Chunk(data, w, i).data| <= MaxRequestSize
  {
    ChunkBytesFit(w);
    ChunkAtMostStep(i, ChunkBytes(w), |data|);
  }

  /** rowsPer whole rows fit in one request. */
  lemma ChunkBytesFit(w: nat)
    requires w > 0
    ensures ChunkBytes(w) <= MaxPayload
  {
    var d := w * 4;
    DivMod(MaxPayload, d);
    assert ChunkBytes(w) == RowsPer(w) * d;
  }

  /** Consecutive chunk starts are at most one step apart. */
  lemma ChunkAtMostStep(i: nat, step: nat, len: nat)
    ensures ChunkStart(i, step, len) <= ChunkStart(i + 1, step, len) <= ChunkStart(i, step, len) + step
  {
    assert (i + 1) * step == i * step + step;
  }

  lemma DivNonneg(a: nat, d: nat)
    requires d > 0
    ensures a / d >= 0
  {
  }

  lemma DivMod(a: int, d: int)
    requires d > 0
    ensures a == (a / d) * d + a % d && 0 <= a % d < d
  {
  }

  lemma MulZero(n: int, m: int)
    requires m > 0 && 0 <= n * m < m
    ensures n == 0
  {
  }

  /** k*m/m == k. */
  lemma DivExact(k: nat, m: nat)
    requires m > 0
    ensures (k * m) / m == k
  {
    var a := k * m;
    DivMod(a, m);
    var q := a / m;
    assert (k - q) * m == a % m by {
      assert (k - q) * m == k * m - q * m;
    }
    MulZero(k - q, m);
  }

  function Min(a: nat, b: nat): nat {
    if a <= b then a else b
  }

  /** With steps of r rows of u bytes over h rows, chunk i starts at row min(i*r, h). */
  lemma ChunkStartRows(i: nat, r: nat, u: nat, h: nat)
    requires u > 0
    ensures ChunkStart(i, u * r, u * h) == u * Min(i * r, h)
  {
    assert i * (u * r) == u * (i * r);
    MulMonotone(u, i * r, h);
  }

  /**
   * For a buffer of h rows of width w, chunk i carries whole rows: the rows
   * from min(i*rowsPer, h) up to min((i+1)*rowsPer, h).
   */
  lemma ChunkIsRows(data: seq<bv8>, w: nat, h: nat, i: nat)
    requires w > 0 && |data| == (4 * w) * h
    ensures var y0, y1 := Min(i * RowsPer(w), h), Min((i + 1) * RowsPer(w), h);
      y0 <= y1 <= h && 4 * w * y0 <= 4 * w * y1 <= |data| &&
      Chunk(data, w, i).data == data[4 * w * y0..4 * w * y1]
  {
    var r := RowsPer(w);
    var y0, y1 := Min(i * r, h), Min((i + 1) * r, h);
    assert y0 <= y1 by {
      assert i * r <= (i + 1) * r;
    }
    ChunkRowBounds(|data|, w, h, i);
    ChunkRowBounds(|data|, w, h, i + 1);
    MulMonotone(4 * w, y0, y1);
    MulMonotone(4 * w, y1, h);
  }

  /**
   * The same chunk declares the number of rows it carries as its height
   * (len/4/width) and is drawn at row i*rowsPer.
   */
  lemma ChunkHeight(data: seq<bv8>, w: nat, h: nat, i: nat)
    requires w > 0 && |data| == (4 * w) * h
    ensures var y0, y1 := Min(i * RowsPer(w), h), Min((i + 1) * RowsPer(w), h);
      y0 <= y1 &&
      Chunk(data, w, i).height == U16(y1 - y0) &&
      Chunk(data, w, i).dstY == I16(i * RowsPer(w))
  {
    var r := RowsPer(w);
    var y0, y1 := Min(i * r, h), Min((i + 1) * r, h);
    assert y0 <= y1 by {
      assert i * r <= (i + 1) * r;
    }
    var s, e := ChunkStart(i, ChunkBytes(w), |data|), ChunkStart(i + 1, ChunkBytes(w), |data|);
    assert s == 4 * w * y0 && e == 4 * w * y1 by {
      ChunkRowBounds(|data|, w, h, i);
      ChunkRowBounds(|data|, w, h, i + 1);
    }
    RowsBetween(s, e, w, y0, y1);
  }

  /** The bytes between the starts of rows y0 and y1 hold y1-y0 rows: (e-s)/4/width. */
  lemma RowsBetween(s: nat, e: nat, w: nat, y0: nat, y1: nat)
    requires w > 0 && y0 <= y1 && s == 4 * w * y0 && e == 4 * w * y1
    ensures s <= e && (e - s) / 4 / w == y1 - y0
  {
    assert e - s == (4 * w) * (y1 - y0);
    RowsHeight(w, y1 - y0);
  }

  /** Chunk i of a buffer of h rows of width w starts at the first byte of row min(i*rowsPer, h). */
  lemma ChunkRowBounds(len: nat, w: nat, h: nat, i: nat)
    requires w > 0 && len == (4 * w) * h
    ensures ChunkStart(i, ChunkBytes(w), len) == 4 * w * Min(i * RowsPer(w), h)
  {
    assert ChunkBytes(w) == (4 * w) * RowsPer(w);
    ChunkStartRows(i, RowsPer(w), 4 * w, h);
  }

  /** A run of whole rows declares its row count: len/4/width. */
  lemma RowsHeight(w: nat, rows: nat)
    requires w > 0
    ensures (4 * w) * rows / 4 / w == rows
  {
    assert (4 * w) * rows == (w * rows) * 4;
    DivExact(w * rows, 4);
    assert w * rows == rows * w;
    DivExact(rows, w);
  }

  /**
   * CreatePixmap: the pixmap is created at the image's size, the image is
   * packed, and the packed buffer is sent in Sends(len) PutImage requests.
   * A width of 0 divides by zero when rowsPer is computed, after the pixmap
   * has been created.
   */
  method CreatePixmap(width: nat, height: nat, colors: seq<Color16>) returns (sent: seq<XRequest>, failure: Option<GraphicsError>)
    requires |colors| == width * height
    ensures failure.Some? <==> width == 0
    ensures failure.Some? ==> failure.value == DivideByZero && sent == [CreatePixmapRequest(U16(width), U16(height))]
    ensures failure.None? ==> width > 0 && sent == [CreatePixmapRequest(U16(width), U16(height))] + PutImagePlan(Pack(colors), width)
  {
    var imgData := PackPixels(width, height, colors);
    var imgDataLen := |imgData|;
    sent := [CreatePixmapRequest(U16(width), U16(height))];
    var sends := imgDataLen / (MaxRequestSize - 28) + 1;
    if width * 4 == 0 {
      return sent, Some(DivideByZero);
    }
    var rowsPer := (MaxRequestSize - 28) / (width * 4);
    assert rowsPer == RowsPer(width);
    ghost var step := ChunkBytes(width);
    var ypos, startBytes, endBytes := 0, 0, 0;
    for i := 0 to sends
      invariant startBytes == ChunkStart(i, step, imgDataLen)
      invariant ypos == i * rowsPer
      invariant sent == [CreatePixmapRequest(U16(width), U16(height))] + Plan(imgData, width, i)
    {
      var req;
      req, endBytes := PutImageChunk(imgData, width, rowsPer, i, startBytes, ypos);
      sent := sent + [req];
      PlanSnoc(imgData, width, i);
      startBytes := endBytes;
      MulSucc(i, rowsPer);
      ypos := ypos + rowsPer;
    }
    return sent, None;
  }

  /**
   * One pass of the upload loop: the band from startBytes, rowsPer*width*4
   * bytes long or cut at the end of the buffer, as a PutImage request drawn
   * at row ypos. From the start of chunk i this is chunk i, and it ends where
   * chunk i + 1 starts.
   */
  method PutImageChunk(imgData: seq<bv8>, width: nat, rowsPer: nat, i: nat, startBytes: nat, ypos: int)
    returns (req: XRequest, endBytes: nat)
    requires width > 0 && rowsPer == RowsPer(width) && ypos == i * rowsPer
    requires startBytes == ChunkStart(i, ChunkBytes(width), |imgData|)
    ensures req == Chunk(imgData, width, i)
    ensures endBytes == ChunkStart(i + 1, ChunkBytes(width), |imgData|)
  {
    endBytes := startBytes + rowsPer * width * 4;
    if endBytes > |imgData| {
      endBytes := |imgData|;
    }
    ChunkOfLoop(imgData, width, i, startBytes, endBytes);
    var data := imgData[startBytes..endBytes];
    var h := |data| / 4 / width;
    req := PutImageRequest(U16(width), U16(h), I16(ypos), data);
  }

  lemma MulSucc(i: nat, m: nat)
    ensures (i + 1) * m == i * m + m
  {
  }

  /** One more request extends the plan by chunk i. */
  lemma PlanSnoc(data: seq<bv8>, w: nat, i: nat)
    requires w > 0
    ensures Plan(data, w, i + 1) == Plan(data, w, i) + [Chunk(data, w, i)]
  {
  }

  /**
   * One pass of the upload loop: from the start of chunk i, adding
   * rowsPer*width*4 and clamping to the buffer reaches the start of chunk
   * i + 1, and the slice between them is chunk i's data.
   */
  lemma ChunkOfLoop(data: seq<bv8>, w: nat, i: nat, s: nat, e: nat)
    requires w > 0 && s == ChunkStart(i, ChunkBytes(w), |data|)
    requires e == if s + RowsPer(w) * w * 4 > |data| then |data| else s + RowsPer(w) * w * 4
    ensures s <= e == ChunkStart(i + 1, ChunkBytes(w), |data|)
    ensures Chunk(data, w, i) == PutImageRequest(U16(w), U16((e - s) / 4 / w), I16(i * RowsPer(w)), data[s..e])
  {
    var step := ChunkBytes(w);
    assert (i + 1) * step == i * step + step;
  }

  // ---------------------------------------------------------------------------
  // The send count does not cover every image

  /**
   * With width 1000 and height 262 the buffer holds 1048000 bytes, sends is 4
   * and rowsPer is 65, so the four requests carry 4*65 = 260 of the 262 rows:
   * the last 8000 bytes are never sent.
   */
  lemma PlanMissesLastRows(colors: seq<Color16>)
    requires |colors| == 1000 * 262
    ensures |Pack(colors)| == 1048000
    ensures Sends(1048000) == 4 && RowsPer(1000) == 65
    ensures SentBytes(PutImagePlan(Pack(colors), 1000)) == Pack(colors)[..1040000]
  {
    assert ChunkBytes(1000) == 260000;
    PlanSendsPrefix(Pack(colors), 1000, 4);
  }

  /** The send count that covers the buffer: enough full chunks for every byte. */
  function CoveringSends(len: nat, step: nat): (n: nat)
    requires step > 0
    ensures n * step >= len
    ensures n > 0 ==> (n - 1) * step < len
  {
    var n := (len + step - 1) / step;
    assert n * step + (len + step - 1) % step == len + step - 1;
    n
  }

  /** The corrected plan: as many requests as CoveringSends asks for. */
  function CoveringPlan(data: seq<bv8>, w: nat): seq<XRequest>
    requires w > 0 && ChunkBytes(w) > 0
  {
    Plan(data, w, CoveringSends(|data|, ChunkBytes(w)))
  }

  /** Below CoveringSends every chunk starts inside the buffer and is not empty. */
  lemma CoveringChunkNonEmpty(len: nat, step: nat, i: nat)
    requires step > 0 && i < CoveringSends(len, step)
    ensures ChunkStart(i, step, len) < ChunkStart(i + 1, step, len)
  {
    var n := CoveringSends(len, step);
    assert i * step < len by {
      MulMonotone(step, i, n - 1);
      assert i * step <= (n - 1) * step;
    }
    assert (i + 1) * step == i * step + step;
  }

  /** The corrected plan sends the whole buffer, and none of its requests is empty. */
  lemma CoveringPlanSendsAll(data: seq<bv8>, w: nat)
    requires w > 0 && ChunkBytes(w) > 0
    ensures SentBytes(CoveringPlan(data, w)) == data
    ensures forall i :: 0 <= i < |CoveringPlan(data, w)| ==> |CoveringPlan(data, w)[i].data| > 0
  {
    var step := ChunkBytes(w);
    var n := CoveringSends(|data|, step);
    PlanSendsPrefix(data, w, n);
    assert ChunkStart(n, step, |data|) == |data|;
    assert data[..|data|] == data;
    forall i | 0 <= i < n
      ensures |CoveringPlan(data, w)[i].data| > 0
    {
      CoveringChunkNonEmpty(|data|, step, i);
    }
  }
}
