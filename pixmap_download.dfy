/**
 * PixmapToImage and BitmapToImage: the image data of a pixmap, as the X
 * server returns it from GetImage, is unpacked into a buffer of pixels and
 * then copied into a new image.RGBA, pixel (x, y) from buffer index x + y*w.
 * The geometry and GetImage replies are inputs: a value, or the error code
 * of the request that failed.
 */
module PixmapDownload {
  import opened Wrappers
  import opened Raster
  import PixmapUpload

  // ---------------------------------------------------------------------------
  // ZPixmap: four bytes per pixel, blue, green, red, unused

  /** Pixel j of ZPixmap data: the bytes at 4j (blue), 4j+1 (green) and 4j+2 (red), fully opaque. */
  function ZPixel(data: seq<bv8>, j: nat): RGBA
    requires 4 * j + 2 < |data|
  {
    RGBA(data[4 * j + 2], data[4 * j + 1], data[4 * j], 255)
  }

  /** The pixel buffer: one pixel per group of bytes that holds a red byte, Transparent after that. */
  function ZPixmapPixels(data: seq<bv8>, n: nat): (pix: seq<RGBA>)
    ensures |pix| == n
  {
    seq(n, j requires 0 <= j < n => if 4 * j + 2 < |data| then ZPixel(data, j) else Transparent)
  }

  /**
   * Whether the unpacking loop runs to the end: the last group of bytes is
   * not cut short before its red byte, and there are no more groups than
   * pixels in the buffer.
   */
  predicate ZPixmapFits(len: nat, n: nat) {
    len % 4 != 1 && len % 4 != 2 && (len + 3) / 4 <= n
  }

  /** The image PixmapToImage builds from GetImage data of a w by h pixmap. */
  function DecodeZPixmap(data: seq<bv8>, w: nat, h: nat): (r: Result<Image, GraphicsError>)
    ensures r.Success? <==> ZPixmapFits(|data|, w * h)
    ensures r.Failure? ==> r.error == IndexOutOfRange
    ensures r.Success? ==> r.value.width == w && r.value.height == h && |r.value.pix| == w * h
  {
    if ZPixmapFits(|data|, w * h) then Success(Image(w, h, ZPixmapPixels(data, w * h)))
    else Failure(IndexOutOfRange)
  }

  /** PixmapToImage: a failed request is passed on, otherwise the data is decoded. */
  function ZPixmapResult(geom: Result<(nat, nat), int>, reply: Result<seq<bv8>, int>): Result<Image, GraphicsError> {
    if geom.Failure? then Failure(RequestFailed(geom.error))
    else if reply.Failure? then Failure(RequestFailed(reply.error))
    else DecodeZPixmap(reply.value, geom.value.0, geom.value.1)
  }

  /**
   * Pixel (x, y) of the decoded image is group x + y*w of the data with blue
   * and red swapped back into RGBA order and alpha 255; pixels past the end of
   * the data stay transparent.
   */
  lemma ZPixmapPixelAt(data: seq<bv8>, w: nat, h: nat, x: nat, y: nat)
    requires ZPixmapFits(|data|, w * h) && x < w && y < h
    ensures var o := Offset(x, y, w);
      o < w * h &&
      DecodeZPixmap(data, w, h).value.pix[o] ==
        if 4 * o + 2 < |data| then RGBA(data[4 * o + 2], data[4 * o + 1], data[4 * o], 255) else Transparent
  {
    OffsetInBounds(x, y, w, h);
  }

  /** A colour as it comes back from a pixmap: the high bytes of red, green and blue, opaque. */
  function Opaque(c: Color16): RGBA {
    RGBA(High8(c.r), High8(c.g), High8(c.b), 255)
  }

  /**
   * Reading back what CreatePixmap uploads: the packed buffer of a w by h
   * image decodes to that image with each colour cut to its high bytes and
   * alpha set to 255.
   */
  lemma ZPixmapOfPack(colors: seq<Color16>, w: nat, h: nat)
    requires |colors| == w * h
    ensures DecodeZPixmap(PixmapUpload.Pack(colors), w, h) ==
      Success(Image(w, h, seq(w * h, k requires 0 <= k < w * h => Opaque(colors[k]))))
  {
    var data := PixmapUpload.Pack(colors);
    var n := |colors|;
    assert ZPixmapFits(|data|, n) by {
      assert (|data| + 3) / 4 == n;
    }
    forall k | 0 <= k < n
      ensures ZPixmapPixels(data, n)[k] == Opaque(colors[k])
    {
      ZPixelOfPack(colors, k);
    }
    assert ZPixmapPixels(data, n) == seq(n, k requires 0 <= k < n => Opaque(colors[k]));
  }

  /** Group k of the packed buffer unpacks to colour k, cut to its high bytes and opaque. */
  lemma ZPixelOfPack(colors: seq<Color16>, k: nat)
    requires k < |colors|
    ensures 4 * k + 2 < |PixmapUpload.Pack(colors)|
    ensures ZPixel(PixmapUpload.Pack(colors), k) == Opaque(colors[k])
  {
    var data := PixmapUpload.Pack(colors);
    PixmapUpload.PackAt(colors, k);
    assert data[4 * k..4 * k + 4] == PixmapUpload.PixelBytes(colors[k]);
    assert data[4 * k] == data[4 * k..4 * k + 4][0];
    assert data[4 * k + 1] == data[4 * k..4 * k + 4][1];
    assert data[4 * k + 2] == data[4 * k..4 * k + 4][2];
  }

  /** An image.RGBA survives the trip through a pixmap except for its alpha. */
  lemma ZPixmapOfImage(pix: seq<RGBA>, w: nat, h: nat)
    requires |pix| == w * h
    ensures var colors := seq(|pix|, k requires 0 <= k < |pix| => ColorOf(pix[k]));
      DecodeZPixmap(PixmapUpload.Pack(colors), w, h) ==
        Success(Image(w, h, seq(w * h, k requires 0 <= k < w * h => pix[k].(a := 255))))
  {
    var colors := seq(|pix|, k requires 0 <= k < |pix| => ColorOf(pix[k]));
    ZPixmapOfPack(colors, w, h);
    forall k | 0 <= k < w * h
      ensures Opaque(colors[k]) == pix[k].(a := 255)
    {
      StoredColorOf(pix[k]);
    }
    assert seq(w * h, k requires 0 <= k < w * h => Opaque(colors[k])) ==
      seq(w * h, k requires 0 <= k < w * h => pix[k].(a := 255));
  }

  /** The ZPixmap unpacking loop after j groups: groups before j are unpacked, the rest transparent. */
  ghost predicate ZUnpacked(buf: seq<RGBA>, data: seq<bv8>, j: nat)
    requires 4 * j <= |data| + 1
  {
    forall k :: 0 <= k < |buf| ==> buf[k] == if k < j then ZPixel(data, k) else Transparent
  }

  /**
   * PixmapToImage: unpack every group of four bytes into a buffer of width*height
   * pixels, then copy the buffer into a new image with SetRGBA. Data with a
   * cut-off last group, or with more groups than pixels, indexes out of range.
   */
  method PixmapToImage(geom: Result<(nat, nat), int>, reply: Result<seq<bv8>, int>) returns (r: Result<Image, GraphicsError>)
    ensures r == ZPixmapResult(geom, reply)
  {
    if geom.Failure? {
      return Failure(RequestFailed(geom.error));
    }
    var (width, height) := geom.value;
    if reply.Failure? {
      return Failure(RequestFailed(reply.error));
    }
    var data := reply.value;

    var buf := new RGBA[width * height](_ => Transparent);
    var i, j := 0, 0;
    while i < |data|
      invariant i == 4 * j && 4 * j <= |data| + 1 && j <= buf.Length
      invariant ZUnpacked(buf[..], data, j)
    {
      if i + 2 >= |data| {
        ZCutShort(|data|, j, buf.Length);
        return Failure(IndexOutOfRange);
      }
      var blue, green, red := data[i + 0], data[i + 1], data[i + 2];
      if j >= buf.Length {
        ZTooMany(|data|, j, buf.Length);
        return Failure(IndexOutOfRange);
      }
      ZStep(buf[..], data, j);
      buf[j] := RGBA(red, green, blue, 255);
      i, j := i + 4, j + 1;
    }
    ZDone(buf[..], data, j);

    var pix := SetPixels(buf, width, height);
    return Success(Image(width, height, pix));
  }

  /** The loop meets a group cut short before its red byte: the data does not fit. */
  lemma ZCutShort(len: nat, j: nat, n: nat)
    requires 4 * j < len <= 4 * j + 2
    ensures !ZPixmapFits(len, n)
  {
  }

  /** The loop meets a whole group with no pixel left for it: the data does not fit. */
  lemma ZTooMany(len: nat, j: nat, n: nat)
    requires 4 * j + 2 < len && j >= n
    ensures !ZPixmapFits(len, n)
  {
  }

  /** Unpacking group j extends the unpacked prefix by one pixel. */
  lemma ZStep(buf: seq<RGBA>, data: seq<bv8>, j: nat)
    requires 4 * j + 2 < |data| && j < |buf|
    requires ZUnpacked(buf, data, j)
    ensures ZUnpacked(buf[j := ZPixel(data, j)], data, j + 1)
  {
  }

  /** When the loop runs out of data, the data fits and the buffer is ZPixmapPixels. */
  lemma ZDone(buf: seq<RGBA>, data: seq<bv8>, j: nat)
    requires |data| <= 4 * j <= |data| + 1 && j <= |buf|
    requires ZUnpacked(buf, data, j)
    ensures ZPixmapFits(|data|, |buf|)
    ensures buf == ZPixmapPixels(data, |buf|)
  {
  }

  /** The copy loop of PixmapToImage: a new image whose pixel (x, y) is set to buf[x + y*width] by SetRGBA. */
  method SetPixels(buf: array<RGBA>, width: nat, height: nat) returns (pix: seq<RGBA>)
    requires buf.Length == width * height
    ensures pix == buf[..]
  {
    var img := new RGBA[width * height](_ => Transparent);
    ghost var blank := img[..];
    ScanStateStart(img[..], buf[..], width);
    for x := 0 to width
      invariant ScanState(img[..], blank, buf[..], width, x, 0)
    {
      for y := 0 to height
        invariant ScanState(img[..], blank, buf[..], width, x, y)
      {
        OffsetInBounds(x, y, width, height);
        ScanStateStep(img[..], blank, buf[..], width, x, y);
        img[x + y * width] := buf[x + y * width];
      }
      ScanStateColumn(img[..], blank, buf[..], width, height, x);
    }
    ScanStateDone(img[..], blank, buf[..], width, height);
    return img[..];
  }

  // ---------------------------------------------------------------------------
  // XYPixmap bitmaps: one bit per pixel, least significant bit first

  /** whiteOrBlack: alpha 255 when the lowest bit is set, 0 otherwise. */
  function WhiteOrBlack(b: bv8): (a: bv8)
    ensures a == 0 || a == 255
  {
    if b & 1 > 0 then 255 else 0
  }

  /** The alpha of buffer index q: bit q % 8 of byte q / 8, or 0 past the data. */
  function BitAlpha(data: seq<bv8>, q: nat): bv8 {
    if q < 8 * |data| then WhiteOrBlack(data[q / 8] >> (q % 8)) else 0
  }

  /** The image pixel of an alpha value: color.Alpha stored into an image.RGBA. */
  function AlphaPixel(a: bv8): (p: RGBA)
    ensures p == RGBA(a, a, a, a)
  {
    StoredAlpha(a);
    Stored(AlphaColor(a))
  }

  /** The image BitmapToImage builds from GetImage data of a w by h bitmap. */
  function DecodeXYBitmap(data: seq<bv8>, w: nat, h: nat): (r: Result<Image, GraphicsError>)
    ensures r.Success? <==> 8 * |data| <= w * h
    ensures r.Failure? ==> r.error == IndexOutOfRange
    ensures r.Success? ==> r.value.width == w && r.value.height == h && |r.value.pix| == w * h
  {
    if 8 * |data| <= w * h then
      Success(Image(w, h, seq(w * h, q requires 0 <= q < w * h => AlphaPixel(BitAlpha(data, q)))))
    else Failure(IndexOutOfRange)
  }

  /** BitmapToImage: a failed request is passed on, otherwise the data is decoded. */
  function XYBitmapResult(geom: Result<(nat, nat), int>, reply: Result<seq<bv8>, int>): Result<Image, GraphicsError> {
    if geom.Failure? then Failure(RequestFailed(geom.error))
    else if reply.Failure? then Failure(RequestFailed(reply.error))
    else DecodeXYBitmap(reply.value, geom.value.0, geom.value.1)
  }

  /** Shifting bit k down and testing the lowest bit is testing bit k. */
  lemma ShiftTest(b: bv8, k: nat)
    requires k < 8
    ensures (b >> k) & 1 > 0 <==> b & (1 << k) != 0
  {
    if k == 0 {
    } else if k == 1 {
    } else if k == 2 {
    } else if k == 3 {
    } else if k == 4 {
    } else if k == 5 {
    } else if k == 6 {
    } else {
    }
  }

  /**
   * Pixel (x, y) of a decoded bitmap is white and opaque exactly when bit
   * (x + y*w) % 8 of byte (x + y*w) / 8 is set, and fully transparent black
   * otherwise, also past the end of the data.
   */
  lemma BitmapPixelAt(data: seq<bv8>, w: nat, h: nat, x: nat, y: nat)
    requires 8 * |data| <= w * h && x < w && y < h
    ensures var o := Offset(x, y, w);
      o < w * h &&
      var p := DecodeXYBitmap(data, w, h).value.pix[o];
      (p == RGBA(255, 255, 255, 255) || p == RGBA(0, 0, 0, 0)) &&
      (p.a == 255 <==> o < 8 * |data| && data[o / 8] & (1 << (o % 8)) != 0)
  {
    var o := Offset(x, y, w);
    OffsetInBounds(x, y, w, h);
    if o < 8 * |data| {
      ShiftTest(data[o / 8], o % 8);
    }
  }

  /** Shifting right by k and then by 1 is shifting right by k + 1. */
  lemma ShiftStep(b: bv8, k: nat)
    requires k < 8
    ensures (b >> k) >> 1 == b >> (k + 1)
  {
  }

  /** The bitmap unpacking loop before bit k of byte i: earlier bits are unpacked, the rest still 0. */
  ghost predicate BitsUnpacked(buf: seq<bv8>, data: seq<bv8>, upto: nat) {
    forall q :: 0 <= q < |buf| ==> buf[q] == if q < upto then BitAlpha(data, q) else 0
  }

  /**
   * BitmapToImage: unpack every byte into eight alpha values, lowest bit
   * first, into a buffer of width*height values, then set each pixel of a new
   * image to its alpha value. Data with more bits than pixels indexes out of
   * range.
   */
  method BitmapToImage(geom: Result<(nat, nat), int>, reply: Result<seq<bv8>, int>) returns (r: Result<Image, GraphicsError>)
    ensures r == XYBitmapResult(geom, reply)
  {
    if geom.Failure? {
      return Failure(RequestFailed(geom.error));
    }
    var (width, height) := geom.value;
    if reply.Failure? {
      return Failure(RequestFailed(reply.error));
    }
    var data := reply.value;

    var buf := new bv8[width * height](_ => 0);
    for i := 0 to |data|
      invariant 8 * i <= buf.Length
      invariant BitsUnpacked(buf[..], data, 8 * i)
    {
      var b := data[i];
      for k := 0 to 8
        invariant 8 * i + k <= buf.Length
        invariant b == data[i] >> k
        invariant BitsUnpacked(buf[..], data, 8 * i + k)
      {
        if i * 8 + k >= buf.Length {
          BitsTooMany(|data|, i, k, buf.Length);
          return Failure(IndexOutOfRange);
        }
        BitsStep(buf[..], data, i, k);
        buf[i * 8 + k] := WhiteOrBlack(b);
        ShiftStep(data[i], k);
        b := b >> 1;
      }
    }
    ghost var alphas := buf[..];
    var pix := SetAlphas(buf, width, height);
    assert pix == seq(width * height, q requires 0 <= q < width * height => AlphaPixel(BitAlpha(data, q))) by {
      BitsDone(alphas, data);
    }
    return Success(Image(width, height, pix));
  }

  /** Bit k of byte i has no pixel left for it: the data has more bits than the image has pixels. */
  lemma BitsTooMany(len: nat, i: nat, k: nat, n: nat)
    requires i < len && k < 8 && 8 * i + k >= n
    ensures !(8 * len <= n)
  {
  }

  /** Unpacking bit k of byte i extends the unpacked prefix by one value. */
  lemma BitsStep(buf: seq<bv8>, data: seq<bv8>, i: nat, k: nat)
    requires i < |data| && k < 8 && 8 * i + k < |buf|
    requires BitsUnpacked(buf, data, 8 * i + k)
    ensures BitsUnpacked(buf[8 * i + k := WhiteOrBlack(data[i] >> k)], data, 8 * i + k + 1)
  {
    assert (8 * i + k) / 8 == i && (8 * i + k) % 8 == k;
  }

  /** After every byte, the buffer holds BitAlpha at each index. */
  lemma BitsDone(buf: seq<bv8>, data: seq<bv8>)
    requires 8 * |data| <= |buf|
    requires BitsUnpacked(buf, data, 8 * |data|)
    ensures forall q :: 0 <= q < |buf| ==> buf[q] == BitAlpha(data, q)
  {
  }

  /** The copy loop of BitmapToImage: a new image whose pixel (x, y) is set to color.Alpha{buf[x + y*width]}. */
  method SetAlphas(buf: array<bv8>, width: nat, height: nat) returns (pix: seq<RGBA>)
    requires buf.Length == width * height
    ensures |pix| == buf.Length
    ensures forall q :: 0 <= q < |pix| ==> pix[q] == AlphaPixel(buf[q])
  {
    ghost var alphas := buf[..];
    ghost var want := seq(width * height, q requires 0 <= q < width * height => AlphaPixel(alphas[q]));
    var img := new RGBA[width * height](_ => Transparent);
    ghost var blank := img[..];
    ScanStateStart(img[..], want, width);
    for x := 0 to width
      invariant ScanState(img[..], blank, want, width, x, 0)
    {
      for y := 0 to height
        invariant ScanState(img[..], blank, want, width, x, y)
      {
        OffsetInBounds(x, y, width, height);
        ScanStateStep(img[..], blank, want, width, x, y);
        img[x + y * width] := Stored(AlphaColor(buf[x + y * width]));
      }
      ScanStateColumn(img[..], blank, want, width, height, x);
    }
    ScanStateDone(img[..], blank, want, width, height);
    return img[..];
  }
}
