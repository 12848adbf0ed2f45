/**
 * ColorImage: every visible pixel of an image.RGBA takes the red, green and
 * blue of a target colour and keeps its own alpha; fully transparent pixels
 * are left alone. The image is updated in place.
 */
module Recolor {
  import opened Raster
  import PixmapDownload

  /**
   * The new value of one pixel: its alpha is read through At(x, y).RGBA(), and
   * when that is non-zero the pixel is set to color.RGBA{r, g, b, uint8(a)}
   * where r, g, b are the low bytes of the target's channels.
   */
  function Recolor(p: RGBA, clr: Color16): (q: RGBA)
    ensures q.a == p.a
    ensures p.a == 0 ==> q == p
    ensures p.a != 0 ==> q.r == Low8(clr.r) && q.g == Low8(clr.g) && q.b == Low8(clr.b)
  {
    WidenRoundTrip(p.a);
    StoredColorOf(RGBA(Low8(clr.r), Low8(clr.g), Low8(clr.b), Low8(Widen(p.a))));
    var a := Widen(p.a);
    if a > 0 then Stored(ColorOf(RGBA(Low8(clr.r), Low8(clr.g), Low8(clr.b), Low8(a)))) else p
  }

  /** Every pixel of a buffer recoloured. */
  function Recolored(pix: seq<RGBA>, clr: Color16): (res: seq<RGBA>)
    ensures |res| == |pix|
  {
    seq(|pix|, k requires 0 <= k < |pix| => Recolor(pix[k], clr))
  }

  /** Recolouring twice with the same colour is recolouring once. */
  lemma RecoloredIdempotent(pix: seq<RGBA>, clr: Color16)
    ensures Recolored(Recolored(pix, clr), clr) == Recolored(pix, clr)
  {
    var once := Recolored(pix, clr);
    forall k | 0 <= k < |pix|
      ensures Recolor(once[k], clr) == once[k]
    {
      var p, q := pix[k], once[k];
      if p.a != 0 {
        assert q == RGBA(Low8(clr.r), Low8(clr.g), Low8(clr.b), p.a);
      }
    }
  }

  /**
   * Recolouring with a color.RGBA puts exactly its red, green and blue into
   * every visible pixel; the target's own alpha plays no part.
   */
  lemma RecolorWithRGBA(p: RGBA, c: RGBA)
    ensures Recolor(p, ColorOf(c)) == if p.a == 0 then p else RGBA(c.r, c.g, c.b, p.a)
  {
    WidenRoundTrip(c.r);
    WidenRoundTrip(c.g);
    WidenRoundTrip(c.b);
  }

  /**
   * Re-colouring a bitmap: a bitmap read back by BitmapToImage and recoloured
   * with a color.RGBA has the colour, opaque, where its bits are set and stays
   * fully transparent elsewhere.
   */
  lemma RecolorBitmap(data: seq<bv8>, w: nat, h: nat, c: RGBA)
    requires 8 * |data| <= w * h
    ensures var pix := PixmapDownload.DecodeXYBitmap(data, w, h).value.pix;
      forall k :: 0 <= k < |pix| ==>
        Recolored(pix, ColorOf(c))[k] ==
          if pix[k].a == 255 then RGBA(c.r, c.g, c.b, 255) else RGBA(0, 0, 0, 0)
  {
    var pix := PixmapDownload.DecodeXYBitmap(data, w, h).value.pix;
    forall k | 0 <= k < |pix|
      ensures Recolored(pix, ColorOf(c))[k] == if pix[k].a == 255 then RGBA(c.r, c.g, c.b, 255) else RGBA(0, 0, 0, 0)
    {
      RecolorWithRGBA(pix[k], c);
    }
  }

  /**
   * ColorImage on an image.RGBA of width by height pixels: every pixel is
   * replaced by its recoloured value, visiting x in the outer loop.
   */
  method ColorImage(img: array<RGBA>, width: nat, height: nat, clr: Color16)
    requires img.Length == width * height
    modifies img
    ensures img[..] == Recolored(old(img[..]), clr)
  {
    ghost var orig := img[..];
    ghost var want := Recolored(orig, clr);
    var r, g, b := Low8(clr.r), Low8(clr.g), Low8(clr.b);
    ScanStateStart(img[..], want, width);
    for x := 0 to width
      invariant ScanState(img[..], orig, want, width, x, 0)
    {
      for y := 0 to height
        invariant ScanState(img[..], orig, want, width, x, y)
      {
        OffsetInBounds(x, y, width, height);
        var o := x + y * width;
        ScanStateUnvisited(img[..], orig, want, width, x, y);
        ScanStateStep(img[..], orig, want, width, x, y);
        var a := Widen(img[o].a);
        if a > 0 {
          img[o] := Stored(ColorOf(RGBA(r, g, b, Low8(a))));
        } else {
          assert img[..][o := want[o]] == img[..];
        }
      }
      ScanStateColumn(img[..], orig, want, width, height, x);
    }
    ScanStateDone(img[..], orig, want, width, height);
  }
}
