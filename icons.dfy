/**
 * Window icons as the Extended Window Manager Hints carry them in
 * _NET_WM_ICON (Application Window Properties section): a width, a height and
 * width*height 32-bit ARGB words, row by row. FindBestIcon picks one icon for
 * a preferred size; EwmhIconToImage turns one into an image and an alpha mask.
 */
module Icons {
  import opened Wrappers
  import opened Raster

  /** An ewmh.WmIcon. */
  datatype WmIcon = WmIcon(width: nat, height: nat, data: seq<bv32>)

  function Area(icon: WmIcon): int {
    icon.width * icon.height
  }

  // ---------------------------------------------------------------------------
  // FindBestIcon

  /** Some icon among the first n is at least as large as the preferred area. */
  ghost predicate AnyLargeEnough(icons: seq<WmIcon>, n: nat, parea: int)
    requires n <= |icons|
  {
    exists i :: 0 <= i < n && Area(icons[i]) >= parea
  }

  /**
   * Icon b is the one FindBestIcon settles on among the first n: the smallest
   * icon at least as large as the preferred area (the last of equal ones) if
   * there is such an icon, and otherwise the largest icon (the first of equal
   * ones).
   */
  ghost predicate IsBestIcon(icons: seq<WmIcon>, n: nat, parea: int, b: nat)
    requires n <= |icons|
  {
    b < n &&
    if AnyLargeEnough(icons, n, parea) then
      Area(icons[b]) >= parea &&
      (forall i :: 0 <= i < n && Area(icons[i]) >= parea ==> Area(icons[b]) <= Area(icons[i])) &&
      (forall i :: b < i < n && Area(icons[i]) >= parea ==> Area(icons[b]) < Area(icons[i]))
    else
      (forall i :: 0 <= i < n ==> Area(icons[i]) <= Area(icons[b])) &&
      (forall i :: 0 <= i < b ==> Area(icons[i]) < Area(icons[b]))
  }

  /** The rule picks one icon: two icons that both meet it are the same icon. */
  lemma BestIconUnique(icons: seq<WmIcon>, n: nat, parea: int, b1: nat, b2: nat)
    requires n <= |icons|
    requires IsBestIcon(icons, n, parea, b1) && IsBestIcon(icons, n, parea, b2)
    ensures b1 == b2
  {
    if AnyLargeEnough(icons, n, parea) {
      assert Area(icons[b1]) == Area(icons[b2]);
    } else {
      assert Area(icons[b1]) == Area(icons[b2]);
    }
  }

  /**
   * One step of the scan: comparing icon n with the best so far keeps the
   * best of the first n + 1 icons.
   */
  lemma BestIconStep(icons: seq<WmIcon>, n: nat, parea: int, b: nat)
    requires n < |icons|
    requires IsBestIcon(icons, n, parea, b)
    ensures var bestArea, iconArea := Area(icons[b]), Area(icons[n]);
      var b' := if (iconArea >= parea && iconArea <= bestArea) || (bestArea < parea && iconArea > bestArea) then n else b;
      IsBestIcon(icons, n + 1, parea, b')
  {
    var bestArea, iconArea := Area(icons[b]), Area(icons[n]);
    if AnyLargeEnough(icons, n, parea) {
      assert AnyLargeEnough(icons, n + 1, parea);
    } else if iconArea >= parea {
      assert AnyLargeEnough(icons, n + 1, parea);
      assert bestArea < parea;
    } else {
      assert !AnyLargeEnough(icons, n + 1, parea) by {
        forall i | 0 <= i < n + 1 ensures Area(icons[i]) < parea {
          if i < n {
            assert !(Area(icons[i]) >= parea);
          }
        }
      }
    }
  }

  /**
   * FindBestIcon: no icon for an empty list; otherwise the icon the rule of
   * IsBestIcon picks for the preferred area width*height.
   */
  method FindBestIcon(width: int, height: int, icons: seq<WmIcon>) returns (r: Option<nat>)
    ensures r.None? <==> |icons| == 0
    ensures r.Some? ==> r.value < |icons| && IsBestIcon(icons, |icons|, width * height, r.value)
  {
    if |icons| == 0 {
      return None;
    }
    var parea := width * height;
    var best := -1;
    for i := 0 to |icons|
      invariant i == 0 <==> best == -1
      invariant i > 0 ==> 0 <= best < i && IsBestIcon(icons, i, parea, best)
    {
      if best == -1 {
        best := i;
        continue;
      }
      var bestArea := Area(icons[best]);
      var iconArea := Area(icons[i]);
      BestIconStep(icons, i, parea, best);
      if (iconArea >= parea && iconArea <= bestArea) || (bestArea < parea && iconArea > bestArea) {
        best := i;
      }
    }
    if best > -1 {
      return Some(best);
    }
    return None;
  }

  /**
   * What the doc comment promises: a bigger icon is always preferred, so the
   * pick is smaller than the preferred area only when every icon is; and no
   * icon at least as large as the preferred area is smaller than the pick.
   */
  lemma BestIconPrefersBigger(icons: seq<WmIcon>, parea: int, b: nat)
    requires IsBestIcon(icons, |icons|, parea, b)
    ensures Area(icons[b]) < parea ==> forall i :: 0 <= i < |icons| ==> Area(icons[i]) < parea
    ensures forall i :: 0 <= i < |icons| && Area(icons[i]) >= parea ==> parea <= Area(icons[b]) <= Area(icons[i])
  {
  }

  // ---------------------------------------------------------------------------
  // EwmhIconToImage

  /** Adding two words with no bit in common never carries: it is their OR. */
  lemma AddDisjoint(x: bv32, y: bv32)
    requires x & y == 0
    ensures x + y == x | y
  {
  }

  /** Red: XOR with the alpha byte put back clears the top byte; the shift keeps the next one. */
  function SplitRed(argb: bv32, alpha: bv32): (red: bv32)
    requires alpha == argb >> 24
    ensures red == (argb >> 16) & 0xFF
  {
    ((alpha << 24) ^ argb) >> 16
  }

  /** Green: XOR with the top two bytes put back leaves the low two; the shift keeps the upper one. */
  function SplitGreen(argb: bv32, alpha: bv32, red: bv32): (green: bv32)
    requires alpha == argb >> 24 && red == (argb >> 16) & 0xFF
    ensures green == (argb >> 8) & 0xFF
  {
    AddDisjoint(alpha << 24, red << 16);
    (((alpha << 24) + (red << 16)) ^ argb) >> 8
  }

  /** Blue: XOR with the top three bytes put back leaves the low byte. */
  function SplitBlue(argb: bv32, alpha: bv32, red: bv32, green: bv32): (blue: bv32)
    requires alpha == argb >> 24 && red == (argb >> 16) & 0xFF && green == (argb >> 8) & 0xFF
    ensures blue == argb & 0xFF
  {
    AddDisjoint(alpha << 24, red << 16);
    AddDisjoint((alpha << 24) + (red << 16), green << 8);
    (((alpha << 24) + (red << 16) + (green << 8)) ^ argb) >> 0
  }

  /**
   * The channels of an ARGB word, split with the XOR-and-shift arithmetic of
   * EwmhIconToImage: (alpha, red, green, blue), each one byte of the word.
   */
  function ArgbSplit(argb: bv32): (ch: (bv32, bv32, bv32, bv32))
    ensures ch.0 == argb >> 24
    ensures ch.1 == (argb >> 16) & 0xFF
    ensures ch.2 == (argb >> 8) & 0xFF
    ensures ch.3 == argb & 0xFF
  {
    var alpha := argb >> 24;
    var red := SplitRed(argb, alpha);
    var green := SplitGreen(argb, alpha, red);
    var blue := SplitBlue(argb, alpha, red, green);
    (alpha, red, green, blue)
  }

  /** The split loses nothing: the four channels put back together give the word. */
  lemma ArgbSplitRejoin(argb: bv32)
    ensures var ch := ArgbSplit(argb);
      (ch.0 << 24) | (ch.1 << 16) | (ch.2 << 8) | ch.3 == argb
  {
  }

  /** The ARGB word of a colour with alpha a. */
  function Argb(a: bv8, r: bv8, g: bv8, b: bv8): bv32 {
    (a as bv32 << 24) | (r as bv32 << 16) | (g as bv32 << 8) | b as bv32
  }

  /** The image pixel of a word: its colour channels, fully opaque. */
  function IconPixel(argb: bv32): (p: RGBA)
    ensures p == RGBA(Low8(argb >> 16), Low8(argb >> 8), Low8(argb), 255)
  {
    var ch := ArgbSplit(argb);
    RGBA(Low8(ch.1), Low8(ch.2), Low8(ch.3), 255)
  }

  /** The mask pixel of a word: color.Alpha of its alpha channel, stored into an image.RGBA. */
  function MaskPixel(argb: bv32): (p: RGBA)
    ensures p == RGBA(Low8(argb >> 24), Low8(argb >> 24), Low8(argb >> 24), Low8(argb >> 24))
  {
    var ch := ArgbSplit(argb);
    StoredAlpha(Low8(ch.0));
    Stored(AlphaColor(Low8(ch.0)))
  }

  /** Decoding the word of a colour gives back its channels: the colour in the image, its alpha in the mask. */
  lemma IconPixelRoundTrip(a: bv8, r: bv8, g: bv8, b: bv8)
    ensures IconPixel(Argb(a, r, g, b)) == RGBA(r, g, b, 255)
    ensures MaskPixel(Argb(a, r, g, b)) == RGBA(a, a, a, a)
  {
  }

  /**
   * What EwmhIconToImage computes: an index panic when the icon has fewer
   * words than pixels, and otherwise the image and the mask, pixel by pixel.
   */
  function IconImages(icon: WmIcon): Result<(Image, Image), GraphicsError> {
    var n := icon.width * icon.height;
    if n > |icon.data| then Failure(IndexOutOfRange)
    else Success((Image(icon.width, icon.height, seq(n, p requires 0 <= p < n => IconPixel(icon.data[p]))),
                  Image(icon.width, icon.height, seq(n, p requires 0 <= p < n => MaskPixel(icon.data[p])))))
  }

  /**
   * EwmhIconToImage: visits every pixel (x, y), reading word x + y*width, and
   * sets the image pixel and the mask pixel.
   */
  method EwmhIconToImage(icon: WmIcon) returns (r: Result<(Image, Image), GraphicsError>)
    ensures r == IconImages(icon)
  {
    var width, height := icon.width, icon.height;
    var img := new RGBA[width * height](_ => Transparent);
    var mask := new RGBA[width * height](_ => Transparent);
    ghost var n := width * height;
    ghost var blank := img[..];
    ghost var wantImg := seq(n, p requires 0 <= p < n => if p < |icon.data| then IconPixel(icon.data[p]) else Transparent);
    ghost var wantMask := seq(n, p requires 0 <= p < n => if p < |icon.data| then MaskPixel(icon.data[p]) else Transparent);
    ScanStateStart(blank, wantImg, width);
    ScanStateStart(blank, wantMask, width);
    for x := 0 to width
      invariant ScanState(img[..], blank, wantImg, width, x, 0)
      invariant ScanState(mask[..], blank, wantMask, width, x, 0)
      invariant forall p: nat :: p < n && Scanned(p, width, x, 0) ==> p < |icon.data|
    {
      for y := 0 to height
        invariant ScanState(img[..], blank, wantImg, width, x, y)
        invariant ScanState(mask[..], blank, wantMask, width, x, y)
        invariant forall p: nat :: p < n && Scanned(p, width, x, y) ==> p < |icon.data|
      {
        var i := Offset(x, y, width);
        OffsetInBounds(x, y, width, height);
        if i >= |icon.data| {
          return Failure(IndexOutOfRange);
        }
        var argb := icon.data[i];
        ghost var imgBefore, maskBefore := img[..], mask[..];
        ScanStateStep(imgBefore, blank, wantImg, width, x, y);
        ScanStateStep(maskBefore, blank, wantMask, width, x, y);
        ScanStep(width, x, y);
        img[i] := IconPixel(argb);
        mask[i] := MaskPixel(argb);
        assert img[..] == imgBefore[i := wantImg[i]];
        assert mask[..] == maskBefore[i := wantMask[i]];
      }
      ScanStateColumn(img[..], blank, wantImg, width, height, x);
      ScanStateColumn(mask[..], blank, wantMask, width, height, x);
      ScanColumn(width, height, x);
    }
    ScanStateDone(img[..], blank, wantImg, width, height);
    ScanStateDone(mask[..], blank, wantMask, width, height);
    if n > 0 {
      ScanDone(width, height);
      assert Scanned(n - 1, width, width, 0);
    }
    IconImagesOf(icon, wantImg, wantMask);
    return Success((Image(width, height, img[..]), Image(width, height, mask[..])));
  }

  /** When the icon has a word for every pixel, the scan's targets are the two images of IconImages. */
  lemma IconImagesOf(icon: WmIcon, wantImg: seq<RGBA>, wantMask: seq<RGBA>)
    requires icon.width * icon.height <= |icon.data|
    requires wantImg == seq(icon.width * icon.height, p requires 0 <= p < icon.width * icon.height =>
      if p < |icon.data| then IconPixel(icon.data[p]) else Transparent)
    requires wantMask == seq(icon.width * icon.height, p requires 0 <= p < icon.width * icon.height =>
      if p < |icon.data| then MaskPixel(icon.data[p]) else Transparent)
    ensures IconImages(icon) == Success((Image(icon.width, icon.height, wantImg), Image(icon.width, icon.height, wantMask)))
  {
    var n := icon.width * icon.height;
    assert wantImg == seq(n, p requires 0 <= p < n => IconPixel(icon.data[p]));
    assert wantMask == seq(n, p requires 0 <= p < n => MaskPixel(icon.data[p]));
  }
}
