# xgbutil key bindings and pixel conversions, in Dafny

This project models two parts of the Go X11 utility library xgbutil and proves
properties of the model.

**Key bindings (package keybind).** An X connection holds two tables:
- the keyboard mapping (`KeysymsPerKeycode` keysyms for each keycode from the
  minimum keycode on);
- the modifier mapping (eight rows, Shift, Lock, Control and Mod1 to Mod5, of
  `KeycodesPerModifier` slots each).

Both are fetched on start-up and again on every MappingNotify, and installed
together. The resolver answers four questions from them:
- `ParseString` turns a binding such as `Mod4-j` into a modifier mask and a keycode;
- `lookupString` turns a key name into the keycode of its keysym (0 for an unknown
  name), looking the keysym up under the name as given, then in title case, lower
  case and upper case;
- `keycodeGet` finds the first keycode whose row holds a keysym;
- `modGet` finds the modifier whose row holds a keycode.

`XModMap` lists the bound keycodes of each modifier row.

The model:
- `KeyboardState` is a class with both tables as fields.
- Its methods keep the source's loops and are proved against reference functions in
  `KeyTables`.
- Server replies, and the name→keysym and keysym→name tables, are parameters.
- A Go panic becomes a `Failure` result.

**Pixel conversions (package xgraphics).** Images are a width, a height and a flat
row-major sequence (or array) of RGBA pixels, with pixel (x, y) at index `x + y*width`.
- `CreatePixmap` packs an image into a ZPixmap buffer (four bytes per pixel: blue,
  green, red, alpha). It then uploads the buffer in bands of whole rows, one PutImage
  request per band; the requests are recorded as a list.
- `PixmapToImage` and `BitmapToImage` unpack GetImage data: ZPixmap groups of four
  bytes, and XYPixmap bits with the lowest bit first.
- `EwmhIconToImage` splits the ARGB words of an `_NET_WM_ICON` icon (Extended Window
  Manager Hints, section "Application Window Properties") into an image and an alpha
  mask.
- `FindBestIcon` picks an icon for a preferred size.
- `ColorImage` recolours an image in place.

Each loop over an image visits x in the outer loop and y in the inner loop. The loops
are proved against the whole-image functions through the scan invariant `ScanState` in
`Raster`.

Where the package's documentation and its code disagree, the model follows the code:
- `strings.Title` upper-cases the first letter of each word but does not lower-case
  the rest. So against a table that knows only `Return`, the key name `RETURN` is not
  found (`KeyTables.LookupReturnMissed`), while `return` is.
- `ParseString` keeps trying key-name tokens for as long as no keycode has been found,
  not only the first one (`KeyTables.KeyOfFirstResolved`).

Files:
- `wrappers.dfy`: `Option` and `Result`.
- `key_strings.dfy`: splitting and ASCII case mapping.
- `key_tables.dfy`: the tables and the reference definitions.
- `keybind.dfy`: the class.
- `raster.dfy`: pixels, colours, the flat layout and the scan invariant.
- `icons.dfy`: icons.
- `pixmap_upload.dfy`: `CreatePixmap`.
- `pixmap_download.dfy`: `PixmapToImage` and `BitmapToImage`.
- `recolor.dfy`: `ColorImage`.

## Model

| member | source | states |
|---|---|---|
| KeyStrings.Split | keybind/keybind.go:71 | Splitting a binding on '-' gives at least one piece, and no piece contains '-'. |
| KeyStrings.JoinSplit | keybind/keybind.go:71 | Joining the pieces with '-' gives back the binding string, so splitting loses nothing. |
| KeyStrings.SplitJoin | keybind/keybind.go:71 | Splitting a '-'-join of pieces that contain no '-' gives back the pieces. |
| KeyStrings.Lower | keybind/keybind.go:72 | strings.ToLower keeps the length, lowers each ASCII capital, and leaves every other character alone. |
| KeyStrings.Upper | keybind/keybind.go:118 | strings.ToUpper keeps the length, raises each ASCII small letter, and leaves every other character alone. |
| KeyStrings.LowerLower | keybind/keybind.go:72 | Lower-casing is idempotent. |
| KeyStrings.LowerUpper | keybind/keybind.go:115-118 | The upper-case spelling has the same lower-case form as the name. |
| KeyStrings.LowerTitleAfter | keybind/keybind.go:112-115 | The title-case spelling has the same lower-case form as the name. |
| KeyStrings.TitleInsideWord | keybind/keybind.go:112 | Title case leaves the characters inside a word unchanged. |
| KeyStrings.TitleOfLowerWord | keybind/keybind.go:112 | The title case of a lower-case word is the word with its first letter capitalised. |
| KeyStrings.TitleAfter | keybind/keybind.go:112 | Keeps the length and capitalises exactly the characters that follow a separator, the first one when the text before it ended in one. Every other character is kept. |
| KeyStrings.Title | keybind/keybind.go:112 | strings.Title keeps the length and capitalises exactly the first character and each character after a separator. Every other character is kept. |
| KeyTables.ModifierBitsDisjoint | keybind/keybind.go:15-19 | The nine modifiers are pairwise distinct single bits, all inside 0x80FF. |
| KeyTables.KeysymGet | keybind/keybind.go:150-156 | The keysym read for (keycode, column) is an entry of the keyboard mapping. |
| KeyTables.KeysymGetInRange | keybind/keybind.go:150-156 | The reply covers the max-min+1 keycodes requested at line 46. In it, every keycode in [min, max] and column below KeysymsPerKeycode gives an index inside the table. |
| KeyTables.KeysymLayoutInjective | keybind/keybind.go:153 | Two different (keycode, column) pairs never read the same entry. |
| KeyTables.FirstKeycodeFrom | keybind/keybind.go:137-144 | Suppose the result is not 0. Then it is in range, one of its columns holds the keysym, and no smaller keycode has it. A result of 0 means no keycode in range has it. |
| KeyTables.KeycodeRoundTrip | keybind/keybind.go:132-156 | Take the keysym of any (keycode, column) in range and look it up again. The result is a keycode no larger than that one, and it produces the keysym. |
| KeyTables.FirstSlot | keybind/keybind.go:164-167 | The result is the first slot holding the keycode: no earlier slot holds it, and None means no slot does. |
| KeyTables.ModifierOf | keybind/keybind.go:160-171 | The result is 0 exactly when no slot holds the keycode. It is never ModMaskAny. Otherwise it is one of the eight row modifiers. |
| KeyTables.ModifierOfFirstSlot | keybind/keybind.go:164-166 | A keycode first found in slot i resolves to modifiers[i / KeycodesPerModifier]. So keycode 0 resolves to the row of the first unbound slot. |
| KeyTables.LookupSym | keybind/keybind.go:110-125 | Returns None exactly when all four spellings miss. Otherwise it returns the keysym of the first spelling the table knows, trying exact, title, lower, then upper. |
| KeyTables.LookupSymIgnoresOnlyCase | keybind/keybind.go:110-119 | Any keysym found belongs to a table name that equals the query up to ASCII case. |
| KeyTables.LookupFindsCapitalisedName | keybind/keybind.go:112 | Take a lower-case word that is missing from the table while its capitalised form is present. The lookup finds the capitalised entry. |
| KeyTables.LookupReturnFound | keybind/keybind.go:110-113 | Against a table holding only "Return", both "Return" and "return" resolve to 0xff0d. |
| KeyTables.LookupReturnMissed | keybind/keybind.go:110-119 | Against the same table, "RETURN" and "rEtUrN" do not resolve. |
| KeyTables.ModifierBit | keybind/keybind.go:72-90 | A token names a modifier exactly when its lower-case form is one of the nine modifier names. Its bit is then that modifier's. |
| KeyTables.MaskOfBit | keybind/keybind.go:70-90 | The parsed mask has modifier k's bit exactly when some token names modifier k. |
| KeyTables.MaskOfNoStrayBits | keybind/keybind.go:70-90 | The parsed mask has no bit outside the nine modifier bits. |
| KeyTables.MaskOfIgnoresOrder | keybind/keybind.go:71-90 | Two bindings made of the same tokens, in any order and with any repeats, get the same mask. |
| KeyTables.KeyOfFirstResolved | keybind/keybind.go:91-95 | The keycode is 0 exactly when no key-name token resolves. Otherwise it is the code of the first key-name token that resolves to a non-zero keycode. |
| KeyTables.ParseMod4J | keybind/keybind.go:64-66 | The documented example "Mod4-j" splits into "Mod4" and "j". Its mask is exactly the Mod4 bit, and its keycode is the one "j" resolves to. |
| KeyTables.NameKeysym | keybind/keybind.go:202-205 | A bound keycode is named by its column-0 keysym, or by its column-1 keysym when column 0 holds 0. The result is None only where keysymGet would index outside the table. |
| KeyTables.KeysymName | keybind/keybind.go:206 | The name printed for a keysym is its entry in the name table, or the empty string (Go's zero value) when it has none. |
| KeyTables.RowSlots | keybind/keybind.go:189-193 | Row k of the modifier mapping has KeycodesPerModifier slots. |
| KeyTables.ModMapRows | keybind/keybind.go:186-211 | The dump has exactly eight rows, with Any skipped. It fails exactly when some bound keycode cannot be named. |
| KeyTables.RowEntriesListBoundKeycodes | keybind/keybind.go:193-209 | A row lists exactly its non-zero keycodes, in slot order. Each comes with the keysym NameKeysym picks and that keysym's name. |
| KeyTables.ModMapRowsDefined | keybind/keybind.go:186-211 | The dump never panics when the keyboard mapping has at least two columns and every bound keycode lies in [min, max]. |
| KeyTables.NameKeysymDefined | keybind/keybind.go:202-205 | With at least two columns, any keycode in [min, max] can be named. |
| Keybind.MapsGet | keybind/keybind.go:43-63 | A snapshot exists exactly when both fetches succeed, and it holds both replies. A keyboard-mapping error is reported before a modifier-mapping error. |
| Keybind.KeyboardState.constructor | keybind/keybind.go:39-41 | The keycode range comes from connection setup. Nothing is installed and no handler is connected. |
| Keybind.KeyboardState.Install | keybind/keybind.go:29-30 | KeyMapSet and ModMapSet install both tables of a snapshot. |
| Keybind.KeyboardState.Initialize | keybind/keybind.go:23-31 | Connects the MappingNotify handler. On success it installs both fetched tables. On a failed fetch it installs neither, and the result is the panic MapsGet reports. |
| Keybind.KeyboardState.UpdateMaps | keybind/keybind.go:33-37 | Replaces both tables together, or neither. The new state depends only on the two replies, so unchanged server tables give an equal snapshot. |
| Keybind.KeyboardState.KeycodeGet | keybind/keybind.go:132-145 | The nested keycode/column scan returns FirstKeycode: the smallest keycode producing the keysym, or 0. |
| Keybind.KeyboardState.ModGet | keybind/keybind.go:160-171 | The slot scan returns ModifierOf for the installed modifier mapping. |
| Keybind.KeyboardState.LookupString | keybind/keybind.go:108-128 | Returns 0 for an unknown name. Otherwise it returns the first keycode of the keysym that LookupSym finds. |
| Keybind.KeyboardState.ParseString | keybind/keybind.go:69-104 | The mask is MaskOf the '-'-separated tokens and the keycode is KeyOf them. The warning is raised exactly when the keycode is 0. |
| Keybind.KeyboardState.XModMap | keybind/keybind.go:176-212 | Succeeds exactly when ModMapRows does, and then yields the same rows. |
| Raster.Widen | xgraphics/xgraphics.go:285 | An 8-bit channel read through RGBA() becomes c*0x101, which is below 2^16. |
| Raster.WidenRoundTrip | xgraphics/xgraphics.go:285-287 | Both bytes of a widened channel give the channel back. The widened value is non-zero exactly when the channel is. |
| Raster.StoredColorOf | xgraphics/xgraphics.go:287 | Setting an image.RGBA pixel's own RGBA() colour stores that pixel unchanged. |
| Raster.StoredAlpha | xgraphics/xgraphics.go:419 | Setting color.Alpha{a} into an image.RGBA stores (a, a, a, a). |
| Raster.GetDim | xgraphics/xgraphics.go:202-205 | Min plus the width is Max.X, and Min plus the height is Max.Y. |
| Raster.GetDimProperties | xgraphics/xgraphics.go:202-205 | The dimensions do not change when the rectangle is moved. They are not negative for a canonical rectangle, and are (w, h) for Rect(0, 0, w, h). |
| Raster.OffsetInBounds | xgraphics/xgraphics.go:137 | Every pixel inside the image has an index below width*height. |
| Raster.OffsetInjective | xgraphics/xgraphics.go:137 | No two pixels share an index. |
| Icons.FindBestIcon | xgraphics/xgraphics.go:299-334 | Returns no icon exactly for an empty list. Otherwise it returns an index of the list that satisfies IsBestIcon for the area width*height. |
| Icons.BestIconStep | xgraphics/xgraphics.go:318-327 | Comparing icon n with the best so far gives the best of the first n+1 icons. |
| Icons.BestIconUnique | xgraphics/xgraphics.go:324-327 | The selection rule, with its tie-breaks (last equal sufficient icon, first equal largest icon), determines one icon. |
| Icons.BestIconPrefersBigger | xgraphics/xgraphics.go:293-298 | The pick is smaller than the preferred area only when every icon is. No icon at least as large as the preferred area is smaller than the pick. |
| Icons.ArgbSplit | xgraphics/xgraphics.go:437-440 | The XOR-and-shift expressions extract alpha = argb>>24, red = (argb>>16)&0xFF, green = (argb>>8)&0xFF and blue = argb&0xFF. |
| Icons.ArgbSplitRejoin | xgraphics/xgraphics.go:436-440 | The four channels put back together give the original word. |
| Icons.IconPixel | xgraphics/xgraphics.go:442-444 | The image pixel is the word's red, green and blue bytes, with alpha 255. |
| Icons.MaskPixel | xgraphics/xgraphics.go:445 | The mask pixel holds the word's alpha byte in all four channels. |
| Icons.IconPixelRoundTrip | xgraphics/xgraphics.go:436-445 | Decoding the ARGB word of a colour gives the colour in the image and its alpha in the mask. |
| Icons.EwmhIconToImage | xgraphics/xgraphics.go:429-450 | The method computes IconImages: an index panic when the icon has fewer words than pixels, and otherwise both images pixel by pixel. |
| PixmapUpload.U16 | xgraphics/xgraphics.go:185 | uint16 wraps into [0, 2^16) and keeps values already in range. |
| PixmapUpload.I16 | xgraphics/xgraphics.go:185 | int16 wraps into [-2^15, 2^15) and keeps values already in range. |
| PixmapUpload.Pack | xgraphics/xgraphics.go:132 | The buffer holds width*height*4 bytes. |
| PixmapUpload.PackAt | xgraphics/xgraphics.go:137-141 | Pixel o occupies bytes 4o to 4o+3, holding b>>8, g>>8, r>>8 and a>>8. |
| PixmapUpload.PackLayout | xgraphics/xgraphics.go:136-141 | Pixel (x, y) occupies bytes 4*(x+y*width) to 4*(x+y*width)+3, holding its b>>8, g>>8, r>>8 and a>>8. |
| PixmapUpload.PackSlotsDisjoint | xgraphics/xgraphics.go:137-141 | No two (pixel, channel) pairs share a byte. |
| PixmapUpload.PackPixels | xgraphics/xgraphics.go:132-143 | The nested fill loops leave the zeroed buffer equal to Pack of the image. |
| PixmapUpload.StorePixel | xgraphics/xgraphics.go:138-141 | Stores the high bytes of blue, green, red and alpha at i to i+3, and changes no other byte of the buffer. |
| PixmapUpload.ChunkStart | xgraphics/xgraphics.go:169-175 | A chunk boundary is clamped to the buffer length. |
| PixmapUpload.Sends | xgraphics/xgraphics.go:155 | The request count as written is the least n with n*(MAX_REQ_SIZE-28) > len. So it is at least 1, and (n-1)*(MAX_REQ_SIZE-28) <= len. |
| PixmapUpload.RowsPer | xgraphics/xgraphics.go:156 | rowsPer is the largest number of whole rows of width*4 bytes that fits in MAX_REQ_SIZE-28 bytes. |
| PixmapUpload.Chunk | xgraphics/xgraphics.go:169-186 | Request i is a PutImage of the image's width, drawn at y = i*rowsPer. Its data is the buffer between the clamped starts of chunks i and i+1, and it holds at most rowsPer*width*4 bytes. |
| PixmapUpload.Plan | xgraphics/xgraphics.go:165-191 | The plan is n requests, and every one is a PutImage. |
| PixmapUpload.PlanSendsPrefix | xgraphics/xgraphics.go:169-189 | Chunks are contiguous and do not overlap. Together the first n carry the buffer, in order, up to where chunk n would start. |
| PixmapUpload.ChunkFits | xgraphics/xgraphics.go:149-175 | A chunk holds at most rowsPer*width*4 bytes, which is at most MAX_REQ_SIZE-28. So each request fits the maximum request size. |
| PixmapUpload.ChunkIsRows | xgraphics/xgraphics.go:169-178 | Chunk i carries whole rows, from min(i*rowsPer, h) to min((i+1)*rowsPer, h). |
| PixmapUpload.ChunkHeight | xgraphics/xgraphics.go:182-186 | Chunk i declares the number of rows it carries (len/4/width) as its height, and is drawn at y = i*rowsPer. |
| PixmapUpload.CreatePixmap | xgraphics/xgraphics.go:130-194 | Records CreatePixmap at the image's size, then the Sends(len) PutImage requests of the plan over Pack of the image. A width of 0 records only CreatePixmap and divides by zero. |
| PixmapUpload.PutImageChunk | xgraphics/xgraphics.go:169-186 | One pass of the upload loop, started at the start of chunk i, builds exactly chunk i's request and ends where chunk i+1 starts. |
| PixmapUpload.PlanMissesLastRows | xgraphics/xgraphics.go:155-156 | For a 1000 by 262 image, the 4 requests carry only the first 1040000 of 1048000 bytes. |
| PixmapUpload.CoveringSends | xgraphics/xgraphics.go:155 | The corrected count is the least n with n chunks covering the buffer. |
| PixmapUpload.CoveringPlanSendsAll | xgraphics/xgraphics.go:155-191 | With the corrected count, the requests carry the whole buffer, and none of them is empty. |
| PixmapDownload.DecodeZPixmap | xgraphics/xgraphics.go:361-377 | Decoding succeeds exactly when the last group is not cut off before its red byte and there are no more groups than pixels. The result is then a width by height image. |
| PixmapDownload.ZPixmapPixelAt | xgraphics/xgraphics.go:363-377 | Pixel (x, y) is group x+y*width with bytes B, G, R reordered to (R, G, B, 255), the fourth byte ignored. Pixels past the data stay transparent. |
| PixmapDownload.ZPixmapOfPack | xgraphics/xgraphics.go:363-369 | Decoding what CreatePixmap packs gives the image back, each colour cut to its high bytes and made opaque. |
| PixmapDownload.ZPixmapOfImage | xgraphics/xgraphics.go:363-369 | An image.RGBA sent through a pixmap comes back unchanged apart from alpha, which becomes 255. |
| PixmapDownload.PixmapToImage | xgraphics/xgraphics.go:348-382 | A failed geometry or GetImage request is passed on. Otherwise the unpacking loop panics or produces exactly what DecodeZPixmap describes. |
| PixmapDownload.SetPixels | xgraphics/xgraphics.go:373-380 | The SetRGBA copy loop gives an image equal to the buffer. |
| PixmapDownload.WhiteOrBlack | xgraphics/xgraphics.go:398-403 | whiteOrBlack gives alpha 0 or 255. |
| PixmapDownload.AlphaPixel | xgraphics/xgraphics.go:419 | An alpha value is stored as (a, a, a, a). |
| PixmapDownload.DecodeXYBitmap | xgraphics/xgraphics.go:406-421 | Decoding succeeds exactly when the data has no more bits than the image has pixels. The result is then a width by height image. |
| PixmapDownload.ShiftTest | xgraphics/xgraphics.go:410-412 | Shifting right k times and testing the lowest bit tests bit k. |
| PixmapDownload.BitmapPixelAt | xgraphics/xgraphics.go:406-421 | Every pixel is opaque white or fully transparent. Pixel (x, y) is opaque exactly when bit (x+y*w)%8 of byte (x+y*w)/8 is set (lowest bit first). |
| PixmapDownload.BitmapToImage | xgraphics/xgraphics.go:385-423 | A failed request is passed on. Otherwise the bit-unpacking loops panic or produce exactly what DecodeXYBitmap describes. |
| PixmapDownload.SetAlphas | xgraphics/xgraphics.go:416-421 | The Set copy loop stores each alpha value as its gray pixel. |
| Recolor.Recolor | xgraphics/xgraphics.go:285-288 | Alpha is always kept. A pixel with alpha 0 is unchanged. Any other pixel gets the low bytes of the target's red, green and blue. |
| Recolor.RecoloredIdempotent | xgraphics/xgraphics.go:277-291 | Recolouring twice with the same colour is recolouring once. |
| Recolor.RecolorWithRGBA | xgraphics/xgraphics.go:279-288 | For a color.RGBA target, visible pixels become exactly its red, green and blue, with their own alpha. |
| Recolor.RecolorBitmap | xgraphics/xgraphics.go:275-276 | Recolouring a decoded bitmap gives the target colour, opaque, where bits are set, and transparent black elsewhere. |
| Recolor.ColorImage | xgraphics/xgraphics.go:277-291 | Updates the image in place so that it equals Recolored of the old image. |

## Left out

- Keybind.KeyboardState.ModGet: requires at most 255 modifier slots, or the keycode in one of the first 256 slots. The Go loop counter is a byte, so otherwise it wraps after slot 255 and the loop never ends. Such calls are excluded.
- Keybind.KeyboardState.ParseString: requires both tables installed (`Ready`). Go reads the keyboard mapping only when a key-name token is found in `keysyms` and reaches keycodeGet, so a binding of modifier tokens alone also parses before initialisation.
- KeyStrings.Lower, KeyStrings.Upper, KeyStrings.Title: case mapping covers ASCII only. Unicode case tables are not modelled.
- `Grab` and the GrabKey requests, and `xgbutil.IgnoreMods`: X traffic, and `xgbutil` is not part of this model.
- Event dispatch: connecting the MappingNotify handler is modelled as the `listening` flag.
- The text of the panic and warning messages, and the printed output of `XModMap`. The rows it prints are modelled instead.
- The `keysyms` and `strKeysyms` tables: not part of this model; they are taken as parameters.
- The GetKeyboardMapping and GetModifierMapping replies: taken as parameters. A successful reply is assumed to have the size the X11 protocol gives it.
- The keycode range: the model assumes the X11 connection-setup guarantee 8 <= min-keycode <= max-keycode (`KeyTables.KeycodeRange`). Every keysym, keycode and parse member relies on it.
- Concurrency: none is modelled; everything runs on one event loop.
- PixmapUpload.CreatePixmap: takes the image as its width, its height and the `At(x, y).RGBA()` colours, row by row. It assumes the image origin is (0, 0). The pixmap id (`NewId`), the depth, the GC, the format and the zero offsets of the requests are not recorded.
- `PaintImg`, `CreateImageWindow` and `FreePixmap`: X traffic only.
- `xgbutil.MAX_REQ_SIZE`: not part of this model. Its value, (2^16)*4, is taken from the comment at xgraphics/xgraphics.go:149-151.
- PixmapDownload.PixmapToImage, PixmapDownload.BitmapToImage: the geometry and the GetImage data are inputs. The uint16 conversion of the requested size is the server's concern.
- Icons.FindBestIcon, PixmapUpload.CreatePixmap: Go's 64-bit `int` is unbounded here, so overflow of width*height or of buffer offsets is not modelled.
- Icons.EwmhIconToImage, Icons.FindBestIcon: `ewmh.WmIcon` is not part of this model. The icon's width and height are naturals, while Go multiplies them as `int`.
- Recolor.ColorImage: only image.RGBA images are modelled, and it assumes the image origin is (0, 0). For an image whose bounds start elsewhere, Go still scans x in [0, w) and y in [0, h), so it recolours only the overlap of that square with the bounds. The target colour is given as its `RGBA()` value.
- The freetype text functions `DrawText`, `TextMaxExtents`, `ftContext` and `ParseFont`: a foreign library with floating-point sizes.
- `Blend`, `BlendBg`, `Scale` and `proportional`: floating-point arithmetic and library compositing.
- `LoadPngFromFile` and `LoadPngFromBytes`: PNG decoding and file I/O.

## Findings

| source | as written | input that shows it | evidently intended | confidence | as-written member | corrected member |
|---|---|---|---|---|---|---|
| xgraphics/xgraphics.go:155 | `sends := imgDataLen/(MAX_REQ_SIZE-28) + 1` counts requests as if each carried MAX_REQ_SIZE-28 bytes, but each carries only rowsPer*width*4 bytes | width 1000, height 262: 1048000 bytes, 4 sends of 65 rows = 260 rows, so the last 2 rows (8000 bytes) are never sent | send ceil(len / (rowsPer*width*4)) requests, so the whole buffer is uploaded | high, not executed | PixmapUpload.PlanMissesLastRows | PixmapUpload.CoveringPlanSendsAll |
