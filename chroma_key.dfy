/** The pixel-level half of the live preview (client/components/CameraView.js):
    the green-dominance classifier, the `#rrggbb` colour parser, the
    horizontal mirror that `drawImage` applies, and the in-place chroma-key
    pass over an RGBA buffer. */
module ChromaKey {
  import opened Common

  datatype Rgb = Rgb(r: Byte, g: Byte, b: Byte)

  const White: Rgb := Rgb(255, 255, 255)

  /** The slider value `chromaIntensity` (an `<input type="range">` from 0 to 100). */
  type Intensity = i: int | 0 <= i <= 100

  // ---------------------------------------------------------------------
  // Classification
  // ---------------------------------------------------------------------

  /** `baseThreshold = 140 - chromaIntensity * 0.4`, exactly. */
  function Threshold(i: Intensity): real { 140.0 - 0.4 * (i as real) }

  /** `baseTolerance = 30 + chromaIntensity * 0.5`, exactly. */
  function Tolerance(i: Intensity): real { 30.0 + 0.5 * (i as real) }

  /** The `isGreen` test: the green channel clears the threshold and exceeds
      red and blue by more than the tolerance.  The red and blue entries of
      `greenThreshold` (both 100) take no part in it. */
  predicate IsKeyed(r: Byte, g: Byte, b: Byte, i: Intensity) {
    && (g as real) > Threshold(i)
    && (g as real) > (r as real) + Tolerance(i)
    && (g as real) > (b as real) + Tolerance(i)
  }

  /** The same rule over integers scaled by ten, showing that it is decided
      exactly by integer arithmetic. */
  lemma KeyedScaledByTen(r: Byte, g: Byte, b: Byte, i: Intensity)
    ensures IsKeyed(r, g, b, i) <==>
      (10 * g > 1400 - 4 * i && 10 * g > 10 * r + 300 + 5 * i && 10 * g > 10 * b + 300 + 5 * i)
  {
  }

  lemma PureGreenKeyedAtZero()
    ensures IsKeyed(0, 255, 0, 0)
    ensures !IsKeyed(255, 0, 0, 0)
  {
  }

  /** Raising the intensity strictly lowers the threshold and strictly raises the tolerance. */
  lemma ParametersMoveApart(i: Intensity, j: Intensity)
    requires i < j
    ensures Threshold(j) < Threshold(i)
    ensures Tolerance(j) > Tolerance(i)
  {
  }

  /** Because the two parameters move in opposite directions, keying is not
      monotone in the intensity, in either direction. */
  lemma KeyingNotMonotone()
    ensures IsKeyed(100, 160, 100, 0) && !IsKeyed(100, 160, 100, 100)
    ensures !IsKeyed(0, 120, 0, 0) && IsKeyed(0, 120, 0, 100)
  {
  }

  // ---------------------------------------------------------------------
  // `hexToRgb`
  // ---------------------------------------------------------------------

  /** The value of two hex digits read as one base-16 number. */
  function HexPair(hi: char, lo: char): (v: Byte)
    requires IsHexDigit(hi) && IsHexDigit(lo)
  {
    HexValue(hi) * 16 + HexValue(lo)
  }

  /** Six hex digits read as three channel values. */
  function DecodeSix(d: string): (c: Rgb)
    requires |d| == 6 && AllHexDigits(d)
  {
    Rgb(HexPair(d[0], d[1]), HexPair(d[2], d[3]), HexPair(d[4], d[5]))
  }

  /** Whether `/^#?([a-f\d]{2})([a-f\d]{2})([a-f\d]{2})$/i` matches `s`. */
  predicate MatchesHexColour(s: string) {
    (|s| == 6 && AllHexDigits(s)) || (|s| == 7 && s[0] == '#' && AllHexDigits(s[1..]))
  }

  /** `hexToRgb`: an optional '#', then exactly six hex digits in either case;
      anything else is white. */
  function HexToRgb(s: string): (c: Rgb)
    ensures !MatchesHexColour(s) ==> c == White
    ensures |s| == 7 && s[0] == '#' && AllHexDigits(s[1..]) ==> c == DecodeSix(s[1..])
    ensures |s| == 6 && AllHexDigits(s) ==> c == DecodeSix(s)
  {
    if |s| == 7 && s[0] == '#' && AllHexDigits(s[1..]) then DecodeSix(s[1..])
    else if |s| == 6 && AllHexDigits(s) then DecodeSix(s)
    else White
  }

  /** The two-digit, zero-padded lower-case rendering of one channel. */
  function ChannelHex(v: Byte): (s: string)
    ensures |s| == 2 && AllHexDigits(s) && HexPair(s[0], s[1]) == v
  {
    [LowerHexDigit(v / 16), LowerHexDigit(v % 16)]
  }

  /** `#rrggbb`, the reference rendering `hexToRgb` is meant to read. */
  function FormatHexColour(c: Rgb): (s: string)
    ensures |s| == 7 && s[0] == '#'
  {
    "#" + ChannelHex(c.r) + ChannelHex(c.g) + ChannelHex(c.b)
  }

  /** `hexToRgb` reads back every `#rrggbb` colour, with or without the '#'. */
  lemma HexToRgbRoundTrip(c: Rgb)
    ensures HexToRgb(FormatHexColour(c)) == c
    ensures HexToRgb(FormatHexColour(c)[1..]) == c
  {
    var s := FormatHexColour(c);
    var d := s[1..];
    assert d == ChannelHex(c.r) + ChannelHex(c.g) + ChannelHex(c.b);
    assert d[0] == ChannelHex(c.r)[0] && d[1] == ChannelHex(c.r)[1];
    assert d[2] == ChannelHex(c.g)[0] && d[3] == ChannelHex(c.g)[1];
    assert d[4] == ChannelHex(c.b)[0] && d[5] == ChannelHex(c.b)[1];
    assert AllHexDigits(d);
    assert !IsHexDigit(s[0]);
  }

  /** Upper-case hex digits give the same colour as lower-case ones. */
  lemma HexToRgbCaseInsensitive(s: string)
    ensures HexToRgb(LowerAsciiString(s)) == HexToRgb(s)
  {
    var l := LowerAsciiString(s);
    forall k | 0 <= k < |s| ensures IsHexDigit(l[k]) <==> IsHexDigit(s[k]) {}
    forall k | 0 <= k < |s| && IsHexDigit(s[k]) ensures HexValue(l[k]) == HexValue(s[k]) {}
    if |s| == 7 {
      assert l[1..] == LowerAsciiString(s[1..]);
      assert AllHexDigits(l[1..]) <==> AllHexDigits(s[1..]) by {
        forall k | 0 <= k < 6 ensures IsHexDigit(l[1..][k]) <==> IsHexDigit(s[1..][k]) {
          assert l[1..][k] == l[k + 1];
        }
      }
    }
  }

  // ---------------------------------------------------------------------
  // Buffers, the mirror map and one chroma-key pass
  // ---------------------------------------------------------------------

  /** A decoded background still: `backgroundImage` drawn on its own canvas. */
  datatype BgImage = BgImage(width: nat, height: nat, data: seq<Byte>)

  /** `getImageData` always returns four bytes per pixel. */
  predicate BgWellFormed(bg: BgImage) {
    |bg.data| == 4 * (bg.width * bg.height)
  }

  /** `background && background.color`: a colour string is present and not empty. */
  predicate ColourSet(colour: Option<string>) {
    colour.Some? && colour.value != ""
  }

  /** The background pixel sampled for display pixel `p`: column
      floor(x·bgW/W) of row floor(y·bgH/H), the proportional scaling done exactly. */
  function BgPixel(p: nat, width: nat, height: nat, bg: BgImage): int
    requires width > 0 && height > 0
  {
    var x := p % width;
    var y := p / width;
    var bgX := x * bg.width / width;
    var bgY := y * bg.height / height;
    bgY * bg.width + bgX
  }

  /** `bgIndex`: the byte offset of that background pixel, which the loop
      checks against both ends of the background data. */
  function BgIndex(p: nat, width: nat, height: nat, bg: BgImage): (idx: int)
    requires width > 0 && height > 0
    ensures idx % 4 == 0
  {
    4 * BgPixel(p, width, height, bg)
  }

  /** A byte offset of a pixel inside a buffer of n pixels leaves room for the pixel's four bytes. */
  lemma PixelFits(idx: int, n: nat)
    requires 0 <= idx && idx % 4 == 0 && idx < 4 * n
    ensures idx + 4 <= 4 * n
  {
  }

  /** The four new bytes of display pixel `p`, whose current bytes are `px`. */
  function PixelOut(px: seq<Byte>, p: nat, width: nat, height: nat, i: Intensity,
                    image: Option<BgImage>, colour: Option<string>): (out: seq<Byte>)
    requires |px| == 4 && width > 0 && height > 0
    requires image.Some? ==> BgWellFormed(image.value)
    ensures |out| == 4
  {
    if !IsKeyed(px[0], px[1], px[2], i) then px
    else if image.Some? then
      var bg := image.value;
      var idx := BgIndex(p, width, height, bg);
      if 0 <= idx < |bg.data| then
        PixelFits(idx, bg.width * bg.height);
        [bg.data[idx], bg.data[idx + 1], bg.data[idx + 2], 255]
      else px
    else if ColourSet(colour) then
      var c := HexToRgb(colour.value);
      [c.r, c.g, c.b, 255]
    else px
  }

  /** Byte k of the buffer after one pass: the matching byte of its pixel's `PixelOut`. */
  function KeyedByte(d: seq<Byte>, k: nat, width: nat, height: nat, i: Intensity,
                     image: Option<BgImage>, colour: Option<string>): Byte
    requires k < |d| == 4 * (width * height)
    requires image.Some? ==> BgWellFormed(image.value)
  {
    PixelFits(4 * (k / 4), width * height);
    PixelOut(d[4 * (k / 4)..4 * (k / 4) + 4], k / 4, width, height, i, image, colour)[k % 4]
  }

  /** The buffer after one pass. */
  function KeyedFrame(d: seq<Byte>, width: nat, height: nat, i: Intensity,
                      image: Option<BgImage>, colour: Option<string>): (r: seq<Byte>)
    requires |d| == 4 * (width * height)
    requires image.Some? ==> BgWellFormed(image.value)
    ensures |r| == |d|
  {
    seq(|d|, k requires 0 <= k < |d| => KeyedByte(d, k, width, height, i, image, colour))
  }

  /** The pixel at offset 4p of a buffer. */
  function PixelAt(d: seq<Byte>, p: nat): (px: seq<Byte>)
    requires 4 * p + 4 <= |d|
    ensures |px| == 4
  {
    d[4 * p..4 * p + 4]
  }

  /** The pass rewrites each pixel on its own: pixel p of the result is `PixelOut` of pixel p. */
  lemma KeyedFramePixel(d: seq<Byte>, width: nat, height: nat, i: Intensity,
                        image: Option<BgImage>, colour: Option<string>, p: nat)
    requires |d| == 4 * (width * height)
    requires image.Some? ==> BgWellFormed(image.value)
    requires p < width * height
    ensures PixelAt(KeyedFrame(d, width, height, i, image, colour), p) ==
            PixelOut(PixelAt(d, p), p, width, height, i, image, colour)
  {
    var r := KeyedFrame(d, width, height, i, image, colour);
    var px := PixelAt(d, p);
    var out := PixelOut(px, p, width, height, i, image, colour);
    forall j | 0 <= j < 4 ensures PixelAt(r, p)[j] == out[j] {
      var k := 4 * p + j;
      DivModUnique(k, 4, p, j);
      assert d[4 * (k / 4)..4 * (k / 4) + 4] == px;
      assert r[k] == KeyedByte(d, k, width, height, i, image, colour);
    }
  }

  /** A pixel that is not keyed keeps all four bytes. */
  lemma UnkeyedPixelKept(d: seq<Byte>, width: nat, height: nat, i: Intensity,
                         image: Option<BgImage>, colour: Option<string>, p: nat)
    requires |d| == 4 * (width * height)
    requires image.Some? ==> BgWellFormed(image.value)
    requires p < width * height
    requires !IsKeyed(d[4 * p], d[4 * p + 1], d[4 * p + 2], i)
    ensures PixelAt(KeyedFrame(d, width, height, i, image, colour), p) == PixelAt(d, p)
  {
    KeyedFramePixel(d, width, height, i, image, colour, p);
  }

  /** With neither a background image nor a colour, no pixel changes at all. */
  lemma NoBackgroundKeepsFrame(d: seq<Byte>, width: nat, height: nat, i: Intensity, colour: Option<string>)
    requires |d| == 4 * (width * height)
    requires !ColourSet(colour)
    ensures KeyedFrame(d, width, height, i, None, colour) == d
  {
    var r := KeyedFrame(d, width, height, i, None, colour);
    forall k | 0 <= k < |d| ensures r[k] == d[k] {
      var p := k / 4;
      assert PixelAt(d, p)[k % 4] == d[k];
    }
  }

  /** The sampled background pixel always lies inside a well-formed background
      image, so a keyed pixel over a non-empty background is always replaced
      (the source's range check never rejects). */
  lemma BgIndexInRange(p: nat, width: nat, height: nat, bg: BgImage)
    requires width > 0 && height > 0 && p < width * height
    requires BgWellFormed(bg) && bg.width > 0 && bg.height > 0
    ensures 0 <= BgIndex(p, width, height, bg) && BgIndex(p, width, height, bg) + 4 <= |bg.data|
  {
    var x: nat := p % width;
    var y: nat := p / width;
    DivBelow(p, width, height);
    SampleBelow(x, y, width, height, bg.width, bg.height);
    assert 0 <= BgPixel(p, width, height, bg) < bg.width * bg.height;
  }

  /** The sampled column and row of a display pixel lie inside the background grid. */
  lemma SampleBelow(x: nat, y: nat, width: nat, height: nat, bw: nat, bh: nat)
    requires x < width && y < height && bw > 0 && bh > 0
    ensures 0 <= (y * bh / height) * bw + x * bw / width < bw * bh
  {
    var col: nat := x * bw / width;
    var row: nat := y * bh / height;
    FloorScaleBelow(x, width, bw);
    FloorScaleBelow(y, height, bh);
    RowBelow(row, col, bw, bh);
  }

  /** floor(x·n/w) < n for x < w. */
  lemma FloorScaleBelow(x: nat, w: nat, n: nat)
    requires x < w && n > 0
    ensures x * n / w < n
  {
    MulMono(x, w - 1, n);
    assert (w - 1) * n == w * n - n;
    DivBelow(x * n, w, n);
  }

  lemma PositiveDimensions(width: nat, height: nat)
    requires width * height > 0
    ensures width > 0 && height > 0
  {
  }

  /** For a keyed pixel over a non-empty background image, the pass copies the
      sampled background pixel's RGB and forces alpha to 255. */
  lemma KeyedPixelTakesBackground(d: seq<Byte>, width: nat, height: nat, i: Intensity,
                                  bg: BgImage, colour: Option<string>, p: nat)
    requires |d| == 4 * (width * height)
    requires BgWellFormed(bg) && bg.width > 0 && bg.height > 0
    requires p < width * height
    requires IsKeyed(d[4 * p], d[4 * p + 1], d[4 * p + 2], i)
    ensures var idx := BgIndex(p, width, height, bg);
            0 <= idx && idx + 4 <= |bg.data| &&
            PixelAt(KeyedFrame(d, width, height, i, Some(bg), colour), p) ==
              [bg.data[idx], bg.data[idx + 1], bg.data[idx + 2], 255]
  {
    PositiveDimensions(width, height);
    BgIndexInRange(p, width, height, bg);
    KeyedFramePixel(d, width, height, i, Some(bg), colour, p);
    var px := PixelAt(d, p);
    assert px[0] == d[4 * p] && px[1] == d[4 * p + 1] && px[2] == d[4 * p + 2];
  }

  /** For a keyed pixel with no background image but a colour, RGB becomes the
      parsed colour and alpha 255. */
  lemma KeyedPixelTakesColour(d: seq<Byte>, width: nat, height: nat, i: Intensity,
                              colour: string, p: nat)
    requires |d| == 4 * (width * height)
    requires colour != "" && p < width * height
    requires IsKeyed(d[4 * p], d[4 * p + 1], d[4 * p + 2], i)
    ensures var c := HexToRgb(colour);
            PixelAt(KeyedFrame(d, width, height, i, None, Some(colour)), p) == [c.r, c.g, c.b, 255]
  {
    KeyedFramePixel(d, width, height, i, None, Some(colour), p);
  }

  /** One tick of `applyChromaKey` over `imageData.data`: the loop walks the
      buffer four bytes at a time and rewrites each pixel in place. */
  method ApplyChromaKey(data: array<Byte>, width: nat, height: nat, i: Intensity,
                        image: Option<BgImage>, colour: Option<string>)
    requires data.Length == 4 * (width * height)
    requires image.Some? ==> BgWellFormed(image.value)
    modifies data
    ensures data[..] == KeyedFrame(old(data[..]), width, height, i, image, colour)
  {
    ghost var orig := data[..];
    var k := 0;
    while k < data.Length
      invariant k % 4 == 0
      invariant KeyedUpTo(data[..], orig, k, width, height, i, image, colour)
    {
      ghost var before := data[..];
      KeyPixel(data, k, width, height, i, image, colour);
      KeyedStep(before, data[..], orig, k, width, height, i, image, colour);
      k := k + 4;
    }
    KeyedUpToEnd(data[..], orig, width, height, i, image, colour);
  }

  /** The loop's invariant: the first k bytes are keyed and the rest are as drawn. */
  ghost predicate KeyedUpTo(cur: seq<Byte>, orig: seq<Byte>, k: nat, width: nat, height: nat, i: Intensity,
                            image: Option<BgImage>, colour: Option<string>)
    requires |orig| == 4 * (width * height)
    requires image.Some? ==> BgWellFormed(image.value)
  {
    && |cur| == |orig| && k <= |orig|
    && (forall j :: 0 <= j < k ==> cur[j] == KeyedByte(orig, j, width, height, i, image, colour))
    && (forall j :: k <= j < |orig| ==> cur[j] == orig[j])
  }

  /** Keying the pixel at offset k extends the keyed prefix by that pixel. */
  lemma KeyedStep(before: seq<Byte>, after: seq<Byte>, orig: seq<Byte>, k: nat, width: nat, height: nat,
                  i: Intensity, image: Option<BgImage>, colour: Option<string>)
    requires |orig| == 4 * (width * height)
    requires image.Some? ==> BgWellFormed(image.value)
    requires k % 4 == 0 && k < |orig|
    requires KeyedUpTo(before, orig, k, width, height, i, image, colour)
    requires |after| == |before| && k + 4 <= |before|
    requires after[k..k + 4] == PixelOut(before[k..k + 4], k / 4, width, height, i, image, colour)
    requires forall j :: 0 <= j < |after| && !(k <= j < k + 4) ==> after[j] == before[j]
    ensures KeyedUpTo(after, orig, k + 4, width, height, i, image, colour)
  {
    PositiveDimensions(width, height);
    assert before[k..k + 4] == orig[k..k + 4];
    PixelBytesKeyed(orig, k, width, height, i, image, colour);
    assert forall j :: k <= j < k + 4 ==> after[j] == after[k..k + 4][j - k];
  }

  /** Once the whole buffer is keyed, it is the keyed frame. */
  lemma KeyedUpToEnd(cur: seq<Byte>, orig: seq<Byte>, width: nat, height: nat, i: Intensity,
                     image: Option<BgImage>, colour: Option<string>)
    requires |orig| == 4 * (width * height)
    requires image.Some? ==> BgWellFormed(image.value)
    requires KeyedUpTo(cur, orig, |orig|, width, height, i, image, colour)
    ensures cur == KeyedFrame(orig, width, height, i, image, colour)
  {
  }

  /** The four bytes of the pixel at offset k, as `KeyedByte` gives them, are that pixel's `PixelOut`. */
  lemma PixelBytesKeyed(d: seq<Byte>, k: nat, width: nat, height: nat, i: Intensity,
                        image: Option<BgImage>, colour: Option<string>)
    requires |d| == 4 * (width * height) && k % 4 == 0 && k + 4 <= |d|
    requires width > 0 && height > 0
    requires image.Some? ==> BgWellFormed(image.value)
    ensures forall j :: k <= j < k + 4 ==>
              KeyedByte(d, j, width, height, i, image, colour) ==
              PixelOut(d[k..k + 4], k / 4, width, height, i, image, colour)[j - k]
  {
    forall j | k <= j < k + 4
      ensures KeyedByte(d, j, width, height, i, image, colour) ==
              PixelOut(d[k..k + 4], k / 4, width, height, i, image, colour)[j - k]
    {
      DivModUnique(j, 4, k / 4, j - k);
    }
  }

  /** The body of the loop for the pixel at byte offset k: read r, g, b,
      classify, and overwrite from the background image or the colour. */
  method KeyPixel(data: array<Byte>, k: nat, width: nat, height: nat, i: Intensity,
                  image: Option<BgImage>, colour: Option<string>)
    requires data.Length == 4 * (width * height) && k % 4 == 0 && k < data.Length
    requires image.Some? ==> BgWellFormed(image.value)
    modifies data
    ensures k + 4 <= data.Length
    ensures data[k..k + 4] == PixelOut(old(data[k..k + 4]), k / 4, width, height, i, image, colour)
    ensures forall j :: 0 <= j < data.Length && !(k <= j < k + 4) ==> data[j] == old(data[j])
  {
    PositiveDimensions(width, height);
    PixelFits(k, width * height);
    ghost var px := data[k..k + 4];
    var r, g, b := data[k], data[k + 1], data[k + 2];
    assert r == px[0] && g == px[1] && b == px[2];
    if IsKeyed(r, g, b, i) {
      if image.Some? {
        var bg := image.value;
        var idx := BgIndex(k / 4, width, height, bg);
        if 0 <= idx < |bg.data| {
          PixelFits(idx, bg.width * bg.height);
          data[k], data[k + 1], data[k + 2], data[k + 3] := bg.data[idx], bg.data[idx + 1], bg.data[idx + 2], 255;
          assert data[k..k + 4] == [bg.data[idx], bg.data[idx + 1], bg.data[idx + 2], 255];
        }
      } else if ColourSet(colour) {
        var c := HexToRgb(colour.value);
        data[k], data[k + 1], data[k + 2], data[k + 3] := c.r, c.g, c.b, 255;
        assert data[k..k + 4] == [c.r, c.g, c.b, 255];
      }
    }
  }

  /** The byte offset `drawImage` reads for byte k of the mirrored canvas:
      the canvas pixel at column x shows the video pixel at column W-1-x. */
  function MirrorOffset(k: nat, width: nat, height: nat): (m: nat)
    requires k < 4 * (width * height)
    ensures m < 4 * (width * height)
  {
    PositiveDimensions(width, height);
    var p := k / 4;
    var x := p % width;
    var y := p / width;
    DivBelow(p, width, height);
    RowBelow(y, width - 1 - x, width, height);
    4 * (y * width + (width - 1 - x)) + k % 4
  }

  /** The video frame drawn through `translate(W, 0); scale(-1, 1)`. */
  function Mirror(frame: seq<Byte>, width: nat, height: nat): (r: seq<Byte>)
    requires |frame| == 4 * (width * height)
    ensures |r| == |frame|
  {
    seq(|frame|, k requires 0 <= k < |frame| => frame[MirrorOffset(k, width, height)])
  }

  lemma {:induction false} MirrorOffsetInvolution(k: nat, width: nat, height: nat)
    requires k < 4 * (width * height)
    ensures MirrorOffset(MirrorOffset(k, width, height), width, height) == k
  {
    PositiveDimensions(width, height);
    var p := k / 4;
    var x := p % width;
    var y := p / width;
    var m := MirrorOffset(k, width, height);
    var q := y * width + (width - 1 - x);
    assert m / 4 == q && m % 4 == k % 4;
    DivModUnique(q, width, y, width - 1 - x);
    assert y * width + x == p;
  }

  /** Mirroring twice gives back the original frame. */
  lemma MirrorTwice(frame: seq<Byte>, width: nat, height: nat)
    requires |frame| == 4 * (width * height)
    ensures Mirror(Mirror(frame, width, height), width, height) == frame
  {
    var once := Mirror(frame, width, height);
    var twice := Mirror(once, width, height);
    forall k | 0 <= k < |frame| ensures twice[k] == frame[k] {
      MirrorOffsetInvolution(k, width, height);
    }
  }
}
