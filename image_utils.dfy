/** The pixel routines of `ImageUtils`: the fixed-point YUV to ARGB conversion,
    the YUV_420_888 frame to ARGB pixel loop, and the integer part of `cropImage`.
    The byte-array crops are in module ImageCrop. */
module ImageUtils {
  import opened Kotlin
  import RowMajor

  /** `android.graphics.ImageFormat.YUV_420_888`. */
  const YUV_420_888: int := 0x23

  /** `CHANNEL_RANGE` is `0 until (1 shl 18)`: each channel is clamped below this
      bound before it is scaled from 18 to 8 bits. */
  const ChannelLimit: int := 0x4_0000

  /** An unsigned byte held in an `Int`, as `toIntUnsigned` produces it. */
  type UByte = x: int | 0 <= x < 256

  /** A colour int in ARGB_8888 layout: a 32-bit Kotlin `Int` with alpha in the top byte. */
  type Color = c: int | -0x8000_0000 <= c < 0x8000_0000

  /** `Byte.toIntUnsigned()`: widen to `Int` (sign-extending) and keep the low 8 bits. */
  function ToIntUnsigned(b: Byte): (n: UByte)
    ensures b >= 0 ==> n == b as int
    ensures b < 0 ==> n == b as int + 256
  {
    (b as int) % 256
  }

  /** The JVM's `Int.toByte()` on an unsigned byte value: the inverse of ToIntUnsigned. */
  function ToByte(n: UByte): (b: Byte)
    ensures ToIntUnsigned(b) == n
  {
    if n < 128 then n as Byte else (n - 256) as Byte
  }

  /** No two bytes widen to the same unsigned value. */
  lemma ToIntUnsignedInjective(b: Byte, c: Byte)
    requires ToIntUnsigned(b) == ToIntUnsigned(c)
    ensures b == c
  {
  }

  /** `coerceIn(CHANNEL_RANGE)`. */
  function Clamp(v: int): (c: int)
    ensures 0 <= c < ChannelLimit
    ensures 0 <= v < ChannelLimit ==> c == v
    ensures v < 0 ==> c == 0
    ensures v >= ChannelLimit ==> c == ChannelLimit - 1
  {
    if v < 0 then 0 else if v >= ChannelLimit then ChannelLimit - 1 else v
  }

  // ----- The conversion formula, stated on its own -----

  /** Y' = max(Y - 16, 0). */
  function Luma(y: UByte): (l: nat)
    ensures l <= 239
    ensures y >= 16 ==> l == y - 16
    ensures y < 16 ==> l == 0
  {
    if y - 16 < 0 then 0 else y - 16
  }

  /** The unclamped channels, scaled by 1024: R = 1192Y' + 1634V',
      G = 1192Y' - 833V' - 400U', B = 1192Y' + 2066U', where U' = U - 128
      and V' = V - 128. Each fits comfortably in a 32-bit `Int`. */
  function RawRed(y: UByte, v: UByte): (s: int)
    ensures -0x8000_0000 <= s < 0x8000_0000
  {
    1192 * Luma(y) + 1634 * (v - 128)
  }

  function RawGreen(y: UByte, u: UByte, v: UByte): (s: int)
    ensures -0x8000_0000 <= s < 0x8000_0000
  {
    1192 * Luma(y) - 833 * (v - 128) - 400 * (u - 128)
  }

  function RawBlue(y: UByte, u: UByte): (s: int)
    ensures -0x8000_0000 <= s < 0x8000_0000
  {
    1192 * Luma(y) + 2066 * (u - 128)
  }

  /** An 18-bit clamped channel scaled down to 8 bits. */
  function Level(raw: int): (l: int)
    ensures 0 <= l < 256
  {
    Clamp(raw) / 1024
  }

  // ----- Reading a colour int back, as android.graphics.Color does -----

  /** The colour's 32 bits read as an unsigned number. */
  function Bits(c: Color): (u: nat)
    ensures u < 0x1_0000_0000
  {
    c % 0x1_0000_0000
  }

  /** `color ushr 24`, `(color shr 16) and 0xFF`, `(color shr 8) and 0xFF`, `color and 0xFF`. */
  function Alpha(c: Color): int { Bits(c) / 0x100_0000 }
  function Red(c: Color): int { Bits(c) / 0x1_0000 % 0x100 }
  function Green(c: Color): int { Bits(c) / 0x100 % 0x100 }
  function Blue(c: Color): int { Bits(c) % 0x100 }

  /** `clamped shr 10 and 0xff` on a non-negative value: the shift is a division
      by 1024 and the mask a remainder by 256. Because the value is below 2^18
      the mask keeps every bit the shift leaves. */
  function ScaleTo8Bits(clamped: int): (b: int)
    requires 0 <= clamped < ChannelLimit
    ensures b == clamped / 1024
  {
    clamped / 1024 % 256
  }

  /** `-0x1000000 or (r shl 16) or (g shl 8) or b`. The four operands occupy
      disjoint bits (see PackBitsIsSum), so the `or` is their sum. */
  function Pack(r: int, g: int, b: int): Color
    requires 0 <= r < 256 && 0 <= g < 256 && 0 <= b < 256
  {
    -0x100_0000 + r * 0x1_0000 + g * 0x100 + b
  }

  /** A packed colour reads back as an opaque alpha byte and the three bytes packed. */
  lemma PackChannels(r: int, g: int, b: int)
    requires 0 <= r < 256 && 0 <= g < 256 && 0 <= b < 256
    ensures var c := Pack(r, g, b);
      Alpha(c) == 0xFF && Red(c) == r && Green(c) == g && Blue(c) == b && c < 0
  {
    var c := Pack(r, g, b);
    assert Bits(c) == 0xFF00_0000 + r * 0x1_0000 + g * 0x100 + b;
    assert Bits(c) / 0x1_0000 == 0xFF00 + r;
    assert Bits(c) / 0x100 == 0xFF_0000 + r * 0x100 + g;
  }

  /** On 32-bit patterns, or-ing the opaque alpha byte with three shifted bytes
      adds them up: no two operands share a bit. */
  lemma PackBitsIsSum(r: bv32, g: bv32, b: bv32)
    requires r < 256 && g < 256 && b < 256
    ensures 0xFF00_0000 | (r << 16) | (g << 8) | b == 0xFF00_0000 + r * 0x1_0000 + g * 0x100 + b
  {
  }

  /** `yuvToRgb`: the colour of one pixel. */
  function YuvToRgb(nY: UByte, nU: UByte, nV: UByte): Color
  {
    var r := ScaleTo8Bits(Clamp(RawRed(nY, nV)));
    var g := ScaleTo8Bits(Clamp(RawGreen(nY, nU, nV)));
    var b := ScaleTo8Bits(Clamp(RawBlue(nY, nU)));
    Pack(r, g, b)
  }

  /** The alpha byte of every converted colour is 0xFF (so the colour int is
      negative), and each colour byte is the clamped, scaled channel of the
      formula: the `and 0xff` discards nothing. */
  lemma YuvToRgbChannels(nY: UByte, nU: UByte, nV: UByte)
    ensures var color := YuvToRgb(nY, nU, nV);
      && Alpha(color) == 0xFF && color < 0
      && Red(color) == Level(RawRed(nY, nV))
      && Green(color) == Level(RawGreen(nY, nU, nV))
      && Blue(color) == Level(RawBlue(nY, nU))
  {
    PackChannels(Level(RawRed(nY, nV)), Level(RawGreen(nY, nU, nV)), Level(RawBlue(nY, nU)));
  }

  /** With neutral chroma (U = V = 128) the three channels are equal: a grey
      whose level depends on the luma alone. */
  lemma NeutralChroma(nY: UByte)
    ensures var l := Level(1192 * Luma(nY)); YuvToRgb(nY, 128, 128) == Pack(l, l, l)
  {
  }

  /** Neutral chroma gives greys: opaque black 0xFF000000 at the black point
      Y = 16, a near-white 0xFFFEFEFE at the nominal peak Y = 235, and white
      0xFFFFFFFF (the `Int` -1) once the clamp engages at Y = 255. */
  lemma Greys()
    ensures YuvToRgb(16, 128, 128) == -0x100_0000
    ensures YuvToRgb(235, 128, 128) == -0x1_0102
    ensures YuvToRgb(255, 128, 128) == -1
  {
    NeutralChroma(16);
    NeutralChroma(235);
    NeutralChroma(255);
    assert Luma(235) == 219 && Level(1192 * 219) == 254;
  }

  // ----- convertYuv420888ImageToBitmap -----

  /** The parts of an `android.media.Image` that the conversion reads: its format,
      its size, the bytes of its three planes, the Y plane's row stride, and the
      row and pixel strides of plane 1 (which the code also uses for plane 2). */
  datatype Frame = Frame(
    format: int,
    width: nat,
    height: nat,
    yPlane: seq<Byte>,
    uPlane: seq<Byte>,
    vPlane: seq<Byte>,
    yRowStride: nat,
    uvRowStride: nat,
    uvPixelStride: nat)

  /** Where pixel (x, y) reads its luma: `yRowStride * y + x`. */
  function YIndex(f: Frame, x: nat, y: nat): nat
  {
    f.yRowStride * y + x
  }

  /** Where pixel (x, y) reads its chroma: `uvRowStride * (y shr 1) + (x shr 1) * uvPixelStride`,
      one chroma sample for each 2x2 block of pixels. */
  function UvIndex(f: Frame, x: nat, y: nat): nat
  {
    f.uvRowStride * (y / 2) + (x / 2) * f.uvPixelStride
  }

  /** Pixel (x, y) reads inside the frame's three planes. */
  ghost predicate PixelInPlanes(f: Frame, x: nat, y: nat)
  {
    YIndex(f, x, y) < |f.yPlane| && UvIndex(f, x, y) < |f.uPlane| && UvIndex(f, x, y) < |f.vPlane|
  }

  /** Every pixel of the frame reads inside its three planes. The camera stack
      delivers planes this large; the code itself does not check it. */
  ghost predicate PlanesCover(f: Frame)
  {
    forall x: nat, y: nat :: x < f.width && y < f.height ==> PixelInPlanes(f, x, y)
  }

  /** The colour made of the luma byte at index yIndex of the Y plane and the
      chroma bytes at index uvIndex of the U and V planes, each read unsigned. */
  function PlanePixel(f: Frame, yIndex: nat, uvIndex: nat): Color
    requires yIndex < |f.yPlane| && uvIndex < |f.uPlane| && uvIndex < |f.vPlane|
  {
    YuvToRgb(ToIntUnsigned(f.yPlane[yIndex]), ToIntUnsigned(f.uPlane[uvIndex]), ToIntUnsigned(f.vPlane[uvIndex]))
  }

  /** The colour of pixel (x, y) of a frame. */
  function PixelAt(f: Frame, x: nat, y: nat): Color
    requires PlanesCover(f) && x < f.width && y < f.height
  {
    assert PixelInPlanes(f, x, y);
    PlanePixel(f, YIndex(f, x, y), UvIndex(f, x, y))
  }

  /** Row y of the frame, left to right. */
  function Row(f: Frame, y: nat): (row: seq<Color>)
    requires PlanesCover(f) && y < f.height
    ensures |row| == f.width
  {
    seq(f.width, x requires 0 <= x < f.width => PixelAt(f, x, y))
  }

  /** Rows 0 to n - 1 of the frame, one after another: the row-major layout. */
  function Rows(f: Frame, n: nat): (s: seq<Color>)
    requires PlanesCover(f) && n <= f.height
    ensures |s| == n * f.width
  {
    if n == 0 then [] else Rows(f, n - 1) + Row(f, n - 1)
  }

  /** All `width * height` colours of the frame in row-major order. */
  function Pixels(f: Frame): (s: seq<Color>)
    requires PlanesCover(f)
  {
    Rows(f, f.height)
  }

  /** The row-major layout: in the first n rows, pixel (x, y) is at position
      k = `y * width + x`. */
  lemma {:induction false} RowsAt(f: Frame, n: nat, x: nat, y: nat, k: nat)
    requires PlanesCover(f) && n <= f.height && x < f.width && y < n && k == y * f.width + x
    ensures k < |Rows(f, n)| && Rows(f, n)[k] == Row(f, y)[x]
  {
    var prefix := Rows(f, n - 1);
    assert Rows(f, n) == prefix + Row(f, n - 1);
    if y < n - 1 {
      RowsAt(f, n - 1, x, y, k);
    } else {
      assert k == |prefix| + x;
    }
  }

  /** The frame's pixels: `width * height` colours, pixel (x, y) at `y * width + x`. */
  lemma PixelsAt(f: Frame, x: nat, y: nat)
    requires PlanesCover(f) && x < f.width && y < f.height
    ensures |Pixels(f)| == f.width * f.height
    ensures y * f.width + x < |Pixels(f)| && Pixels(f)[y * f.width + x] == PixelAt(f, x, y)
  {
    RowsAt(f, f.height, x, y, y * f.width + x);
  }

  /** And nothing else: position k holds the pixel in column `k % width` of
      row `k / width`. */
  lemma PixelsPosition(f: Frame, k: nat)
    requires PlanesCover(f) && k < |Pixels(f)|
    ensures f.width > 0 && k / f.width < f.height
    ensures Pixels(f)[k] == PixelAt(f, k % f.width, k / f.width)
  {
    RowMajor.Split(f.width, f.height, k);
    var x, y := k % f.width, k / f.width;
    assert k == y * f.width + x;
    PixelsAt(f, x, y);
  }

  /** The pixel loop of `convertYuv420888ImageToBitmap`: any format other than
      YUV_420_888 is refused with `IllegalArgumentException`; otherwise the loop
      fills a fresh `IntArray(width * height)` with the frame's pixels, row by row. */
  method ConvertYuv420888(f: Frame) returns (r: Result<seq<Color>>)
    requires f.format == YUV_420_888 ==> PlanesCover(f)
    ensures f.format != YUV_420_888 <==> r == Err(IllegalArgument)
    ensures f.format == YUV_420_888 ==> r == Ok(Pixels(f))
  {
    if f.format != YUV_420_888 {
      return Err(IllegalArgument);
    }
    var argb8888 := new Color[f.width * f.height];
    var i: nat := 0;
    for y := 0 to f.height
      invariant i <= argb8888.Length && argb8888[..i] == Rows(f, y)
    {
      RowsInside(f, y);
      i := ConvertRow(f, y, argb8888, i);
    }
    assert i == argb8888.Length;
    assert argb8888[..] == argb8888[..i];
    return Ok(argb8888[..]);
  }

  /** Row y ends inside the `width * height` array. */
  lemma RowsInside(f: Frame, y: nat)
    requires PlanesCover(f) && y < f.height
    ensures |Rows(f, y)| + f.width <= f.width * f.height
  {
    RowMajor.MulAtLeast(f.height - y, f.width);
    assert f.width * f.height == y * f.width + (f.height - y) * f.width;
  }

  /** The colour the pixel loop computes for pixel (x, y) is that pixel's colour. */
  lemma LoopPixel(f: Frame, x: nat, y: nat, pY: int, uvOffset: int)
    requires PlanesCover(f) && x < f.width && y < f.height
    requires pY == f.yRowStride * y && uvOffset == f.uvRowStride * (y / 2) + (x / 2) * f.uvPixelStride
    ensures 0 <= pY + x < |f.yPlane| && 0 <= uvOffset < |f.uPlane| && uvOffset < |f.vPlane|
    ensures Row(f, y)[x] == PlanePixel(f, pY + x, uvOffset)
  {
    assert PixelInPlanes(f, x, y);
    assert YIndex(f, x, y) == pY + x && UvIndex(f, x, y) == uvOffset;
  }

  /** Appending the next element of s to a prefix of s extends that prefix. Stated
      for any element type, so the colours themselves are never unfolded. */
  lemma AppendNext<T>(done: seq<T>, front: seq<T>, s: seq<T>, n: nat, e: T)
    requires n < |s| && done == front + s[..n] && e == s[n]
    ensures done + [e] == front + s[..n + 1]
  {
    assert s[..n + 1] == s[..n] + [e];
  }

  /** Writing e at position i of an array makes its first i + 1 elements the
      first i it had, followed by e. */
  lemma WriteNext<T>(before: seq<T>, after: seq<T>, i: nat, e: T)
    requires i < |before| && after == before[i := e]
    ensures after[..i + 1] == before[..i] + [e]
  {
  }

  /** A prefix as long as s is s. */
  lemma AppendAll<T>(done: seq<T>, front: seq<T>, s: seq<T>)
    requires done == front + s[..|s|]
    ensures done == front + s
  {
    assert s[..|s|] == s;
  }

  /** The inner loop of the conversion: the pixels of row y, written after the
      rows above it. */
  method ConvertRow(f: Frame, y: nat, argb8888: array<Color>, start: nat) returns (i: nat)
    requires PlanesCover(f) && y < f.height
    requires start == |Rows(f, y)| && start + f.width <= argb8888.Length
    requires argb8888[..start] == Rows(f, y)
    modifies argb8888
    ensures i == start + f.width && i == |Rows(f, y + 1)| && argb8888[..i] == Rows(f, y + 1)
  {
    ghost var row := Row(f, y);
    var pY := f.yRowStride * y;
    var uvRowStart := f.uvRowStride * (y / 2);
    i := start;
    for x := 0 to f.width
      invariant i == start + x
      invariant argb8888[..i] == Rows(f, y) + row[..x]
    {
      var uvOffset := (x / 2) * f.uvPixelStride;
      LoopPixel(f, x, y, pY, uvRowStart + uvOffset);
      var color := PlanePixel(f, pY + x, uvRowStart + uvOffset);
      ghost var before := argb8888[..];
      argb8888[i] := color;
      WriteNext(before, argb8888[..], i, color);
      AppendNext(before[..i], Rows(f, y), row, x, color);
      i := i + 1;
    }
    AppendAll(argb8888[..i], Rows(f, y), row);
    assert Rows(f, y + 1) == Rows(f, y) + row;
  }

  // ----- cropImage: which crop percentages apply -----

  /** The integer decision of `cropImage`: the percentages of the frame's width
      and height to crop away. The frame's integer aspect ratio `imageWidth /
      imageHeight` (a division by zero for an empty frame) decides whether the
      desired height is halved, and a frame rotated by 90 or 270 degrees swaps
      the two. The float `Rect.inset` that follows is not modelled. */
  function CropPercentages(imageWidth: nat, imageHeight: nat, rotationDegrees: int,
                           desiredWidth: int, desiredHeight: int): (r: Result<(int, int)>)
    ensures r.Err? <==> imageHeight == 0
    ensures r.Err? ==> r.error == Arithmetic
    ensures r.Ok? ==>
      var heightPercentage := if imageWidth >= 4 * imageHeight then Div(desiredHeight, 2) else desiredHeight;
      r.value == if rotationDegrees == 90 || rotationDegrees == 270
                 then (heightPercentage, desiredWidth)
                 else (desiredWidth, heightPercentage)
  {
    if imageHeight == 0 then Err(Arithmetic)
    else
      var actualAspectRatio := imageWidth / imageHeight;
      var desiredHeightConverted := if actualAspectRatio > 3 then Div(desiredHeight, 2) else desiredHeight;
      if rotationDegrees == 90 || rotationDegrees == 270 then Ok((desiredHeightConverted, desiredWidth))
      else Ok((desiredWidth, desiredHeightConverted))
  }

  /** Percentages within [0, 100] stay within [0, 100], whatever the frame and its
      rotation, so each float crop fraction lies in [0, 1]. */
  lemma CropPercentagesInRange(imageWidth: nat, imageHeight: nat, rotationDegrees: int,
                               desiredWidth: int, desiredHeight: int)
    requires imageHeight > 0
    requires 0 <= desiredWidth <= 100 && 0 <= desiredHeight <= 100
    ensures var r := CropPercentages(imageWidth, imageHeight, rotationDegrees, desiredWidth, desiredHeight);
      r.Ok? && 0 <= r.value.0 <= 100 && 0 <= r.value.1 <= 100
  {
  }

  /** A rotated frame is cropped by the unrotated frame's percentages, swapped. */
  lemma CropPercentagesRotated(imageWidth: nat, imageHeight: nat, desiredWidth: int, desiredHeight: int)
    requires imageHeight > 0
    ensures var upright := CropPercentages(imageWidth, imageHeight, 0, desiredWidth, desiredHeight);
      var turned := CropPercentages(imageWidth, imageHeight, 90, desiredWidth, desiredHeight);
      upright.Ok? && turned.Ok? && turned.value == (upright.value.1, upright.value.0)
      && CropPercentages(imageWidth, imageHeight, 270, desiredWidth, desiredHeight) == turned
      && CropPercentages(imageWidth, imageHeight, 180, desiredWidth, desiredHeight) == upright
  {
  }
}
