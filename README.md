# AndroidMLKit image and scanner core, in Dafny

This project models the integer core of the AndroidMLKit sample app and
proves properties of it. The core has three parts.

- **`ImageUtils`** converts a camera frame and crops it before it goes to
  ML Kit. Modules `ImageUtils` (`image_utils.dfy`) and `ImageCrop`
  (`image_crop.dfy`) model:
  - the YUV-to-ARGB colour formula `yuvToRgb`;
  - the pixel loop of `convertYuv420888ImageToBitmap`;
  - the integer choice of crop percentages in `cropImage`;
  - `toIntUnsigned`;
  - the private `cropByteArray`, which keeps the bytes whose row-major cell
    lies inside a rectangle;
  - `croppedNV21`, which hands that function a Y plane followed by a VU plane;
  - the public `cropByteArray`, which copies the Y rows and VU rows of an
    NV21 buffer with `System.arraycopy`.
- **`MainViewModel`** (`main_view_model.dfy`, module `ViewModel`) is a class.
  - It holds the view state, which is published to observers on every set.
  - It records the one-shot effects it emits and the navigation calls it
    makes.
  - Its invariant ties all four to pure functions of the inputs it has
    received.
- **`CodeScannerOverlay`** (`code_scanner_overlay.dfy`) covers:
  - the box format looked up from its attribute value;
  - the per-format default box sizes;
  - the defaulting of absent layout attributes at construction;
  - the percentages it reports as cropped.

Two small modules support the rest:

- `Kotlin` (`kotlin.dfy`) has the signed `Byte`, the exceptions the code
  can throw as a `Result`, Kotlin's truncating `/`, nullable values and
  zero-filled arrays.
- `RowMajor` (`row_major.dfy`) has the arithmetic of `y * width + x`
  positions.

The public `cropByteArray` is modelled twice.

- `CropNv21AsWritten` (computed by the method `CropNv21`) follows the
  source line for line.
- `CropNv21Aligned` is the evidently intended version. For a rectangle
  inside a whole NV21 frame, its whole output is proved equal to a
  reference definition, `Nv21Crop`: the luma rows of the rectangle followed
  by the VU rows that cover them.

See "## Findings".

## Model

| member | source | states |
|---|---|---|
| `Kotlin.Div` | AndroidMLKit/app/src/main/java/com/diegopizzo/androidmlkit/camera/utils/ImageUtils.kt:181-188 | Kotlin's `/` by a positive divisor truncates toward zero: the quotient brackets the dividend from below for non-negative and from above for negative dividends |
| `Kotlin.Zeros` | AndroidMLKit/app/src/main/java/com/diegopizzo/androidmlkit/camera/utils/ImageUtils.kt:187 | a new `ByteArray(n)` has n elements, all zero |
| `ImageUtils.ToIntUnsigned` | AndroidMLKit/app/src/main/java/com/diegopizzo/androidmlkit/camera/utils/ImageUtils.kt:211-213 | `toInt() and 0xFF` is the byte itself when non-negative and the byte plus 256 when negative |
| `ImageUtils.ToByte` | AndroidMLKit/app/src/main/java/com/diegopizzo/androidmlkit/camera/utils/ImageUtils.kt:211-213 | every value 0..255 is the unsigned value of some byte (right inverse) |
| `ImageUtils.ToIntUnsignedInjective` | AndroidMLKit/app/src/main/java/com/diegopizzo/androidmlkit/camera/utils/ImageUtils.kt:211-213 | two bytes with the same unsigned value are the same byte |
| `ImageUtils.Clamp` | AndroidMLKit/app/src/main/java/com/diegopizzo/androidmlkit/camera/utils/ImageUtils.kt:96-98 | `coerceIn(0 until 1 shl 18)` lands in the range, leaves values already in it unchanged, and sends values below it to 0 and values above it to 2^18 - 1 |
| `ImageUtils.Luma` | AndroidMLKit/app/src/main/java/com/diegopizzo/androidmlkit/camera/utils/ImageUtils.kt:86-89 | `max(Y - 16, 0)`: Y - 16 from 16 up, 0 below 16, never above 239 |
| `ImageUtils.RawRed` | AndroidMLKit/app/src/main/java/com/diegopizzo/androidmlkit/camera/utils/ImageUtils.kt:91 | the red sum never leaves the 32-bit `Int` range, so it does not wrap |
| `ImageUtils.RawGreen` | AndroidMLKit/app/src/main/java/com/diegopizzo/androidmlkit/camera/utils/ImageUtils.kt:92 | the green sum never leaves the 32-bit `Int` range |
| `ImageUtils.RawBlue` | AndroidMLKit/app/src/main/java/com/diegopizzo/androidmlkit/camera/utils/ImageUtils.kt:93 | the blue sum never leaves the 32-bit `Int` range |
| `ImageUtils.ScaleTo8Bits` | AndroidMLKit/app/src/main/java/com/diegopizzo/androidmlkit/camera/utils/ImageUtils.kt:96-98 | on a clamped value, `shr 10 and 0xff` is division by 1024: the mask removes nothing |
| `ImageUtils.Level` | AndroidMLKit/app/src/main/java/com/diegopizzo/androidmlkit/camera/utils/ImageUtils.kt:96-98 | each channel ends in 0..255 |
| `ImageUtils.PackBitsIsSum` | AndroidMLKit/app/src/main/java/com/diegopizzo/androidmlkit/camera/utils/ImageUtils.kt:99 | the opaque alpha byte and the three shifted bytes share no bit, so `or` is their sum |
| `ImageUtils.PackChannels` | AndroidMLKit/app/src/main/java/com/diegopizzo/androidmlkit/camera/utils/ImageUtils.kt:99 | a packed colour reads back as alpha 0xFF and the three bytes packed, and is a negative `Int` |
| `ImageUtils.YuvToRgb` | AndroidMLKit/app/src/main/java/com/diegopizzo/androidmlkit/camera/utils/ImageUtils.kt:82-100 | `yuvToRgb`: the three scaled, clamped channels packed under an opaque alpha; what each byte holds is stated by `YuvToRgbChannels` |
| `ImageUtils.YuvToRgbChannels` | AndroidMLKit/app/src/main/java/com/diegopizzo/androidmlkit/camera/utils/ImageUtils.kt:82-100 | every colour is opaque, and each channel is the clamped, scaled sum of its formula |
| `ImageUtils.NeutralChroma` | AndroidMLKit/app/src/main/java/com/diegopizzo/androidmlkit/camera/utils/ImageUtils.kt:82-100 | with U = V = 128 the three channels are equal, a grey set by Y alone |
| `ImageUtils.Greys` | AndroidMLKit/app/src/main/java/com/diegopizzo/androidmlkit/camera/utils/ImageUtils.kt:82-100 | Y = 16, 235 and 255 with neutral chroma give 0xFF000000, 0xFFFEFEFE and 0xFFFFFFFF |
| `ImageUtils.RowsAt` | AndroidMLKit/app/src/main/java/com/diegopizzo/androidmlkit/camera/utils/ImageUtils.kt:43-57 | after n rows, array position `y * width + x` holds pixel (x, y) |
| `ImageUtils.Pixels` | AndroidMLKit/app/src/main/java/com/diegopizzo/androidmlkit/camera/utils/ImageUtils.kt:43-57 | the reference for the pixel loop: every pixel's colour in row-major order; its length and content are stated by `PixelsAt` and `PixelsPosition` |
| `ImageUtils.PixelsAt` | AndroidMLKit/app/src/main/java/com/diegopizzo/androidmlkit/camera/utils/ImageUtils.kt:43-57 | the output has `width * height` colours, and position `y * width + x` is pixel (x, y) |
| `ImageUtils.PixelsPosition` | AndroidMLKit/app/src/main/java/com/diegopizzo/androidmlkit/camera/utils/ImageUtils.kt:43-57 | every output position k is pixel (`k % width`, `k / width`) |
| `ImageUtils.LoopPixel` | AndroidMLKit/app/src/main/java/com/diegopizzo/androidmlkit/camera/utils/ImageUtils.kt:46-54 | the indices `pY + x` and `uvRowStart + uvOffset` read the Y, U and V samples of pixel (x, y), inside their planes |
| `ImageUtils.ConvertRow` | AndroidMLKit/app/src/main/java/com/diegopizzo/androidmlkit/camera/utils/ImageUtils.kt:48-56 | the inner loop appends row y's colours at the running index `i` and leaves `i` at the end of the row |
| `ImageUtils.ConvertYuv420888` | AndroidMLKit/app/src/main/java/com/diegopizzo/androidmlkit/camera/utils/ImageUtils.kt:21-57 | a format other than YUV_420_888 throws `IllegalArgumentException` and nothing else does; a YUV_420_888 frame always converts, to the array of every pixel's colour in row-major order |
| `ImageUtils.CropPercentages` | AndroidMLKit/app/src/main/java/com/diegopizzo/androidmlkit/camera/utils/ImageUtils.kt:121-141 | a zero-height frame throws `ArithmeticException`; otherwise the height percentage is halved exactly when `width >= 4 * height`, and swapped with the width percentage exactly for rotations 90 and 270 |
| `ImageUtils.CropPercentagesInRange` | AndroidMLKit/app/src/main/java/com/diegopizzo/androidmlkit/camera/utils/ImageUtils.kt:132-141 | percentages in [0, 100] stay in [0, 100] |
| `ImageUtils.CropPercentagesRotated` | AndroidMLKit/app/src/main/java/com/diegopizzo/androidmlkit/camera/utils/ImageUtils.kt:138-141 | 90 and 270 degrees give the 0-degree pair swapped; 180 degrees gives the 0-degree pair |
| `ImageCrop.Selected` | AndroidMLKit/app/src/main/java/com/diegopizzo/androidmlkit/camera/utils/ImageUtils.kt:164-178 | the private `cropByteArray`'s kept bytes in index order, never more than the bytes examined; what it keeps is stated by `SelectedCount`, `SelectedAt` and `SelectedFits` |
| `ImageCrop.SelectedCount` | AndroidMLKit/app/src/main/java/com/diegopizzo/androidmlkit/camera/utils/ImageUtils.kt:167-175 | after n bytes the running index `i` equals the number of rectangle cells before position n |
| `ImageCrop.SelectedFits` | AndroidMLKit/app/src/main/java/com/diegopizzo/androidmlkit/camera/utils/ImageUtils.kt:165-173 | at most `width() * height()` bytes are kept, so `croppedArray[i]` is never out of bounds |
| `ImageCrop.SelectedPrefix` | AndroidMLKit/app/src/main/java/com/diegopizzo/androidmlkit/camera/utils/ImageUtils.kt:167-175 | what is kept from the first m bytes is a prefix of what is kept from the first n ≥ m |
| `ImageCrop.Crop` | AndroidMLKit/app/src/main/java/com/diegopizzo/androidmlkit/camera/utils/ImageUtils.kt:164-178 | a successful crop is `width() * height()` bytes long |
| `ImageCrop.CropInsideSize` | AndroidMLKit/app/src/main/java/com/diegopizzo/androidmlkit/camera/utils/ImageUtils.kt:164-178 | for a rectangle inside the image exactly `width() * height()` bytes are kept, so the output has no zero padding |
| `ImageCrop.SelectedAt` | AndroidMLKit/app/src/main/java/com/diegopizzo/androidmlkit/camera/utils/ImageUtils.kt:167-175 | for a rectangle inside the image, output byte `width() * (y - top) + (x - left)` is image byte (x, y): the output is the sub-image, row by row |
| `ImageCrop.CropByteArray` | AndroidMLKit/app/src/main/java/com/diegopizzo/androidmlkit/camera/utils/ImageUtils.kt:164-178 | the loop computes `Crop`: a negative size or, on a non-empty array, a zero width throws; otherwise the kept bytes come first and zeros follow |
| `ImageCrop.CroppedNv21` | AndroidMLKit/app/src/main/java/com/diegopizzo/androidmlkit/camera/utils/ImageUtils.kt:149-161 | `croppedNV21`: the private crop of the Y bytes followed by the VU bytes; `CroppedNv21LumaOnly` states what it keeps |
| `ImageCrop.CroppedNv21LumaOnly` | AndroidMLKit/app/src/main/java/com/diegopizzo/androidmlkit/camera/utils/ImageUtils.kt:149-161 | a rectangle within the Y plane's rows crops the Y plane alone: no VU byte reaches the output |
| `ImageCrop.ApplySlices` | AndroidMLKit/app/src/main/java/com/diegopizzo/androidmlkit/camera/utils/ImageUtils.kt:195 | an `arraycopy` that fits leaves the destination's prefix and suffix and puts the source range between them |
| `ImageCrop.ArrayCopy` | AndroidMLKit/app/src/main/java/com/diegopizzo/androidmlkit/camera/utils/ImageUtils.kt:199 | `System.arraycopy` succeeds exactly when both ranges fit, then writes the source range into the destination range; otherwise the destination is unchanged |
| `ImageCrop.Rows` | AndroidMLKit/app/src/main/java/com/diegopizzo/androidmlkit/camera/utils/ImageUtils.kt:194-203 | the row loop keeps the output's length, and the only exception it throws is `IndexOutOfBoundsException` |
| `ImageCrop.CopyRows` | AndroidMLKit/app/src/main/java/com/diegopizzo/androidmlkit/camera/utils/ImageUtils.kt:185-187 | `ByteArray(yUnit + uv)` throws `NegativeArraySizeException` exactly when `w * h < 0`; otherwise the output is `w * h + w * h / 2` bytes |
| `ImageCrop.CopyRowsInPlace` | AndroidMLKit/app/src/main/java/com/diegopizzo/androidmlkit/camera/utils/ImageUtils.kt:190-204 | the `for` loop with its four running positions computes `Rows`, and `nData` ends as the result |
| `ImageCrop.CropNv21AsWritten` | AndroidMLKit/app/src/main/java/com/diegopizzo/androidmlkit/camera/utils/ImageUtils.kt:180-205 | the public `cropByteArray` as written: only `NegativeArraySizeException` and `IndexOutOfBoundsException` can escape, and a result has w·h + w·h/2 bytes |
| `ImageCrop.CropNv21` | AndroidMLKit/app/src/main/java/com/diegopizzo/androidmlkit/camera/utils/ImageUtils.kt:180-205 | the public `cropByteArray` computes `CropNv21AsWritten` |
| `ImageCrop.AlignDown` | AndroidMLKit/app/src/main/java/com/diegopizzo/androidmlkit/camera/utils/ImageUtils.kt:181-184 | `v / 2 * 2` is even, and for v ≥ 0 it is v or v - 1 |
| `ImageCrop.CropNv21Aligned` | AndroidMLKit/app/src/main/java/com/diegopizzo/androidmlkit/camera/utils/ImageUtils.kt:180-205 | the corrected crop: only the same two exceptions can escape, and a result has 3/2 of the even-rounded rectangle's area; `CropNv21AlignedContent` states its content |
| `ImageCrop.OddHeightOverruns` | AndroidMLKit/app/src/main/java/com/diegopizzo/androidmlkit/camera/utils/ImageUtils.kt:183-199 | as written, a 3-row rectangle of a 2×4 frame throws `IndexOutOfBoundsException` on its second VU copy |
| `ImageCrop.OddTopOddHeightFits` | AndroidMLKit/app/src/main/java/com/diegopizzo/androidmlkit/camera/utils/ImageUtils.kt:181-202 | as written, rows 1-3 of the 2 × 4 frame meet one even row, and its VU copy fits: the crop does not throw |
| `ImageCrop.LaterTopOddHeightFits` | AndroidMLKit/app/src/main/java/com/diegopizzo/androidmlkit/camera/utils/ImageUtils.kt:181-202 | as written, rows 2-4 of a 2 × 6 frame, an odd height from an even top, do not throw: the VU destination starts one row early, so both VU copies fit |
| `ImageCrop.LowerRectLosesChroma` | AndroidMLKit/app/src/main/java/com/diegopizzo/androidmlkit/camera/utils/ImageUtils.kt:188-193 | as written, rows 2-3 of a 2×4 frame crop to their luma and a zero VU row |
| `ImageCrop.LowerRectOverwritesLuma` | AndroidMLKit/app/src/main/java/com/diegopizzo/androidmlkit/camera/utils/ImageUtils.kt:188-189 | as written, rows 4-5 of a 2 × 8 frame put VU row 0 at position 0, over luma row 4 |
| `ImageCrop.BottomRectThrows` | AndroidMLKit/app/src/main/java/com/diegopizzo/androidmlkit/camera/utils/ImageUtils.kt:188 | as written, rows 6-7 of a 2 × 8 frame give a VU destination of -2, and the first VU copy throws |
| `ImageCrop.BottomRectKeepsChroma` | AndroidMLKit/app/src/main/java/com/diegopizzo/androidmlkit/camera/utils/ImageUtils.kt:188-189 | corrected, the same rows crop to luma rows 6-7 and VU row 3 |
| `ImageCrop.OddHeightAligned` | AndroidMLKit/app/src/main/java/com/diegopizzo/androidmlkit/camera/utils/ImageUtils.kt:180-205 | corrected, the same 3-row rectangle of any 2×4 frame crops to luma rows 0-1 and VU row 0 |
| `ImageCrop.LowerRectKeepsChroma` | AndroidMLKit/app/src/main/java/com/diegopizzo/androidmlkit/camera/utils/ImageUtils.kt:180-205 | corrected, rows 2-3 of any 2×4 frame crop to their luma and VU row 1 |
| `ImageCrop.BlockLength` | AndroidMLKit/app/src/main/java/com/diegopizzo/androidmlkit/camera/utils/ImageUtils.kt:194-203 | n copied rows of w bytes make `w * n` bytes |
| `ImageCrop.BlockAt` | AndroidMLKit/app/src/main/java/com/diegopizzo/androidmlkit/camera/utils/ImageUtils.kt:194-203 | byte `w * k + c` of n rows copied `stride` apart is source byte `start + stride * k + c` |
| `ImageCrop.FillLuma` | AndroidMLKit/app/src/main/java/com/diegopizzo/androidmlkit/camera/utils/ImageUtils.kt:195 | a luma copy at the end of the luma rows done fits and appends the source row to them |
| `ImageCrop.FillChroma` | AndroidMLKit/app/src/main/java/com/diegopizzo/androidmlkit/camera/utils/ImageUtils.kt:199 | a VU copy at the end of the VU rows done fits and appends the source row to them |
| `ImageCrop.EvenRow` | AndroidMLKit/app/src/main/java/com/diegopizzo/androidmlkit/camera/utils/ImageUtils.kt:194-202 | an even row appends one luma row and one VU row and advances both cursors by a row |
| `ImageCrop.OddRow` | AndroidMLKit/app/src/main/java/com/diegopizzo/androidmlkit/camera/utils/ImageUtils.kt:194-198 | an odd row appends one luma row and leaves the VU cursor where it is |
| `ImageCrop.RowsFill` | AndroidMLKit/app/src/main/java/com/diegopizzo/androidmlkit/camera/utils/ImageUtils.kt:194-203 | from an even row, n pairs of rows append 2n luma rows and n VU rows, taken `width` apart |
| `ImageCrop.CropNv21AlignedContent` | AndroidMLKit/app/src/main/java/com/diegopizzo/androidmlkit/camera/utils/ImageUtils.kt:180-205 | corrected, a rectangle inside a whole NV21 frame crops without exception to its luma rows (rounded to even) followed by the VU rows of those luma rows |
| `ImageCrop.AsWrittenAtTop` | AndroidMLKit/app/src/main/java/com/diegopizzo/androidmlkit/camera/utils/ImageUtils.kt:180-193 | for an even rectangle starting at row 0 the code as written and the corrected crop agree |
| `ViewModel.IsUrlValid` | AndroidMLKit/app/src/main/java/com/diegopizzo/androidmlkit/view/viewmodel/MainViewModel.kt:35-37 | `isUrlValid`: the web-URL pattern and `URLUtil.isValidUrl` must both accept the string |
| `ViewModel.Next` | AndroidMLKit/app/src/main/java/com/diegopizzo/androidmlkit/view/viewmodel/MainViewModel.kt:39-59 | one input's change to the view state: a scan sets the camera off and the link button to the URL check, a dialog dismissal sets the camera on, nothing else changes it |
| `ViewModel.StateAfter` | AndroidMLKit/app/src/main/java/com/diegopizzo/androidmlkit/view/viewmodel/MainViewModel.kt:31-59 | the view state after a history of inputs, from `MainViewState()`; `LinkButtonFollowsLastScan` and `CameraFollowsLastSwitch` state what it holds |
| `ViewModel.LinkButtonFollowsLastScan` | AndroidMLKit/app/src/main/java/com/diegopizzo/androidmlkit/view/viewmodel/MainViewModel.kt:35-43 | the link button shows exactly when there has been a scan and the last scan passes both the web-URL pattern and `URLUtil.isValidUrl` |
| `ViewModel.CameraFollowsLastSwitch` | AndroidMLKit/app/src/main/java/com/diegopizzo/androidmlkit/view/viewmodel/MainViewModel.kt:39-55 | the camera flag stays null until a scan or a dialog dismissal; after that it is false after a scan and true after a dismissal, whichever came last |
| `ViewModel.EffectsShowScans` | AndroidMLKit/app/src/main/java/com/diegopizzo/androidmlkit/view/viewmodel/MainViewModel.kt:39-45 | every effect shows a scanned string, and every scanned string is shown |
| `ViewModel.NavigationOnlyFrom` | AndroidMLKit/app/src/main/java/com/diegopizzo/androidmlkit/view/viewmodel/MainViewModel.kt:47-57 | a navigation call that exactly one input makes is requested exactly when that input has happened |
| `ViewModel.NavigationFollowsButtons` | AndroidMLKit/app/src/main/java/com/diegopizzo/androidmlkit/view/viewmodel/MainViewModel.kt:47-57 | navigation to the barcode or QR scanner happens exactly for its button, and going back exactly for the cancel button |
| `ViewModel.AfterOneMore` | AndroidMLKit/app/src/main/java/com/diegopizzo/androidmlkit/view/viewmodel/MainViewModel.kt:39-59 | one more input changes the state, effects and navigation only through that input's own step |
| `ViewModel.MainViewModel.ViewState` | AndroidMLKit/app/src/main/java/com/diegopizzo/androidmlkit/view/viewmodel/MainViewModel.kt:23-25 | the getter throws `UninitializedPropertyAccessException` exactly while the backing field is null |
| `ViewModel.MainViewModel.SetViewState` | AndroidMLKit/app/src/main/java/com/diegopizzo/androidmlkit/view/viewmodel/MainViewModel.kt:26-29 | the setter stores the value and publishes the same value, and changes nothing else |
| `ViewModel.MainViewModel.constructor` | AndroidMLKit/app/src/main/java/com/diegopizzo/androidmlkit/view/viewmodel/MainViewModel.kt:31-33 | after `init` the state is `MainViewState()` (camera null, no link button) and is published, so the getter never throws |
| `ViewModel.MainViewModel.OnDataScanned` | AndroidMLKit/app/src/main/java/com/diegopizzo/androidmlkit/view/viewmodel/MainViewModel.kt:39-45 | the camera becomes disabled, the link button shows exactly for a valid URL, and one effect carrying the scanned string is emitted; navigation is untouched |
| `ViewModel.MainViewModel.OnCancelButtonClicked` | AndroidMLKit/app/src/main/java/com/diegopizzo/androidmlkit/view/viewmodel/MainViewModel.kt:47-49 | only a `goBack` call is added; the state and the effects are unchanged |
| `ViewModel.MainViewModel.Process` | AndroidMLKit/app/src/main/java/com/diegopizzo/androidmlkit/view/viewmodel/MainViewModel.kt:51-59 | dismissing the dialog enables the camera and keeps the link button; the scanner buttons navigate with `BARCODE` or `QR_CODE` and keep the state |
| `CodeScannerOverlay.FirstWithValue` | AndroidMLKit/app/src/main/java/com/diegopizzo/androidmlkit/view/camera/CodeScannerOverlay.kt:166 | the search over `values()` returns a format with the given value, or reports that none has it |
| `CodeScannerOverlay.FromValueToEnum` | AndroidMLKit/app/src/main/java/com/diegopizzo/androidmlkit/view/camera/CodeScannerOverlay.kt:165-168 | the format found has the given value; any failure is `IllegalArgumentException` |
| `CodeScannerOverlay.FromValueToEnumValues` | AndroidMLKit/app/src/main/java/com/diegopizzo/androidmlkit/view/camera/CodeScannerOverlay.kt:160-168 | the lookup succeeds exactly for 0 (`Barcode`) and 1 (`QRCode`), and finds every format again from its value |
| `CodeScannerOverlay.DefaultBoxDimension` | AndroidMLKit/app/src/main/java/com/diegopizzo/androidmlkit/view/camera/CodeScannerOverlay.kt:68-73 | each format's default box is within 100% in both directions and wider than tall |
| `CodeScannerOverlay.Init` | AndroidMLKit/app/src/main/java/com/diegopizzo/androidmlkit/view/camera/CodeScannerOverlay.kt:49-66 | `init`: fails only with `IllegalArgumentException`, and a format attribute that is present is the format's value; the full behaviour is stated by `InitAttributes` |
| `CodeScannerOverlay.InitAttributes` | AndroidMLKit/app/src/main/java/com/diegopizzo/androidmlkit/view/camera/CodeScannerOverlay.kt:49-66 | construction throws exactly when the format attribute names no format; otherwise the format is `Barcode` when absent, and each percentage is its attribute or that format's default |
| `CodeScannerOverlay.InitDefaults` | AndroidMLKit/app/src/main/java/com/diegopizzo/androidmlkit/view/camera/CodeScannerOverlay.kt:49-66 | with no attributes the box is an 85 × 20 barcode box; a QR code box without percentages is 80 × 36 |
| `CodeScannerOverlay.PercentageWidthCropped` | AndroidMLKit/app/src/main/java/com/diegopizzo/androidmlkit/view/camera/CodeScannerOverlay.kt:116-118 | the part of the width outside the box: the two sum to 100, and the cropped part is in [0, 100] exactly when the box's percentage is |
| `CodeScannerOverlay.PercentageHeightCropped` | AndroidMLKit/app/src/main/java/com/diegopizzo/androidmlkit/view/camera/CodeScannerOverlay.kt:120-122 | the part of the height outside the box: the two sum to 100, and the cropped part is in [0, 100] exactly when the box's percentage is |
| `CodeScannerOverlay.DefaultCropPercentages` | AndroidMLKit/app/src/main/java/com/diegopizzo/androidmlkit/view/BarcodeScanningFragment.kt:86-90 | an overlay without percentage attributes hands `cropImage` percentages in [0, 100]; for an upright barcode box they are 15% of the width and 80% of the height, or 40% for a frame at least four times as wide as tall (integer ratio above 3) |

## Left out

- Kotlin's 32-bit `Int` wrap-around is not modelled. Integers are unbounded, so none of these products ever wraps: `w * h` and the copy positions in `ImageCrop`; in `ImageUtils`, the pixel array size `width * height` and the plane indices `yRowStride * y` and `uvRowStride * (y shr 1)` of the pixel loop. Only the colour sums of `yuvToRgb` are proved to stay inside the `Int` range.
- ImageUtils.ConvertYuv420888: requires that the three planes hold every sample the loop reads (`PlanesCover`). On shorter planes the source throws `ArrayIndexOutOfBoundsException`, which is not modelled. The frame carries only plane 1's row and pixel strides, as the code reads them. `PlanesCover` asks that the chroma index computed from those strides falls inside both plane 1 and plane 2. Plane 2's own strides are not modelled.
- Bitmap creation (`Bitmap.createBitmap`, `setPixels`), `rotateAndCrop` with its `Matrix`, and the float `Rect.inset` of `cropImage` are not modelled. They are platform graphics calls and float arithmetic. Only the integer percentage choice of `cropImage` is modelled.
- `calculateAspectRatio` is not modelled: it compares natural logarithms of doubles.
- Reading the image planes (`planes[i].buffer`, `remaining()`, `get`) is replaced by the byte sequences those buffers hold. `croppedNV21` takes the Y bytes and the VU bytes.
- ImageCrop.Crop: `imageWidth` is a natural number. A negative width, which `Image.width` never is, is not modelled.
- ImageCrop.ArrayCopy: copies between distinct arrays only. `System.arraycopy` within one array, which the source never does, is not modelled.
- ImageCrop.Row: reads as zeros past the end of the source, to keep the reference definition `Block` total. Every lemma that uses a row proves it lies inside the source.
- ImageCrop.CropNv21AlignedContent: requires that the rectangle lies inside the frame and that the source holds a whole NV21 frame (`FrameCovers`). Outside that, the corrected crop, like the source, either throws `IndexOutOfBoundsException` or returns bytes whose rows wrap across the frame's rows (on a 4 × 4 frame, `Rect(2, 0, 6, 2)` reads luma bytes 2-9). The content is stated only inside.
- `isUrlValid`'s two platform predicates (`Patterns.WEB_URL` and `URLUtil.isValidUrl`) are parameters (`UrlChecks`). Their definitions are not visible.
- `SingleLiveEvent` and `MutableLiveData` are reduced to the values they hold. `_viewEffects` is the list of effects posted, in order, and `_viewStates` is the last value published. Observer delivery, threads and lifecycle are not modelled.
- `IMLKitNavigation` is reduced to the calls made on it, in order. What the navigation controller then does is not modelled.
- The drawing and animation of `CodeScannerOverlay` (`createView`, `draw`, `onCodeScanning`, `onCodeScanned`, paints, the animator) are not modelled. They are float Canvas drawing. The overlay is a value fixed at construction.
- The analyzers, fragments, activity, adapters and dependency-injection modules are not modelled. They are asynchronous ML Kit and Android UI wiring.
- Callers in other files call a `MainViewModel.onDataScanned(list, w, h)`, an `onBarcodeScannerClicked` and a `BoxFormat.TextRecognition` that the modelled files do not define. Only what `MainViewModel.kt` and `CodeScannerOverlay.kt` define is modelled.

## Findings

| source | as written | input that shows it | evidently intended | confidence | as-written member | corrected member |
|---|---|---|---|---|---|---|
| AndroidMLKit/app/src/main/java/com/diegopizzo/androidmlkit/camera/utils/ImageUtils.kt:181-184 | `v * 2 / 2` leaves every coordinate as it is, so an odd height reaches the copy loop. From top 0 the VU destination is the end of the luma block: `h` luma rows meet `(h + 1) / 2` even rows and copy that many VU rows, but `nData` has room for `h / 2` of them, so the last VU copy throws. From other tops the VU destination starts `top / 2` rows earlier (see the next row of this table), so an odd height need not overrun at the end: rows 2-4 of a 2 × 6 frame (`ImageCrop.LaterTopOddHeightFits`) and rows 1-3 of a 2 × 4 frame (`ImageCrop.OddTopOddHeightFits`) crop without throwing. | `cropByteArray(src, 2, 4, Rect(0, 0, 2, 3))` on a 12-byte frame throws `IndexOutOfBoundsException`. | Round each coordinate down to even (`v / 2 * 2`), so the crop keeps whole 2×2 chroma blocks. | not executed | `ImageCrop.OddHeightOverruns` | `ImageCrop.OddHeightAligned` |
| AndroidMLKit/app/src/main/java/com/diegopizzo/androidmlkit/camera/utils/ImageUtils.kt:188-189 | The VU source starts at VU row 0 (`width * height + x`), whatever the rectangle's top. The VU destination `w * h - y / 2 * w` lies `top / 2` rows before the end of the luma block. Luma rows copied later overwrite the VU rows written there, and VU rows written there overwrite luma rows already copied (`ImageCrop.LowerRectOverwritesLuma`: rows 4-5 of a 2 × 8 frame give `[16, 17, 10, 11, 0, 0]`). | `cropByteArray(src, 2, 4, Rect(0, 2, 2, 4))` returns luma rows 2-3 and a VU row of zeros. | Read from VU row `top / 2` (`width * height + y / 2 * width + x`) and write the VU rows right after the luma block (`w * h`). | not executed | `ImageCrop.LowerRectLosesChroma` | `ImageCrop.LowerRectKeepsChroma` |
| AndroidMLKit/app/src/main/java/com/diegopizzo/androidmlkit/camera/utils/ImageUtils.kt:188 | Once `top / 2` exceeds the height, the VU destination `w * h - y / 2 * w` is negative, and the first VU copy throws. | `cropByteArray(src, 2, 8, Rect(0, 6, 2, 8))` on a 24-byte frame computes a destination of -2 and throws `IndexOutOfBoundsException`. | Write the VU rows right after the luma block (`w * h`), which is never negative. | not executed | `ImageCrop.BottomRectThrows` | `ImageCrop.BottomRectKeepsChroma` |

The corrected crop `CropNv21Aligned` has its whole output characterised by
`ImageCrop.CropNv21AlignedContent`. `ImageCrop.AsWrittenAtTop` shows that
the two versions agree on even rectangles that start at the top row. There
none of the defects above can show.
