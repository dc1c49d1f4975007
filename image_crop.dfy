/** The byte-array crops of `ImageUtils`: the private `cropByteArray`, which keeps
    the bytes of a flat array whose row-major cell lies inside a rectangle;
    `croppedNV21`, which feeds it an NV21 buffer; and the public
    `cropByteArray`, which copies Y rows and VU rows of an NV21 buffer with
    `System.arraycopy`. */
module ImageCrop {
  import opened Kotlin
  import RowMajor

  /** `android.graphics.Rect`: left and top inclusive, right and bottom exclusive. */
  datatype Rect = Rect(left: int, top: int, right: int, bottom: int)
  {
    /** `width()` and `height()`: negative for an inverted rectangle. */
    function Width(): int { right - left }
    function Height(): int { bottom - top }

    predicate Contains(x: int, y: int) { left <= x < right && top <= y < bottom }
  }

  function Max(a: int, b: int): int { if a < b then b else a }

  // ----- The private cropByteArray -----

  /** Source index k is kept: its column `k % imageWidth` and row
      `k / imageWidth` lie inside the rectangle. */
  predicate Kept(imageWidth: nat, rect: Rect, k: nat)
  {
    imageWidth > 0 && rect.Contains(k % imageWidth, k / imageWidth)
  }

  /** The kept bytes among the first n of `bytes`, in increasing index order. */
  function Selected(bytes: seq<Byte>, imageWidth: nat, rect: Rect, n: nat): (s: seq<Byte>)
    requires n <= |bytes|
    ensures |s| <= n
  {
    if n == 0 then []
    else Selected(bytes, imageWidth, rect, n - 1) + (if Kept(imageWidth, rect, n - 1) then [bytes[n - 1]] else [])
  }

  /** How many integers of [lo, hi) lie in [0, n). */
  function Overlap(lo: int, hi: int, n: int): nat
    decreases n
  {
    if n <= 0 then 0 else Overlap(lo, hi, n - 1) + (if lo <= n - 1 < hi then 1 else 0)
  }

  /** The overlap is no longer than [lo, hi), nor than [lo, n). */
  lemma {:induction false} OverlapBounds(lo: int, hi: int, n: int)
    ensures Overlap(lo, hi, n) <= Max(0, hi - lo) && Overlap(lo, hi, n) <= Max(0, n - lo)
    decreases n
  {
    if n > 0 {
      OverlapBounds(lo, hi, n - 1);
    }
  }

  /** For 0 <= lo <= hi the overlap grows from lo up to hi and then stays. */
  lemma {:induction false} OverlapInside(lo: int, hi: int, n: int)
    requires 0 <= lo <= hi
    ensures Overlap(lo, hi, n) == if n <= lo then 0 else if n <= hi then n - lo else hi - lo
    decreases n
  {
    if n > 0 {
      OverlapInside(lo, hi, n - 1);
    }
  }

  /** The rectangle's cells in the complete rows of an `imageWidth`-wide image
      before row `row`. */
  function FullRows(rect: Rect, imageWidth: nat, row: int): nat
    decreases row
  {
    if row <= 0 then 0
    else FullRows(rect, imageWidth, row - 1) + (if rect.top <= row - 1 < rect.bottom then Overlap(rect.left, rect.right, imageWidth) else 0)
  }

  /** How many cells of the rectangle an `imageWidth`-wide image has before
      column `column` of row `row`. */
  function Count(rect: Rect, imageWidth: nat, row: int, column: int): nat
  {
    FullRows(rect, imageWidth, row) + (if rect.top <= row < rect.bottom then Overlap(rect.left, rect.right, column) else 0)
  }

  /** The complete rows hold the rectangle's columns times its rows. */
  lemma {:induction false} FullRowsProduct(rect: Rect, imageWidth: nat, row: int)
    ensures FullRows(rect, imageWidth, row) == Overlap(rect.left, rect.right, imageWidth) * Overlap(rect.top, rect.bottom, row)
    decreases row
  {
    if row > 0 {
      FullRowsProduct(rect, imageWidth, row - 1);
      var columns, rows := Overlap(rect.left, rect.right, imageWidth), Overlap(rect.top, rect.bottom, row - 1);
      assert columns * (rows + 1) == columns * rows + columns;
    }
  }

  /** For a rectangle inside the image's columns, each of its rows holds
      `width()` cells. */
  lemma {:induction false} FullRowsInside(rect: Rect, imageWidth: nat, row: int)
    requires 0 <= rect.left <= rect.right <= imageWidth && 0 <= rect.top <= rect.bottom
    ensures row <= rect.top ==> FullRows(rect, imageWidth, row) == 0
    ensures rect.top <= row <= rect.bottom ==> FullRows(rect, imageWidth, row) == rect.Width() * (row - rect.top)
    ensures rect.bottom <= row ==> FullRows(rect, imageWidth, row) == rect.Width() * rect.Height()
    decreases row
  {
    if row > 0 {
      FullRowsInside(rect, imageWidth, row - 1);
      OverlapInside(rect.left, rect.right, imageWidth);
      var w := rect.Width();
      if rect.top < row <= rect.bottom {
        assert w * (row - 1 - rect.top) + w == w * (row - rect.top);
      }
      if row == rect.bottom {
        assert row - rect.top == rect.Height();
      }
    }
  }

  /** Moving one cell along a row, or from the end of a row to the start of
      the next, counts the cell left behind when the rectangle holds it. */
  lemma CountNext(rect: Rect, imageWidth: nat, row: nat, column: nat)
    requires column < imageWidth
    ensures column + 1 < imageWidth ==>
      Count(rect, imageWidth, row, column + 1) == Count(rect, imageWidth, row, column) + (if rect.Contains(column, row) then 1 else 0)
    ensures column + 1 == imageWidth ==>
      Count(rect, imageWidth, row + 1, 0) == Count(rect, imageWidth, row, column) + (if rect.Contains(column, row) then 1 else 0)
  {
  }

  /** Whole rows of at most `w` cells, fewer than `h` of them when a partial
      row follows, make at most `w * h` cells. */
  lemma ProductBound(columns: nat, rows: nat, partial: nat, w: int, h: int, inRange: bool)
    requires columns <= Max(0, w) && rows <= Max(0, h) && partial <= Max(0, w)
    requires inRange ==> rows <= h - 1
    requires !inRange ==> partial == 0
    requires w * h >= 0
    ensures columns * rows + partial <= w * h
  {
    if w <= 0 || h <= 0 {
      assert columns == 0 || rows == 0;
      assert columns * rows == 0;
    } else if inRange {
      RowMajor.MulMono(columns, w, rows, h - 1);
      assert w * (h - 1) + w == w * h;
    } else {
      RowMajor.MulMono(columns, w, rows, h);
    }
  }

  /** At most `width() * height()` cells are counted, once that product is a
      valid array size. */
  lemma CountBound(rect: Rect, imageWidth: nat, row: int, column: int)
    requires 0 <= column < imageWidth && rect.Width() * rect.Height() >= 0
    ensures Count(rect, imageWidth, row, column) <= rect.Width() * rect.Height()
  {
    FullRowsProduct(rect, imageWidth, row);
    OverlapBounds(rect.top, rect.bottom, row);
    OverlapBounds(rect.left, rect.right, imageWidth);
    OverlapBounds(rect.left, rect.right, column);
    var inRange := rect.top <= row < rect.bottom;
    ProductBound(Overlap(rect.left, rect.right, imageWidth), Overlap(rect.top, rect.bottom, row),
      if inRange then Overlap(rect.left, rect.right, column) else 0, rect.Width(), rect.Height(), inRange);
  }

  /** A rectangle inside the image's columns is counted whole from its bottom
      row on, and cell by cell within it. */
  lemma CountInside(rect: Rect, imageWidth: nat, row: int, column: int)
    requires 0 <= rect.left <= rect.right <= imageWidth && 0 <= rect.top <= rect.bottom
    ensures rect.bottom <= row ==> Count(rect, imageWidth, row, column) == rect.Width() * rect.Height()
    ensures rect.Contains(column, row) ==>
      Count(rect, imageWidth, row, column) == rect.Width() * (row - rect.top) + (column - rect.left)
  {
    FullRowsInside(rect, imageWidth, row);
    OverlapInside(rect.left, rect.right, column);
  }

  /** Position n - 1 is kept exactly when it is one of the rectangle's
      cells, so the count up to n advances by one there. */
  lemma CountStep(rect: Rect, imageWidth: nat, n: nat)
    requires imageWidth > 0 && n > 0
    ensures Count(rect, imageWidth, n / imageWidth, n % imageWidth)
         == Count(rect, imageWidth, (n - 1) / imageWidth, (n - 1) % imageWidth) + (if Kept(imageWidth, rect, n - 1) then 1 else 0)
  {
    RowMajor.Next(imageWidth, n - 1);
    CountNext(rect, imageWidth, (n - 1) / imageWidth, (n - 1) % imageWidth);
  }

  lemma SelectedStep(bytes: seq<Byte>, imageWidth: nat, rect: Rect, n: nat)
    requires 0 < n <= |bytes|
    ensures |Selected(bytes, imageWidth, rect, n)| == |Selected(bytes, imageWidth, rect, n - 1)| + (if Kept(imageWidth, rect, n - 1) then 1 else 0)
  {
  }

  /** The number of bytes kept among the first n: the cells of the rectangle
      before position n. */
  lemma {:induction false} SelectedCount(bytes: seq<Byte>, imageWidth: nat, rect: Rect, n: nat)
    requires imageWidth > 0 && n <= |bytes|
    ensures |Selected(bytes, imageWidth, rect, n)| == Count(rect, imageWidth, n / imageWidth, n % imageWidth)
  {
    if n > 0 {
      SelectedCount(bytes, imageWidth, rect, n - 1);
      SelectedStep(bytes, imageWidth, rect, n);
      CountStep(rect, imageWidth, n);
    }
  }

  /** The running write index never passes the end of `croppedArray`: at most
      `width() * height()` bytes are kept, whatever the rectangle and the
      array, once that product is a valid array size. */
  lemma SelectedFits(bytes: seq<Byte>, imageWidth: nat, rect: Rect, n: nat)
    requires imageWidth > 0 || n == 0
    requires n <= |bytes| && rect.Width() * rect.Height() >= 0
    ensures |Selected(bytes, imageWidth, rect, n)| <= rect.Width() * rect.Height()
  {
    if n > 0 {
      SelectedCount(bytes, imageWidth, rect, n);
      CountBound(rect, imageWidth, n / imageWidth, n % imageWidth);
    }
  }

  /** Kept bytes are never dropped: the first m are a prefix of the first n. */
  lemma {:induction false} SelectedPrefix(bytes: seq<Byte>, imageWidth: nat, rect: Rect, m: nat, n: nat)
    requires m <= n <= |bytes|
    ensures |Selected(bytes, imageWidth, rect, m)| <= |Selected(bytes, imageWidth, rect, n)|
    ensures Selected(bytes, imageWidth, rect, n)[..|Selected(bytes, imageWidth, rect, m)|]
         == Selected(bytes, imageWidth, rect, m)
  {
    if m < n {
      SelectedPrefix(bytes, imageWidth, rect, m, n - 1);
      var before := Selected(bytes, imageWidth, rect, n - 1);
      var l := |Selected(bytes, imageWidth, rect, m)|;
      assert Selected(bytes, imageWidth, rect, n)[..l] == before[..l];
    }
  }

  /** The private `cropByteArray`: a `ByteArray(width() * height())` (refused
      when negative) holding the kept bytes in order, then zeros. A non-empty
      array with `imageWidth == 0` throws on the first `index % imageWidth`. */
  function Crop(bytes: seq<Byte>, imageWidth: nat, rect: Rect): (r: Result<seq<Byte>>)
    ensures r.Ok? ==> |r.value| == rect.Width() * rect.Height()
  {
    var size := rect.Width() * rect.Height();
    if size < 0 then Err(NegativeArraySize)
    else if imageWidth == 0 && |bytes| > 0 then Err(Arithmetic)
    else
      var kept := Selected(bytes, imageWidth, rect, |bytes|);
      SelectedFits(bytes, imageWidth, rect, |bytes|);
      Ok(kept + Zeros(size - |kept|))
  }

  /** A rectangle inside the image: inside its columns, and with every row it
      covers present in the array. */
  predicate InsideImage(bytes: seq<Byte>, imageWidth: nat, rect: Rect)
  {
    0 <= rect.left <= rect.right <= imageWidth && 0 <= rect.top <= rect.bottom
    && rect.bottom * imageWidth <= |bytes|
  }

  /** For a rectangle inside the image, exactly `width() * height()` bytes are
      kept, so the output holds no padding. */
  lemma CropInsideSize(bytes: seq<Byte>, imageWidth: nat, rect: Rect)
    requires imageWidth > 0 && InsideImage(bytes, imageWidth, rect)
    ensures |Selected(bytes, imageWidth, rect, |bytes|)| == rect.Width() * rect.Height()
    ensures Crop(bytes, imageWidth, rect) == Ok(Selected(bytes, imageWidth, rect, |bytes|))
  {
    SelectedCount(bytes, imageWidth, rect, |bytes|);
    RowMajor.RowAtLeast(imageWidth, |bytes|, rect.bottom);
    CountInside(rect, imageWidth, |bytes| / imageWidth, |bytes| % imageWidth);
    var kept := Selected(bytes, imageWidth, rect, |bytes|);
    assert kept + Zeros(0) == kept;
  }

  /** Byte n = (x, y) of the image is kept, after i others. */
  lemma KeptAt(bytes: seq<Byte>, imageWidth: nat, rect: Rect, x: nat, y: nat, n: nat, i: nat)
    requires imageWidth > 0 && InsideImage(bytes, imageWidth, rect) && rect.Contains(x, y)
    requires n == y * imageWidth + x && i == rect.Width() * (y - rect.top) + (x - rect.left)
    ensures n < |bytes| && Kept(imageWidth, rect, n) && |Selected(bytes, imageWidth, rect, n)| == i
  {
    assert n < |bytes| by {
      RowMajor.Inside(imageWidth, rect.bottom, x, y);
    }
    assert n % imageWidth == x && n / imageWidth == y by {
      RowMajor.Position(imageWidth, x, y);
    }
    assert |Selected(bytes, imageWidth, rect, n)| == Count(rect, imageWidth, y, x) by {
      SelectedCount(bytes, imageWidth, rect, n);
    }
    CountInside(rect, imageWidth, y, x);
  }

  /** For a rectangle inside the image, byte n of the image, at column x of
      row y, is the i-th byte kept, `i = width() * (y - top) + (x - left)`:
      with `CropInsideSize`, the output is the sub-image, row by row. */
  lemma SelectedAt(bytes: seq<Byte>, imageWidth: nat, rect: Rect, x: nat, y: nat, n: nat, i: nat)
    requires imageWidth > 0 && InsideImage(bytes, imageWidth, rect) && rect.Contains(x, y)
    requires n == y * imageWidth + x && i == rect.Width() * (y - rect.top) + (x - rect.left)
    ensures n < |bytes| && i < |Selected(bytes, imageWidth, rect, |bytes|)|
    ensures Selected(bytes, imageWidth, rect, |bytes|)[i] == bytes[n]
  {
    KeptAt(bytes, imageWidth, rect, x, y, n, i);
    var before := Selected(bytes, imageWidth, rect, n);
    assert Selected(bytes, imageWidth, rect, n + 1) == before + [bytes[n]];
    SelectedPrefix(bytes, imageWidth, rect, n + 1, |bytes|);
  }

  /** The loop of the private `cropByteArray`: every byte of `bytes` whose
      column and row lie inside the rectangle is written at the running index
      `i`, which then advances. */
  method CropByteArray(bytes: seq<Byte>, imageWidth: nat, cropRect: Rect) returns (r: Result<seq<Byte>>)
    ensures r == Crop(bytes, imageWidth, cropRect)
  {
    var size := cropRect.Width() * cropRect.Height();
    if size < 0 {
      return Err(NegativeArraySize);
    }
    var croppedArray := new Byte[size](_ => 0);
    var i := 0;
    for index := 0 to |bytes|
      invariant imageWidth > 0 || index == 0
      invariant i == |Selected(bytes, imageWidth, cropRect, index)| && i <= size
      invariant croppedArray[..i] == Selected(bytes, imageWidth, cropRect, index)
      invariant forall k :: i <= k < size ==> croppedArray[k] == 0
    {
      if imageWidth == 0 {
        return Err(Arithmetic);
      }
      var x := index % imageWidth;
      var y := index / imageWidth;
      if cropRect.left <= x && x < cropRect.right && cropRect.top <= y && y < cropRect.bottom {
        SelectedFits(bytes, imageWidth, cropRect, index + 1);
        croppedArray[i] := bytes[index];
        i := i + 1;
      }
    }
    assert croppedArray[..] == croppedArray[..i] + Zeros(size - i);
    return Ok(croppedArray[..]);
  }

  // ----- croppedNV21 -----

  /** `croppedNV21`: the Y plane's remaining bytes followed by the VU plane's
      remaining bytes, cropped by the private `cropByteArray` as one image
      `imageWidth` bytes wide. */
  function CroppedNv21(yBytes: seq<Byte>, vuBytes: seq<Byte>, imageWidth: nat, cropRect: Rect): (r: Result<seq<Byte>>)
  {
    Crop(yBytes + vuBytes, imageWidth, cropRect)
  }

  /** No position at or past the start of the rectangle's bottom row is kept. */
  lemma NotKeptBelow(imageWidth: nat, rect: Rect, k: nat)
    requires imageWidth > 0 && rect.bottom * imageWidth <= k
    ensures !Kept(imageWidth, rect, k)
  {
    RowMajor.Next(imageWidth, k);
    if rect.bottom >= 0 {
      RowMajor.RowAtLeast(imageWidth, k, rect.bottom);
    }
  }

  /** Past the Y plane's rows nothing more is kept. */
  lemma {:induction false} SelectedPastRows(yBytes: seq<Byte>, vuBytes: seq<Byte>, imageWidth: nat, rect: Rect, n: nat)
    requires imageWidth > 0 && rect.bottom * imageWidth <= |yBytes| <= n <= |yBytes + vuBytes|
    ensures Selected(yBytes + vuBytes, imageWidth, rect, n) == Selected(yBytes + vuBytes, imageWidth, rect, |yBytes|)
  {
    if n > |yBytes| {
      SelectedPastRows(yBytes, vuBytes, imageWidth, rect, n - 1);
      NotKeptBelow(imageWidth, rect, n - 1);
    }
  }

  /** Within the Y plane, the concatenated buffer reads as the Y plane. */
  lemma {:induction false} SelectedSamePrefix(yBytes: seq<Byte>, vuBytes: seq<Byte>, imageWidth: nat, rect: Rect, n: nat)
    requires n <= |yBytes|
    ensures Selected(yBytes + vuBytes, imageWidth, rect, n) == Selected(yBytes, imageWidth, rect, n)
  {
    if n > 0 {
      SelectedSamePrefix(yBytes, vuBytes, imageWidth, rect, n - 1);
    }
  }

  /** A rectangle that lies within the Y plane's rows keeps luma only: the
      result of `croppedNV21` is the crop of the Y plane alone, with no chroma. */
  lemma CroppedNv21LumaOnly(yBytes: seq<Byte>, vuBytes: seq<Byte>, imageWidth: nat, rect: Rect)
    requires imageWidth > 0 && rect.bottom * imageWidth <= |yBytes|
    ensures CroppedNv21(yBytes, vuBytes, imageWidth, rect) == Crop(yBytes, imageWidth, rect)
  {
    SelectedPastRows(yBytes, vuBytes, imageWidth, rect, |yBytes + vuBytes|);
    SelectedSamePrefix(yBytes, vuBytes, imageWidth, rect, |yBytes|);
  }

  // ----- The public cropByteArray -----

  /** One `System.arraycopy(src, srcPos, dest, destPos, length)`. */
  datatype Copy = Copy(srcPos: int, destPos: int, length: int)

  /** `System.arraycopy` throws `IndexOutOfBoundsException` unless both
      ranges are inside their arrays. */
  predicate Fits(c: Copy, srcLength: nat, destLength: nat)
  {
    0 <= c.srcPos && 0 <= c.destPos && 0 <= c.length
    && c.srcPos + c.length <= srcLength && c.destPos + c.length <= destLength
  }

  /** The destination after a copy that fits: inside the destination range
      each byte is read from the source at the same offset, and outside it
      the destination is unchanged. */
  function Apply(c: Copy, src: seq<Byte>, dest: seq<Byte>): (r: seq<Byte>)
    requires Fits(c, |src|, |dest|)
    ensures |r| == |dest|
  {
    seq(|dest|, k requires 0 <= k < |dest| =>
      if c.destPos <= k < c.destPos + c.length then src[c.srcPos + k - c.destPos] else dest[k])
  }

  /** As slices: the destination's prefix, the source's range, the
      destination's suffix. */
  lemma ApplySlices(c: Copy, src: seq<Byte>, dest: seq<Byte>)
    requires Fits(c, |src|, |dest|)
    ensures Apply(c, src, dest) == dest[..c.destPos] + src[c.srcPos..c.srcPos + c.length] + dest[c.destPos + c.length..]
  {
  }

  /** `System.arraycopy` from a source array into a distinct destination array. */
  method ArrayCopy(src: seq<Byte>, srcPos: int, dest: array<Byte>, destPos: int, length: int) returns (ok: bool)
    modifies dest
    ensures ok == Fits(Copy(srcPos, destPos, length), |src|, dest.Length)
    ensures dest[..] == if ok then Apply(Copy(srcPos, destPos, length), src, old(dest[..])) else old(dest[..])
  {
    if !Fits(Copy(srcPos, destPos, length), |src|, dest.Length) {
      return false;
    }
    forall k | destPos <= k < destPos + length {
      dest[k] := src[srcPos + k - destPos];
    }
    assert dest[..] == Apply(Copy(srcPos, destPos, length), src, old(dest[..]));
    return true;
  }

  /** The loop's running positions: the next Y row's source start (before the
      column offset `x`) and destination, and the next VU row's. */
  datatype Cursor = Cursor(srcPos0: int, destPos0: int, uvSrcPos0: int, uvDestPos0: int)

  /** Rows i until end of the loop, from cursor c over the output `nData`;
      the first copy that does not fit throws. */
  function Rows(src: seq<Byte>, width: int, x: int, w: int, i: int, end: int, c: Cursor, nData: seq<Byte>): (r: Result<seq<Byte>>)
    ensures r.Ok? ==> |r.value| == |nData|
    ensures r.Err? ==> r.error == IndexOutOfBounds
    decreases end - i, 1
  {
    if end <= i then Ok(nData) else RowStep(src, width, x, w, i, end, c, nData)
  }

  /** One pass of the loop body, then the rows after it: row i copies `w`
      luma bytes and advances one row; an even row (`i and 1 == 0`, which is
      `i % 2 == 0` for negative i too) then copies `w` bytes of the VU plane
      and advances that cursor one row. */
  function RowStep(src: seq<Byte>, width: int, x: int, w: int, i: int, end: int, c: Cursor, nData: seq<Byte>): (r: Result<seq<Byte>>)
    requires i < end
    ensures r.Ok? ==> |r.value| == |nData|
    ensures r.Err? ==> r.error == IndexOutOfBounds
    decreases end - i, 0
  {
    var yCopy := Copy(c.srcPos0 + x, c.destPos0, w);
    if !Fits(yCopy, |src|, |nData|) then Err(IndexOutOfBounds)
    else
      var afterY := Apply(yCopy, src, nData);
      var next := Cursor(c.srcPos0 + width, c.destPos0 + w, c.uvSrcPos0, c.uvDestPos0);
      if i % 2 != 0 then Rows(src, width, x, w, i + 1, end, next, afterY)
      else
        var uvCopy := Copy(c.uvSrcPos0, c.uvDestPos0, w);
        if !Fits(uvCopy, |src|, |afterY|) then Err(IndexOutOfBounds)
        else Rows(src, width, x, w, i + 1, end, next.(uvSrcPos0 := c.uvSrcPos0 + width, uvDestPos0 := c.uvDestPos0 + w), Apply(uvCopy, src, afterY))
  }

  /** The common tail of both crops: a zeroed output of `w * h` luma bytes and
      half as many chroma bytes (refused when negative), filled by rows y until
      y + h starting from the given VU positions. */
  function CopyRows(src: seq<Byte>, width: int, x: int, y: int, w: int, h: int, uvIndexSrc: int, uvIndexDst: int): (r: Result<seq<Byte>>)
    ensures r == Err(NegativeArraySize) <==> w * h < 0
    ensures r.Ok? ==> |r.value| == w * h + Div(w * h, 2)
  {
    var yUnit := w * h;
    var size := yUnit + Div(yUnit, 2);
    if size < 0 then Err(NegativeArraySize)
    else Rows(src, width, x, w, y, y + h, Cursor(y * width, 0, uvIndexSrc, uvIndexDst), Zeros(size))
  }

  /** The public `cropByteArray` as written: `left * 2 / 2` and the like leave
      every coordinate as it is, the VU source starts at VU row 0 whatever the
      rectangle's top, and the VU destination starts `top / 2` rows before the
      end of the luma block. */
  function CropNv21AsWritten(src: seq<Byte>, width: int, height: int, cropRect: Rect): (r: Result<seq<Byte>>)
    ensures r.Err? ==> r.error == NegativeArraySize || r.error == IndexOutOfBounds
    ensures r.Ok? ==> |r.value| == cropRect.Width() * cropRect.Height() + Div(cropRect.Width() * cropRect.Height(), 2)
  {
    var x, y := Div(cropRect.left * 2, 2), Div(cropRect.top * 2, 2);
    var w, h := Div(cropRect.Width() * 2, 2), Div(cropRect.Height() * 2, 2);
    CopyRows(src, width, x, y, w, h, width * height + x, w * h - Div(y, 2) * w)
  }

  /** `v / 2 * 2`: v rounded toward zero to an even number. */
  function AlignDown(v: int): (r: int)
    ensures r % 2 == 0
    ensures v >= 0 ==> 0 <= r <= v && v - r < 2
  {
    Div(v, 2) * 2
  }

  /** The public `cropByteArray` as evidently intended: every coordinate is
      rounded down to even (`/ 2 * 2`), the VU source starts at the VU row of
      luma row y, and the VU rows follow the luma block. */
  function CropNv21Aligned(src: seq<Byte>, width: int, height: int, cropRect: Rect): (r: Result<seq<Byte>>)
    ensures r.Err? ==> r.error == NegativeArraySize || r.error == IndexOutOfBounds
    ensures r.Ok? ==> |r.value| == AlignDown(cropRect.Width()) * AlignDown(cropRect.Height()) * 3 / 2
  {
    var x, y := AlignDown(cropRect.left), AlignDown(cropRect.top);
    var w, h := AlignDown(cropRect.Width()), AlignDown(cropRect.Height());
    CopyRows(src, width, x, y, w, h, width * height + Div(y, 2) * width + x, w * h)
  }

  /** The loop of the public `cropByteArray`: rows i until end, copying into
      `nData` with `System.arraycopy` and advancing the cursor. */
  method CopyRowsInPlace(src: seq<Byte>, width: int, x: int, w: int, start: int, end: int,
                         c0: Cursor, nData: array<Byte>) returns (r: Result<seq<Byte>>)
    modifies nData
    ensures r == Rows(src, width, x, w, start, end, c0, old(nData[..]))
    ensures r.Ok? ==> r.value == nData[..]
  {
    var srcPos0, destPos0, uvSrcPos0, uvDestPos0 := c0.srcPos0, c0.destPos0, c0.uvSrcPos0, c0.uvDestPos0;
    var i := start;
    while i < end
      invariant Rows(src, width, x, w, i, end, Cursor(srcPos0, destPos0, uvSrcPos0, uvDestPos0), nData[..])
             == Rows(src, width, x, w, start, end, c0, old(nData[..]))
      decreases end - i
    {
      var ok := ArrayCopy(src, srcPos0 + x, nData, destPos0, w);
      if !ok {
        return Err(IndexOutOfBounds);
      }
      srcPos0 := srcPos0 + width;
      destPos0 := destPos0 + w;
      if i % 2 == 0 {
        ok := ArrayCopy(src, uvSrcPos0, nData, uvDestPos0, w);
        if !ok {
          return Err(IndexOutOfBounds);
        }
        uvSrcPos0 := uvSrcPos0 + width;
        uvDestPos0 := uvDestPos0 + w;
      }
      i := i + 1;
    }
    return Ok(nData[..]);
  }

  /** The public `cropByteArray`, as written: a zeroed `nData` and the VU
      start positions, then the row loop. */
  method CropNv21(src: seq<Byte>, width: int, height: int, cropRect: Rect) returns (r: Result<seq<Byte>>)
    ensures r == CropNv21AsWritten(src, width, height, cropRect)
  {
    var x := Div(cropRect.left * 2, 2);
    var y := Div(cropRect.top * 2, 2);
    var w := Div(cropRect.Width() * 2, 2);
    var h := Div(cropRect.Height() * 2, 2);
    var yUnit := w * h;
    var uv := Div(yUnit, 2);
    if yUnit + uv < 0 {
      return Err(NegativeArraySize);
    }
    var nData := new Byte[yUnit + uv](_ => 0);
    assert nData[..] == Zeros(yUnit + uv);
    var uvIndexDst := w * h - Div(y, 2) * w;
    var uvIndexSrc := width * height + x;
    r := CopyRowsInPlace(src, width, x, w, y, y + h, Cursor(y * width, 0, uvIndexSrc, uvIndexDst), nData);
  }

  /** A 2-pixel-wide, 4-row NV21 frame whose bytes are their own positions:
      8 luma bytes, then 2 VU rows of 2 bytes. */
  const Ramp: seq<Byte> := [0, 1, 2, 3, 4, 5, 6, 7, 8, 9, 10, 11]

  /** An odd height passes the `* 2 / 2` "alignment": from top 0, where
      the VU destination is the end of the luma block, three luma rows meet
      two even rows and copy two VU rows, but `nData` has room for only one
      and a half, so the second VU copy throws. */
  lemma OddHeightOverruns()
    ensures CropNv21AsWritten(Ramp, 2, 4, Rect(0, 0, 2, 3)) == Err(IndexOutOfBounds)
  {
    // Rows 0 to 2; VU from position 8 into positions 6 and up of 9 bytes.
    assert Zeros(9) == [0, 0, 0, 0, 0, 0, 0, 0, 0];
    assert Apply(Copy(0, 0, 2), Ramp, Zeros(9)) == [0, 1, 0, 0, 0, 0, 0, 0, 0];
    assert Apply(Copy(8, 6, 2), Ramp, [0, 1, 0, 0, 0, 0, 0, 0, 0]) == [0, 1, 0, 0, 0, 0, 8, 9, 0];
    assert Apply(Copy(2, 2, 2), Ramp, [0, 1, 0, 0, 0, 0, 8, 9, 0]) == [0, 1, 2, 3, 0, 0, 8, 9, 0];
    assert Apply(Copy(4, 4, 2), Ramp, [0, 1, 2, 3, 0, 0, 8, 9, 0]) == [0, 1, 2, 3, 4, 5, 8, 9, 0];
    assert !Fits(Copy(10, 8, 2), 12, 9);
    assert Rows(Ramp, 2, 0, 2, 2, 3, Cursor(4, 4, 10, 8), [0, 1, 2, 3, 0, 0, 8, 9, 0]) == Err(IndexOutOfBounds);
    assert Rows(Ramp, 2, 0, 2, 1, 3, Cursor(2, 2, 10, 8), [0, 1, 0, 0, 0, 0, 8, 9, 0]) == Err(IndexOutOfBounds);
    assert Rows(Ramp, 2, 0, 2, 0, 3, Cursor(0, 0, 8, 6), Zeros(9)) == Err(IndexOutOfBounds);
    assert CopyRows(Ramp, 2, 0, 0, 2, 3, 8, 6) == Rows(Ramp, 2, 0, 2, 0, 3, Cursor(0, 0, 8, 6), Zeros(9));
  }

  /** Rows 1 to 3 of the same frame: the loop meets one even row, and its
      one VU copy fits in `nData`. */
  lemma OddTopOddHeightFits()
    ensures CropNv21AsWritten(Ramp, 2, 4, Rect(0, 1, 2, 4)) == Ok([2, 3, 4, 5, 6, 7, 8, 9, 0])
  {
    assert Zeros(9) == [0, 0, 0, 0, 0, 0, 0, 0, 0];
    assert Apply(Copy(2, 0, 2), Ramp, Zeros(9)) == [2, 3, 0, 0, 0, 0, 0, 0, 0];
    assert Apply(Copy(4, 2, 2), Ramp, [2, 3, 0, 0, 0, 0, 0, 0, 0]) == [2, 3, 4, 5, 0, 0, 0, 0, 0];
    assert Apply(Copy(8, 6, 2), Ramp, [2, 3, 4, 5, 0, 0, 0, 0, 0]) == [2, 3, 4, 5, 0, 0, 8, 9, 0];
    assert Apply(Copy(6, 4, 2), Ramp, [2, 3, 4, 5, 0, 0, 8, 9, 0]) == [2, 3, 4, 5, 6, 7, 8, 9, 0];
    assert Rows(Ramp, 2, 0, 2, 3, 4, Cursor(6, 4, 10, 8), [2, 3, 4, 5, 0, 0, 8, 9, 0]) == Ok([2, 3, 4, 5, 6, 7, 8, 9, 0]);
    assert Rows(Ramp, 2, 0, 2, 2, 4, Cursor(4, 2, 8, 6), [2, 3, 0, 0, 0, 0, 0, 0, 0]) == Ok([2, 3, 4, 5, 6, 7, 8, 9, 0]);
    assert Rows(Ramp, 2, 0, 2, 1, 4, Cursor(2, 0, 8, 6), Zeros(9)) == Ok([2, 3, 4, 5, 6, 7, 8, 9, 0]);
    assert CopyRows(Ramp, 2, 0, 1, 2, 3, 8, 6) == Rows(Ramp, 2, 0, 2, 1, 4, Cursor(2, 0, 8, 6), Zeros(9));
  }

  /** A 2-pixel-wide, 6-row NV21 frame whose bytes are their own positions:
      12 luma bytes, then 3 VU rows of 2 bytes. */
  const SixRowRamp: seq<Byte> := [0, 1, 2, 3, 4, 5, 6, 7, 8, 9, 10, 11, 12, 13, 14, 15, 16, 17]

  /** Rows 2 to 4, an odd height from an even top other than 0: the VU
      destination starts `top / 2` rows before the end of the luma block, so
      both VU copies fit, and the second lands after the luma rows. */
  lemma LaterTopOddHeightFits()
    ensures CropNv21AsWritten(SixRowRamp, 2, 6, Rect(0, 2, 2, 5)) == Ok([4, 5, 6, 7, 8, 9, 14, 15, 0])
  {
    assert Zeros(9) == [0, 0, 0, 0, 0, 0, 0, 0, 0];
    assert Apply(Copy(4, 0, 2), SixRowRamp, Zeros(9)) == [4, 5, 0, 0, 0, 0, 0, 0, 0];
    assert Apply(Copy(12, 4, 2), SixRowRamp, [4, 5, 0, 0, 0, 0, 0, 0, 0]) == [4, 5, 0, 0, 12, 13, 0, 0, 0];
    assert Apply(Copy(6, 2, 2), SixRowRamp, [4, 5, 0, 0, 12, 13, 0, 0, 0]) == [4, 5, 6, 7, 12, 13, 0, 0, 0];
    assert Apply(Copy(8, 4, 2), SixRowRamp, [4, 5, 6, 7, 12, 13, 0, 0, 0]) == [4, 5, 6, 7, 8, 9, 0, 0, 0];
    assert Apply(Copy(14, 6, 2), SixRowRamp, [4, 5, 6, 7, 8, 9, 0, 0, 0]) == [4, 5, 6, 7, 8, 9, 14, 15, 0];
    assert Rows(SixRowRamp, 2, 0, 2, 4, 5, Cursor(8, 4, 14, 6), [4, 5, 6, 7, 12, 13, 0, 0, 0]) == Ok([4, 5, 6, 7, 8, 9, 14, 15, 0]);
    assert Rows(SixRowRamp, 2, 0, 2, 3, 5, Cursor(6, 2, 14, 6), [4, 5, 0, 0, 12, 13, 0, 0, 0]) == Ok([4, 5, 6, 7, 8, 9, 14, 15, 0]);
    assert Rows(SixRowRamp, 2, 0, 2, 2, 5, Cursor(4, 0, 12, 4), Zeros(9)) == Ok([4, 5, 6, 7, 8, 9, 14, 15, 0]);
    assert CopyRows(SixRowRamp, 2, 0, 2, 2, 3, 12, 4) == Rows(SixRowRamp, 2, 0, 2, 2, 5, Cursor(4, 0, 12, 4), Zeros(9));
  }

  /** In a 2-pixel-wide, 4-row frame, the crop of rows 0 and 1 is luma
      bytes 0 to 3 and VU bytes 8 and 9. */
  lemma TopPairOfRows(src: seq<Byte>)
    requires |src| == 12
    ensures Nv21Crop(src, 2, 4, 0, 0, 2, 1) == src[0..4] + src[8..10]
  {
    assert Row(src, 0, 2) == src[0..2] && Row(src, 2, 2) == src[2..4] && Row(src, 8, 2) == src[8..10];
    assert src[0..4] == src[0..2] + src[2..4];
  }

  /** Rounded down to even, the same rectangle crops any 2-pixel-wide,
      4-row frame to its first two luma rows and their VU row. */
  lemma OddHeightAligned(src: seq<Byte>)
    requires |src| == 12
    ensures CropNv21Aligned(src, 2, 4, Rect(0, 0, 2, 3)) == Ok(src[0..4] + src[8..10])
  {
    var r := Rect(0, 0, 2, 3);
    assert InsideFrame(2, 4, r) && FrameCovers(src, 2, 4);
    assert AlignDown(r.left) == 0 && AlignDown(r.top) == 0 && AlignDown(r.Width()) == 2 && AlignDown(r.Height()) / 2 == 1;
    TopPairOfRows(src);
    CropNv21AlignedAt(src, 2, 4, r, 0, 0, 2, 1);
  }

  /** A rectangle starting at row 2: the VU copy reads VU row 0 instead of
      row 1 and writes it one row before the end of the luma block, where the
      next luma row overwrites it, so the chroma is lost and the VU block
      stays zero. */
  lemma LowerRectLosesChroma()
    ensures CropNv21AsWritten(Ramp, 2, 4, Rect(0, 2, 2, 4)) == Ok([4, 5, 6, 7, 0, 0])
  {
    assert Zeros(6) == [0, 0, 0, 0, 0, 0];
    assert Apply(Copy(4, 0, 2), Ramp, Zeros(6)) == [4, 5, 0, 0, 0, 0];
    assert Apply(Copy(8, 2, 2), Ramp, [4, 5, 0, 0, 0, 0]) == [4, 5, 8, 9, 0, 0];
    assert Apply(Copy(6, 2, 2), Ramp, [4, 5, 8, 9, 0, 0]) == [4, 5, 6, 7, 0, 0];
    assert Rows(Ramp, 2, 0, 2, 3, 4, Cursor(6, 2, 10, 4), [4, 5, 8, 9, 0, 0]) == Ok([4, 5, 6, 7, 0, 0]);
    assert Rows(Ramp, 2, 0, 2, 2, 4, Cursor(4, 0, 8, 2), Zeros(6)) == Ok([4, 5, 6, 7, 0, 0]);
    assert CopyRows(Ramp, 2, 0, 2, 2, 2, 8, 2) == Rows(Ramp, 2, 0, 2, 2, 4, Cursor(4, 0, 8, 2), Zeros(6));
  }

  /** In a 2-pixel-wide, 4-row frame, the crop of rows 2 and 3 is luma
      bytes 4 to 7 and VU bytes 10 and 11. */
  lemma LowerPairOfRows(src: seq<Byte>)
    requires |src| == 12
    ensures Nv21Crop(src, 2, 4, 0, 2, 2, 1) == src[4..8] + src[10..12]
  {
    assert Row(src, 4, 2) == src[4..6] && Row(src, 6, 2) == src[6..8] && Row(src, 10, 2) == src[10..12];
    assert src[4..8] == src[4..6] + src[6..8];
  }

  /** Corrected, the same rectangle of any such frame keeps VU row 1. */
  lemma LowerRectKeepsChroma(src: seq<Byte>)
    requires |src| == 12
    ensures CropNv21Aligned(src, 2, 4, Rect(0, 2, 2, 4)) == Ok(src[4..8] + src[10..12])
  {
    var r := Rect(0, 2, 2, 4);
    assert InsideFrame(2, 4, r) && FrameCovers(src, 2, 4);
    assert AlignDown(r.left) == 0 && AlignDown(r.top) == 2 && AlignDown(r.Width()) == 2 && AlignDown(r.Height()) / 2 == 1;
    LowerPairOfRows(src);
    CropNv21AlignedAt(src, 2, 4, r, 0, 2, 2, 1);
  }

  /** A 2-pixel-wide, 8-row NV21 frame whose bytes are their own positions:
      16 luma bytes, then 4 VU rows of 2 bytes. */
  const TallRamp: seq<Byte> := [0, 1, 2, 3, 4, 5, 6, 7, 8, 9, 10, 11, 12, 13, 14, 15, 16, 17, 18, 19, 20, 21, 22, 23]

  /** Rows 4 and 5: the VU destination `w * h - top / 2 * w` is 0, so VU row
      0 (not row 2) lands on luma row 4, which was already copied there. */
  lemma LowerRectOverwritesLuma()
    ensures CropNv21AsWritten(TallRamp, 2, 8, Rect(0, 4, 2, 6)) == Ok([16, 17, 10, 11, 0, 0])
  {
    assert Zeros(6) == [0, 0, 0, 0, 0, 0];
    assert Apply(Copy(8, 0, 2), TallRamp, Zeros(6)) == [8, 9, 0, 0, 0, 0];
    assert Apply(Copy(16, 0, 2), TallRamp, [8, 9, 0, 0, 0, 0]) == [16, 17, 0, 0, 0, 0];
    assert Apply(Copy(10, 2, 2), TallRamp, [16, 17, 0, 0, 0, 0]) == [16, 17, 10, 11, 0, 0];
    assert Rows(TallRamp, 2, 0, 2, 5, 6, Cursor(10, 2, 18, 2), [16, 17, 0, 0, 0, 0]) == Ok([16, 17, 10, 11, 0, 0]);
    assert Rows(TallRamp, 2, 0, 2, 4, 6, Cursor(8, 0, 16, 0), Zeros(6)) == Ok([16, 17, 10, 11, 0, 0]);
    assert CopyRows(TallRamp, 2, 0, 4, 2, 2, 16, 0) == Rows(TallRamp, 2, 0, 2, 4, 6, Cursor(8, 0, 16, 0), Zeros(6));
  }

  /** Rows 6 and 7: `top / 2` exceeds the height, the VU destination
      `w * h - top / 2 * w` is -2, and the first VU copy throws. */
  lemma BottomRectThrows()
    ensures CropNv21AsWritten(TallRamp, 2, 8, Rect(0, 6, 2, 8)) == Err(IndexOutOfBounds)
  {
    assert Zeros(6) == [0, 0, 0, 0, 0, 0];
    assert Fits(Copy(12, 0, 2), 24, 6) && !Fits(Copy(16, -2, 2), 24, 6);
    assert Rows(TallRamp, 2, 0, 2, 6, 8, Cursor(12, 0, 16, -2), Zeros(6)) == Err(IndexOutOfBounds);
    assert CopyRows(TallRamp, 2, 0, 6, 2, 2, 16, -2) == Rows(TallRamp, 2, 0, 2, 6, 8, Cursor(12, 0, 16, -2), Zeros(6));
  }

  /** In a 2-pixel-wide, 8-row frame, the crop of rows 6 and 7 is luma
      bytes 12 to 15 and VU bytes 22 and 23. */
  lemma BottomPairOfRows(src: seq<Byte>)
    requires |src| == 24
    ensures Nv21Crop(src, 2, 8, 0, 6, 2, 1) == src[12..16] + src[22..24]
  {
    assert Row(src, 12, 2) == src[12..14] && Row(src, 14, 2) == src[14..16] && Row(src, 22, 2) == src[22..24];
    assert src[12..16] == src[12..14] + src[14..16];
  }

  /** Corrected, the bottom rows of any such frame crop without throwing and
      keep VU row 3. */
  lemma BottomRectKeepsChroma(src: seq<Byte>)
    requires |src| == 24
    ensures CropNv21Aligned(src, 2, 8, Rect(0, 6, 2, 8)) == Ok(src[12..16] + src[22..24])
  {
    var r := Rect(0, 6, 2, 8);
    assert InsideFrame(2, 8, r) && FrameCovers(src, 2, 8);
    assert AlignDown(r.left) == 0 && AlignDown(r.top) == 6 && AlignDown(r.Width()) == 2 && AlignDown(r.Height()) / 2 == 1;
    BottomPairOfRows(src);
    CropNv21AlignedAt(src, 2, 8, r, 0, 6, 2, 1);
  }

  // ----- What the corrected crop computes -----

  /** The w bytes of `src` from `s`; zeros where they would run past its end,
      which keeps `Block` total (the lemmas below only use rows inside). */
  function Row(src: seq<Byte>, s: nat, w: nat): (r: seq<Byte>)
    ensures |r| == w
    ensures s + w <= |src| ==> r == src[s..s + w]
  {
    if s + w <= |src| then src[s..s + w] else Zeros(w)
  }

  /** n rows of w bytes, `stride` bytes apart, from `start`. */
  function Block(src: seq<Byte>, start: nat, stride: nat, w: nat, n: nat): seq<Byte>
    decreases n
  {
    if n == 0 then [] else Row(src, start, w) + Block(src, start + stride, stride, w, n - 1)
  }

  lemma {:induction false} BlockLength(src: seq<Byte>, start: nat, stride: nat, w: nat, n: nat)
    ensures |Block(src, start, stride, w, n)| == w * n
    decreases n
  {
    if n > 0 {
      BlockLength(src, start + stride, stride, w, n - 1);
      assert w * n == w * (n - 1) + w;
    }
  }

  /** Byte i = `w * k + c` of a block is byte p = `start + stride * k + c` of
      the source, when row k lies inside it. */
  lemma {:induction false} BlockAt(src: seq<Byte>, start: nat, stride: nat, w: nat, n: nat, k: nat, c: nat, i: nat, p: nat)
    requires k < n && c < w && i == w * k + c && p == start + stride * k + c && p + (w - c) <= |src|
    ensures i < |Block(src, start, stride, w, n)| && Block(src, start, stride, w, n)[i] == src[p]
    decreases n
  {
    var first, rest := Row(src, start, w), Block(src, start + stride, stride, w, n - 1);
    assert Block(src, start, stride, w, n) == first + rest;
    if k == 0 {
      assert w * k == 0 && stride * k == 0;
      assert first[c] == src[p];
    } else {
      assert w * k == w * (k - 1) + w && stride * k == stride * (k - 1) + stride;
      RowMajor.MulMono(0, w, 0, k - 1);
      BlockAt(src, start + stride, stride, w, n - 1, k - 1, c, i - w, p);
      assert rest[i - w] == src[p];
    }
  }

  /** The output while the rows are being copied: the luma rows done so far,
      zeros up to `yTotal`, then the VU rows done so far, zeros up to
      `vTotal`. */
  function Layout(ys: seq<Byte>, yTotal: nat, vs: seq<Byte>, vTotal: nat): (r: seq<Byte>)
    requires |ys| <= yTotal && |vs| <= vTotal
    ensures |r| == yTotal + vTotal
  {
    ys + Zeros(yTotal - |ys|) + vs + Zeros(vTotal - |vs|)
  }

  /** Rows i until `end` of the loop, started with the source cursor at `sp`,
      the VU cursor at `ubase + x`, and the output laid out as `Layout(ys,
      yTotal, vs, vTotal)`. */
  function Filled(src: seq<Byte>, width: nat, x: nat, w: nat, i: int, end: int, sp: nat, ubase: nat,
                  ys: seq<Byte>, yTotal: nat, vs: seq<Byte>, vTotal: nat): Result<seq<Byte>>
    requires |ys| <= yTotal && |vs| <= vTotal
  {
    Rows(src, width, x, w, i, end, Cursor(sp, |ys|, ubase + x, yTotal + |vs|), Layout(ys, yTotal, vs, vTotal))
  }

  /** A luma copy to the end of the luma rows done extends them. */
  lemma FillLuma(src: seq<Byte>, s: nat, w: nat, ys: seq<Byte>, yTotal: nat, vs: seq<Byte>, vTotal: nat)
    requires s + w <= |src| && |ys| + w <= yTotal && |vs| <= vTotal
    ensures Fits(Copy(s, |ys|, w), |src|, yTotal + vTotal)
    ensures Apply(Copy(s, |ys|, w), src, Layout(ys, yTotal, vs, vTotal)) == Layout(ys + src[s..s + w], yTotal, vs, vTotal)
  {
  }

  /** A VU copy to the end of the VU rows done extends them. */
  lemma FillChroma(src: seq<Byte>, s: nat, w: nat, ys: seq<Byte>, yTotal: nat, vs: seq<Byte>, vTotal: nat)
    requires s + w <= |src| && |ys| <= yTotal && |vs| + w <= vTotal
    ensures Fits(Copy(s, yTotal + |vs|, w), |src|, yTotal + vTotal)
    ensures Apply(Copy(s, yTotal + |vs|, w), src, Layout(ys, yTotal, vs, vTotal)) == Layout(ys, yTotal, vs + src[s..s + w], vTotal)
  {
  }

  /** An even row of the loop copies a luma row and a VU row. */
  lemma EvenRow(src: seq<Byte>, width: nat, x: nat, w: nat, i: int, end: int, sp: nat, ubase: nat,
                ys: seq<Byte>, yTotal: nat, vs: seq<Byte>, vTotal: nat)
    requires x + w <= width && i % 2 == 0 && i < end
    requires |ys| + w <= yTotal && |vs| + w <= vTotal
    requires sp + width <= |src| && ubase + width <= |src|
    ensures var ys', vs' := ys + src[sp + x..sp + x + w], vs + src[ubase + x..ubase + x + w];
      Filled(src, width, x, w, i, end, sp, ubase, ys, yTotal, vs, vTotal)
      == Rows(src, width, x, w, i + 1, end, Cursor(sp + width, |ys'|, ubase + width + x, yTotal + |vs'|), Layout(ys', yTotal, vs', vTotal))
  {
    var c := Cursor(sp, |ys|, ubase + x, yTotal + |vs|);
    assert Filled(src, width, x, w, i, end, sp, ubase, ys, yTotal, vs, vTotal)
        == RowStep(src, width, x, w, i, end, c, Layout(ys, yTotal, vs, vTotal));
    FillLuma(src, sp + x, w, ys, yTotal, vs, vTotal);
    FillChroma(src, ubase + x, w, ys + src[sp + x..sp + x + w], yTotal, vs, vTotal);
  }

  /** The odd row after an even row i copies a luma row only. */
  lemma OddRow(src: seq<Byte>, width: nat, x: nat, w: nat, i: int, end: int, sp: nat, uv: int,
               ys: seq<Byte>, yTotal: nat, vs: seq<Byte>, vTotal: nat)
    requires x + w <= width && i % 2 == 0 && i + 1 < end
    requires |ys| + w <= yTotal && |vs| <= vTotal && sp + width <= |src|
    ensures Rows(src, width, x, w, i + 1, end, Cursor(sp, |ys|, uv, yTotal + |vs|), Layout(ys, yTotal, vs, vTotal))
         == Rows(src, width, x, w, i + 2, end, Cursor(sp + width, |ys + src[sp + x..sp + x + w]|, uv, yTotal + |vs|), Layout(ys + src[sp + x..sp + x + w], yTotal, vs, vTotal))
  {
    FillLuma(src, sp + x, w, ys, yTotal, vs, vTotal);
    assert (i + 1) % 2 != 0;
  }

  /** Two rows of the loop from an even row i: luma row, VU row, luma row. */
  lemma RowPair(src: seq<Byte>, width: nat, x: nat, w: nat, i: int, end: int, sp: nat, ubase: nat,
                ys: seq<Byte>, yTotal: nat, vs: seq<Byte>, vTotal: nat)
    requires x + w <= width && i % 2 == 0 && i + 2 <= end
    requires |ys| + 2 * w <= yTotal && |vs| + w <= vTotal
    requires sp + 2 * width <= |src| && ubase + width <= |src|
    ensures var ys', vs' := ys + src[sp + x..sp + x + w] + src[sp + width + x..sp + width + x + w], vs + src[ubase + x..ubase + x + w];
      Filled(src, width, x, w, i, end, sp, ubase, ys, yTotal, vs, vTotal)
      == Filled(src, width, x, w, i + 2, end, sp + width + width, ubase + width, ys', yTotal, vs', vTotal)
  {
    var row1, uvRow := src[sp + x..sp + x + w], src[ubase + x..ubase + x + w];
    OddRow(src, width, x, w, i, end, sp + width, ubase + width + x, ys + row1, yTotal, vs + uvRow, vTotal);
    EvenRow(src, width, x, w, i, end, sp, ubase, ys, yTotal, vs, vTotal);
  }

  lemma WithoutEmpty<T>(a: seq<T>, b: seq<T>)
    ensures [] + a + [] + b == a + b
  {
    assert [] + a == a && a + [] == a;
  }

  /** Replacing two runs of a concatenation by what they equal. */
  lemma Regroup<T>(a: seq<T>, b: seq<T>, c: seq<T>, d: seq<T>, e: seq<T>, f: seq<T>, g: seq<T>, front: seq<T>, back: seq<T>)
    requires b + c + d == front && f + g == back
    ensures a + b + c + d + (e + f) + g == a + front + e + back
  {
    assert a + b + c + d == a + (b + c + d);
    assert a + front + (e + f) + g == a + front + e + (f + g);
  }

  lemma Distribute(a: nat, n: nat)
    requires n > 0
    ensures a * (2 * n) == a * (2 * (n - 1)) + 2 * a && a * (2 * n - 1) == a * (2 * (n - 1)) + a
    ensures a * n == a * (n - 1) + a
  {
  }

  /** A block of n > 0 rows is its first row, then the block of the other
      `rest` rows from `next`. */
  lemma BlockFirst(src: seq<Byte>, start: nat, stride: nat, w: nat, n: nat, next: nat, rest: nat)
    requires n > 0 && next == start + stride && rest == n - 1 && start + w <= |src|
    ensures Block(src, start, stride, w, n) == src[start..start + w] + Block(src, next, stride, w, rest)
  {
  }

  /** Two rows in front of the rest of a block make it two rows taller. */
  lemma BlockFirstTwo(src: seq<Byte>, start: nat, stride: nat, w: nat, n: nat, second: nat, third: nat)
    requires n > 0 && second == start + stride && third == second + stride && second + w <= |src|
    ensures src[start..start + w] + src[second..second + w] + Block(src, third, stride, w, 2 * (n - 1)) == Block(src, start, stride, w, 2 * n)
  {
    BlockFirst(src, start, stride, w, 2 * n, second, 2 * n - 1);
    BlockFirst(src, second, stride, w, 2 * n - 1, third, 2 * (n - 1));
  }

  /** Two luma rows and one VU row in front of the remaining blocks make the
      blocks one pair of rows taller. */
  lemma PairBlocks(src: seq<Byte>, width: nat, x: nat, w: nat, n: nat, sp: nat, ubase: nat, ys: seq<Byte>, vs: seq<Byte>)
    requires x + w <= width && n > 0
    requires sp + width + width <= |src| && ubase + width <= |src|
    ensures ys + src[sp + x..sp + x + w] + src[sp + width + x..sp + width + x + w] + Block(src, sp + width + width + x, width, w, 2 * (n - 1))
              + (vs + src[ubase + x..ubase + x + w]) + Block(src, ubase + width + x, width, w, n - 1)
         == ys + Block(src, sp + x, width, w, 2 * n) + vs + Block(src, ubase + x, width, w, n)
  {
    var row1, row2, lumaRest := src[sp + x..sp + x + w], src[sp + width + x..sp + width + x + w], Block(src, sp + width + width + x, width, w, 2 * (n - 1));
    var uvRow, chromaRest := src[ubase + x..ubase + x + w], Block(src, ubase + width + x, width, w, n - 1);
    assert row1 + row2 + lumaRest == Block(src, sp + x, width, w, 2 * n) by {
      BlockFirstTwo(src, sp + x, width, w, n, sp + width + x, sp + width + width + x);
    }
    assert uvRow + chromaRest == Block(src, ubase + x, width, w, n) by {
      BlockFirst(src, ubase + x, width, w, n, ubase + width + x, n - 1);
    }
    Regroup(ys, row1, row2, lumaRest, vs, uvRow, chromaRest, Block(src, sp + x, width, w, 2 * n), Block(src, ubase + x, width, w, n));
  }

  /** The conditions under which, from an even row i, the n pairs of rows
      until `end` copy into an output laid out as `Layout(ys, yTotal, vs,
      vTotal)`: room for 2n more luma rows and n more VU rows, and the source
      rows from `sp` and `ubase` inside the source. */
  predicate Pairs(src: seq<Byte>, width: nat, x: nat, w: nat, i: int, end: int, n: nat, sp: nat, ubase: nat,
                  ys: seq<Byte>, yTotal: nat, vs: seq<Byte>, vTotal: nat)
  {
    && x + w <= width && i % 2 == 0 && end == i + 2 * n
    && |ys| + w * (2 * n) == yTotal && |vs| + w * n == vTotal
    && sp + width * (2 * n) <= |src| && ubase + width * n <= |src|
  }

  /** What is left after the first of n > 0 pairs of rows meets the
      conditions for the other n - 1 pairs. */
  lemma PairStep(src: seq<Byte>, width: nat, x: nat, w: nat, i: int, end: int, n: nat, sp: nat, ubase: nat,
                 ys: seq<Byte>, yTotal: nat, vs: seq<Byte>, vTotal: nat)
    returns (ys': seq<Byte>, vs': seq<Byte>)
    requires Pairs(src, width, x, w, i, end, n, sp, ubase, ys, yTotal, vs, vTotal) && n > 0
    ensures sp + width + width <= |src| && ubase + width <= |src| && |ys| + 2 * w <= yTotal && |vs| + w <= vTotal
    ensures sp + width + x + w <= |src| && ubase + x + w <= |src|
    ensures ys' == ys + src[sp + x..sp + x + w] + src[sp + width + x..sp + width + x + w] && vs' == vs + src[ubase + x..ubase + x + w]
    ensures Pairs(src, width, x, w, i + 2, end, n - 1, sp + width + width, ubase + width, ys', yTotal, vs', vTotal)
  {
    Distribute(w, n);
    Distribute(width, n);
    RowMajor.MulAtLeast(n, w);
    RowMajor.MulAtLeast(n, width);
    ys', vs' := ys + src[sp + x..sp + x + w] + src[sp + width + x..sp + width + x + w], vs + src[ubase + x..ubase + x + w];
  }

  /** The first pair of rows, followed by what the other pairs copy, is what
      all n pairs copy. */
  lemma PairJoin(src: seq<Byte>, width: nat, x: nat, w: nat, i: int, end: int, n: nat, sp: nat, ubase: nat,
                 ys: seq<Byte>, yTotal: nat, vs: seq<Byte>, vTotal: nat)
    requires Pairs(src, width, x, w, i, end, n, sp, ubase, ys, yTotal, vs, vTotal) && n > 0
    ensures sp + width + x + w <= |src| && ubase + x + w <= |src| && |ys| + 2 * w <= yTotal && |vs| + w <= vTotal
    ensures var ys', vs' := ys + src[sp + x..sp + x + w] + src[sp + width + x..sp + width + x + w], vs + src[ubase + x..ubase + x + w];
      Filled(src, width, x, w, i + 2, end, sp + width + width, ubase + width, ys', yTotal, vs', vTotal)
      == Ok(ys' + Block(src, sp + width + width + x, width, w, 2 * (n - 1)) + vs' + Block(src, ubase + width + x, width, w, n - 1))
      ==> Filled(src, width, x, w, i, end, sp, ubase, ys, yTotal, vs, vTotal)
          == Ok(ys + Block(src, sp + x, width, w, 2 * n) + vs + Block(src, ubase + x, width, w, n))
  {
    var ys', vs' := PairStep(src, width, x, w, i, end, n, sp, ubase, ys, yTotal, vs, vTotal);
    RowPair(src, width, x, w, i, end, sp, ubase, ys, yTotal, vs, vTotal);
    PairBlocks(src, width, x, w, n, sp, ubase, ys, vs);
  }

  /** From an even row i, the n pairs of rows until `end` copy 2n luma rows
      and n VU rows into their places. */
  lemma {:induction false} RowsFill(src: seq<Byte>, width: nat, x: nat, w: nat, i: int, end: int, n: nat, sp: nat, ubase: nat,
                                    ys: seq<Byte>, yTotal: nat, vs: seq<Byte>, vTotal: nat)
    requires Pairs(src, width, x, w, i, end, n, sp, ubase, ys, yTotal, vs, vTotal)
    ensures Filled(src, width, x, w, i, end, sp, ubase, ys, yTotal, vs, vTotal)
         == Ok(ys + Block(src, sp + x, width, w, 2 * n) + vs + Block(src, ubase + x, width, w, n))
    decreases n
  {
    if n == 0 {
      assert w * (2 * n) == 0 && w * n == 0;
      assert Layout(ys, yTotal, vs, vTotal) == ys + [] + vs + [];
    } else {
      var ys', vs' := PairStep(src, width, x, w, i, end, n, sp, ubase, ys, yTotal, vs, vTotal);
      RowsFill(src, width, x, w, i + 2, end, n - 1, sp + width + width, ubase + width, ys', yTotal, vs', vTotal);
      PairJoin(src, width, x, w, i, end, n, sp, ubase, ys, yTotal, vs, vTotal);
    }
  }

  // ----- The corrected crop, end to end -----

  /** The source holds a whole NV21 frame: `width * height` luma bytes, then
      `height / 2` rows of `width` interleaved VU bytes. */
  predicate FrameCovers(src: seq<Byte>, width: nat, height: nat)
  {
    width * height + height / 2 * width <= |src|
  }

  /** The NV21 crop of `pairs` pairs of rows from an even row y, columns x
      until x + w: luma rows y until y + 2 * pairs, then the VU rows that
      cover them, the same columns of VU rows y / 2 until y / 2 + pairs. */
  function Nv21Crop(src: seq<Byte>, width: nat, height: nat, x: nat, y: nat, w: nat, pairs: nat): seq<Byte>
  {
    Block(src, y * width + x, width, w, 2 * pairs) + Block(src, width * height + y / 2 * width + x, width, w, pairs)
  }

  /** The rectangle lies inside the frame. */
  predicate InsideFrame(width: int, height: int, cropRect: Rect)
  {
    0 <= cropRect.left <= cropRect.right <= width && 0 <= cropRect.top <= cropRect.bottom <= height
  }

  /** Rows y until y + h of a frame, and their VU rows, lie inside it. */
  lemma FrameRows(width: nat, height: nat, y: nat, h: nat, length: int)
    requires y + h <= height && y % 2 == 0 && h % 2 == 0 && width * height + height / 2 * width <= length
    ensures y * width + width * (2 * (h / 2)) <= length
    ensures width * height + y / 2 * width + width * (h / 2) <= length
  {
    var n := h / 2;
    assert y * width + width * (2 * n) <= width * height by {
      RowMajor.MulMono(y + 2 * n, height, width, width);
      assert (y + 2 * n) * width == y * width + width * (2 * n);
    }
    assert y / 2 * width + width * n <= height / 2 * width by {
      RowMajor.MulMono(y / 2 + n, height / 2, width, width);
      assert (y / 2 + n) * width == y / 2 * width + width * n;
    }
  }

  /** Rounding down to even keeps a rectangle inside the frame, and the rows
      it covers, and their VU rows, inside a whole NV21 frame. */
  lemma AlignedBounds(src: seq<Byte>, width: nat, height: nat, cropRect: Rect)
    requires InsideFrame(width, height, cropRect) && FrameCovers(src, width, height)
    ensures var x, y := AlignDown(cropRect.left), AlignDown(cropRect.top);
      var w, h := AlignDown(cropRect.Width()), AlignDown(cropRect.Height());
      && 0 <= x && 0 <= y && 0 <= w && 0 <= h && x + w <= width && y + h <= height
      && y % 2 == 0 && h % 2 == 0 && Div(y, 2) == y / 2
      && y * width + width * (2 * (h / 2)) <= |src|
      && width * height + Div(y, 2) * width + width * (h / 2) <= |src|
  {
    var y, h := AlignDown(cropRect.top), AlignDown(cropRect.Height());
    FrameRows(width, height, y, h, |src|);
  }

  /** An even height h makes the zeroed output of `CopyRows` exactly `w * h`
      luma and `w * (h / 2)` VU bytes. */
  lemma EvenSizes(w: nat, h: nat)
    requires h % 2 == 0
    ensures w * (h / 2) >= 0 && w * h == w * (2 * (h / 2))
    ensures w * h + Div(w * h, 2) >= 0 && Zeros(w * h + Div(w * h, 2)) == Layout([], w * h, [], w * (h / 2))
  {
    var n := h / 2;
    assert h == 2 * n;
    RowMajor.MulMono(0, w, 0, n);
    assert w * h == 2 * (w * n);
    assert Div(w * h, 2) == w * n;
    assert Zeros(w * h + w * n) == [] + Zeros(w * h - 0) + [] + Zeros(w * n - 0);
  }

  /** The corrected crop of a rectangle inside the frame starts the loop on
      a zeroed output of `w * h` luma and `w * (h / 2)` VU bytes. */
  lemma AlignedStart(src: seq<Byte>, width: nat, height: nat, cropRect: Rect)
    requires InsideFrame(width, height, cropRect)
    ensures var x, y := AlignDown(cropRect.left), AlignDown(cropRect.top);
      var w, h := AlignDown(cropRect.Width()), AlignDown(cropRect.Height());
      && w >= 0 && h >= 0 && w * (h / 2) >= 0 && w * h == w * (2 * (h / 2))
      && CropNv21Aligned(src, width, height, cropRect)
         == Rows(src, width, x, w, y, y + h, Cursor(y * width, 0, width * height + y / 2 * width + x, w * h), Layout([], w * h, [], w * (h / 2)))
  {
    var y, w, h := AlignDown(cropRect.top), AlignDown(cropRect.Width()), AlignDown(cropRect.Height());
    assert Div(y, 2) == y / 2;
    EvenSizes(w, h);
  }

  /** On a rectangle inside a whole NV21 frame, the corrected crop returns
      the luma block of the rectangle rounded down to even, followed by the
      VU rows of those same rows. */
  lemma CropNv21AlignedContent(src: seq<Byte>, width: nat, height: nat, cropRect: Rect)
    requires InsideFrame(width, height, cropRect) && FrameCovers(src, width, height)
    ensures var x, y := AlignDown(cropRect.left), AlignDown(cropRect.top);
      var w, h := AlignDown(cropRect.Width()), AlignDown(cropRect.Height());
      x >= 0 && y >= 0 && w >= 0 && h >= 0
      && CropNv21Aligned(src, width, height, cropRect) == Ok(Nv21Crop(src, width, height, x, y, w, h / 2))
  {
    AlignedBounds(src, width, height, cropRect);
    AlignedStart(src, width, height, cropRect);
    var x, y := AlignDown(cropRect.left), AlignDown(cropRect.top);
    var w, h := AlignDown(cropRect.Width()), AlignDown(cropRect.Height());
    RowMajor.MulMono(0, y, 0, width);
    RowMajor.MulMono(0, width, 0, height);
    RowMajor.MulMono(0, y / 2, 0, width);
    var sp: nat, ubase: nat := y * width, width * height + y / 2 * width;
    var n := h / 2;
    RowsFill(src, width, x, w, y, y + h, n, sp, ubase, [], w * h, [], w * n);
    WithoutEmpty(Block(src, sp + x, width, w, 2 * n), Block(src, ubase + x, width, w, n));
  }

  /** The same, with the rounded coordinates given. */
  lemma CropNv21AlignedAt(src: seq<Byte>, width: nat, height: nat, cropRect: Rect, x: nat, y: nat, w: nat, pairs: nat)
    requires InsideFrame(width, height, cropRect) && FrameCovers(src, width, height)
    requires x == AlignDown(cropRect.left) && y == AlignDown(cropRect.top)
    requires w == AlignDown(cropRect.Width()) && pairs == AlignDown(cropRect.Height()) / 2
    ensures CropNv21Aligned(src, width, height, cropRect) == Ok(Nv21Crop(src, width, height, x, y, w, pairs))
  {
    CropNv21AlignedContent(src, width, height, cropRect);
  }

  /** Where the rectangle starts at the top row and every coordinate is even,
      the code as written computes the corrected crop. */
  lemma AsWrittenAtTop(src: seq<Byte>, width: int, height: int, cropRect: Rect)
    requires cropRect.top == 0 && 0 <= cropRect.left && cropRect.Width() >= 0 && cropRect.Height() >= 0
    requires cropRect.left % 2 == 0 && cropRect.Width() % 2 == 0 && cropRect.Height() % 2 == 0
    ensures CropNv21AsWritten(src, width, height, cropRect) == CropNv21Aligned(src, width, height, cropRect)
  {
    var x, w, h := cropRect.left, cropRect.Width(), cropRect.Height();
    assert Div(x * 2, 2) == x && AlignDown(x) == x;
    assert Div(w * 2, 2) == w && AlignDown(w) == w;
    assert Div(h * 2, 2) == h && AlignDown(h) == h;
    assert Div(0, 2) == 0 && AlignDown(0) == 0;
  }
}
