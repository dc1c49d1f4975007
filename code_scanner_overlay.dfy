/** The scanner overlay's box: its format, read from a layout attribute, and
    the percentages of the view's width and height it covers, read from
    layout attributes or defaulted per format. The part of the frame outside
    the box is what the analyzers crop away. */
module CodeScannerOverlay {
  import opened Kotlin
  import ImageUtils

  /** `BoxFormat`, each with its attribute value. */
  datatype BoxFormat = Barcode | QRCode

  function Value(format: BoxFormat): int
  {
    match format
    case Barcode => 0
    case QRCode => 1
  }

  /** `BoxFormat.values()`, in declaration order. */
  const Formats: seq<BoxFormat> := [Barcode, QRCode]

  /** The first format of `formats` whose value is `value`. */
  function FirstWithValue(formats: seq<BoxFormat>, value: int): (r: Nullable<BoxFormat>)
    ensures r.NonNull? ==> r.value in formats && Value(r.value) == value
    ensures r.Null? ==> forall f :: f in formats ==> Value(f) != value
  {
    if formats == [] then Null
    else if Value(formats[0]) == value then NonNull(formats[0])
    else FirstWithValue(formats[1..], value)
  }

  /** `fromValueToEnum`: the format with the given value; any other value
      throws `IllegalArgumentException`. */
  function FromValueToEnum(value: int): (r: Result<BoxFormat>)
    ensures r.Ok? ==> Value(r.value) == value
    ensures r.Err? ==> r.error == IllegalArgument
  {
    match FirstWithValue(Formats, value)
    case NonNull(format) => Ok(format)
    case Null => Err(IllegalArgument)
  }

  /** Exactly the values 0 and 1 name a format, and each format is found
      again from its value. */
  lemma FromValueToEnumValues(value: int)
    ensures FromValueToEnum(value).Ok? <==> value == 0 || value == 1
    ensures FromValueToEnum(0) == Ok(Barcode) && FromValueToEnum(1) == Ok(QRCode)
    ensures forall f: BoxFormat :: FromValueToEnum(Value(f)) == Ok(f)
  {
    assert Barcode in Formats && QRCode in Formats;
    forall f: BoxFormat ensures FromValueToEnum(Value(f)) == Ok(f) {
      assert Value(f) == 0 <==> f == Barcode;
    }
  }

  const BarcodeWidthDefault := 85
  const BarcodeHeightDefault := 20
  const QrCodeWidthDefault := 80
  const QrCodeHeightDefault := 36

  /** `getDefaultBoxDimension`: the default (width, height) percentages of a
      format's box. */
  function DefaultBoxDimension(format: BoxFormat): (r: (int, int))
    ensures 0 < r.0 <= 100 && 0 < r.1 <= 100 && r.1 < r.0
  {
    match format
    case Barcode => (BarcodeWidthDefault, BarcodeHeightDefault)
    case QRCode => (QrCodeWidthDefault, QrCodeHeightDefault)
  }

  /** The three layout attributes of the overlay, each absent or an integer. */
  datatype StyledAttributes = StyledAttributes(boxFormat: Nullable<int>, boxWidthPercentage: Nullable<int>, boxHeightPercentage: Nullable<int>)

  /** `TypedArray.getInt(index, defValue)`: the attribute, or the default when
      it is absent. */
  function GetInt(attribute: Nullable<int>, defValue: int): int
  {
    if attribute.NonNull? then attribute.value else defValue
  }

  /** The overlay's box, fixed at construction. */
  datatype Overlay = Overlay(boxFormat: BoxFormat, boxWidthPercentage: int, boxHeightPercentage: int)

  /** `init`: the format attribute, `Barcode` when absent, then each
      percentage attribute, that format's default when absent. */
  function Init(attrs: StyledAttributes): (r: Result<Overlay>)
    ensures r.Err? ==> r.error == IllegalArgument
    ensures r.Ok? && attrs.boxFormat.NonNull? ==> Value(r.value.boxFormat) == attrs.boxFormat.value
  {
    match FromValueToEnum(GetInt(attrs.boxFormat, Value(Barcode)))
    case Err(e) => Err(e)
    case Ok(format) =>
      Ok(Overlay(format,
                 GetInt(attrs.boxWidthPercentage, DefaultBoxDimension(format).0),
                 GetInt(attrs.boxHeightPercentage, DefaultBoxDimension(format).1)))
  }

  /** Construction fails exactly for a format attribute naming no format;
      otherwise the overlay has the named format (`Barcode` when absent),
      and each percentage is its attribute or that format's default. */
  lemma InitAttributes(attrs: StyledAttributes)
    ensures Init(attrs).Err? <==> attrs.boxFormat.NonNull? && attrs.boxFormat.value != 0 && attrs.boxFormat.value != 1
    ensures Init(attrs).Err? ==> Init(attrs).error == IllegalArgument
    ensures Init(attrs).Ok? ==>
      var o := Init(attrs).value;
      && (attrs.boxFormat.Null? ==> o.boxFormat == Barcode)
      && (attrs.boxFormat.NonNull? ==> Value(o.boxFormat) == attrs.boxFormat.value)
      && o.boxWidthPercentage == (if attrs.boxWidthPercentage.NonNull? then attrs.boxWidthPercentage.value else DefaultBoxDimension(o.boxFormat).0)
      && o.boxHeightPercentage == (if attrs.boxHeightPercentage.NonNull? then attrs.boxHeightPercentage.value else DefaultBoxDimension(o.boxFormat).1)
  {
    FromValueToEnumValues(GetInt(attrs.boxFormat, Value(Barcode)));
  }

  /** With no attributes at all the box is an 85% by 20% barcode box, and a
      QR code box without percentages is 80% by 36%. */
  lemma InitDefaults()
    ensures Init(StyledAttributes(Null, Null, Null)) == Ok(Overlay(Barcode, 85, 20))
    ensures Init(StyledAttributes(NonNull(1), Null, Null)) == Ok(Overlay(QRCode, 80, 36))
  {
    FromValueToEnumValues(0);
  }

  /** `percentageWidthCropped`: the percentage of the width outside the box,
      in [0, 100] exactly when the box's own percentage is. */
  function PercentageWidthCropped(o: Overlay): (r: int)
    ensures o.boxWidthPercentage + r == 100
    ensures 0 <= r <= 100 <==> 0 <= o.boxWidthPercentage <= 100
  {
    100 - o.boxWidthPercentage
  }

  /** `percentageHeightCropped`: the percentage of the height outside the
      box, in [0, 100] exactly when the box's own percentage is. */
  function PercentageHeightCropped(o: Overlay): (r: int)
    ensures o.boxHeightPercentage + r == 100
    ensures 0 <= r <= 100 <==> 0 <= o.boxHeightPercentage <= 100
  {
    100 - o.boxHeightPercentage
  }

  /** An overlay built without percentage attributes passes crop percentages
      in [0, 100] to `cropImage`, whatever its format, the frame and its
      rotation; for a barcode box they are 15% of the width and 80% of the
      height (40% for a frame at least four times as wide as tall, the
      integer ratio `imageWidth / imageHeight` being above 3). */
  lemma DefaultCropPercentages(format: Nullable<int>, imageWidth: nat, imageHeight: nat, rotationDegrees: int)
    requires Init(StyledAttributes(format, Null, Null)).Ok? && imageHeight > 0
    ensures var o := Init(StyledAttributes(format, Null, Null)).value;
      var r := ImageUtils.CropPercentages(imageWidth, imageHeight, rotationDegrees, PercentageWidthCropped(o), PercentageHeightCropped(o));
      && r.Ok? && 0 <= r.value.0 <= 100 && 0 <= r.value.1 <= 100
      && (o.boxFormat == Barcode && rotationDegrees == 0 ==>
            r.value == (15, if imageWidth / imageHeight > 3 then 40 else 80))
  {
    var o := Init(StyledAttributes(format, Null, Null)).value;
    InitAttributes(StyledAttributes(format, Null, Null));
    ImageUtils.CropPercentagesInRange(imageWidth, imageHeight, rotationDegrees, PercentageWidthCropped(o), PercentageHeightCropped(o));
    if o.boxFormat == Barcode {
      assert imageWidth / imageHeight > 3 <==> imageWidth >= 4 * imageHeight;
    }
  }
}
