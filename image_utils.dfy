/**
  The upload check, the size normalisation and the mask rasteriser of the
  web application's image helpers.
 */
module ImageUtils {
  import opened Imaging

  // ---------------------------------------------------------------------
  // Upload validation
  // ---------------------------------------------------------------------

  /** An uploaded file: the client's file name and the raw bytes of its stream. */
  datatype Upload = Upload(filename: string, stream: seq<bv8>)

  /** Python truthiness of the form field: a missing field is falsy, and so is
      an upload whose file name is empty. */
  predicate IsFalsy(file: Option<Upload>) {
    file.None? || file.value.filename == ""
  }

  const AllowedExtensions: set<string> := {"png", "jpg", "jpeg", "bmp", "webp"}

  const NoFileMessage := "No file provided"

  /** The message for a rejected name: `allowedShown` is how the interpreter
      prints the allow-list set, whose element order is not fixed. */
  function InvalidTypeMessage(allowedShown: string): string {
    "Invalid file type. Allowed: " + allowedShown
  }

  function LowerChar(c: char): char {
    if IsUpper(c) then (c as int + 32) as char else c
  }

  /** `str.lower()` on the ASCII letters. */
  function Lower(s: string): (r: string)
    ensures |r| == |s|
    ensures forall i :: 0 <= i < |s| ==> r[i] == LowerChar(s[i])
  {
    seq(|s|, i requires 0 <= i < |s| => LowerChar(s[i]))
  }

  predicate IsUpper(c: char) {
    'A' <= c <= 'Z'
  }

  /** Lower-casing leaves no upper-case letter behind. */
  lemma LowerHasNoUpper(s: string)
    ensures forall i :: 0 <= i < |Lower(s)| ==> !IsUpper(Lower(s)[i])
  {
  }

  /** A string without upper-case letters is its own lower-case form. */
  lemma LowerFixesNoUpper(s: string)
    requires forall i :: 0 <= i < |s| ==> !IsUpper(s[i])
    ensures Lower(s) == s
  {
  }

  /** Lower-casing twice is lower-casing once. */
  lemma LowerIdempotent(s: string)
    ensures Lower(Lower(s)) == Lower(s)
  {
    LowerHasNoUpper(s);
    LowerFixesNoUpper(Lower(s));
  }

  /** Two names that differ only in letter case pass or fail the name check together. */
  lemma HasAllowedExtensionIgnoresCase(a: string, b: string)
    requires Lower(a) == Lower(b)
    ensures HasAllowedExtension(a) <==> HasAllowedExtension(b)
  {
  }

  predicate EndsWith(s: string, suffix: string) {
    |suffix| <= |s| && s[|s| - |suffix|..] == suffix
  }

  /** `any(filename.lower().endswith(ext) for ext in allowed_extensions)`. */
  predicate HasAllowedExtension(filename: string) {
    exists ext :: ext in AllowedExtensions && EndsWith(Lower(filename), ext)
  }

  /** `validate_image`: the falsy check first, then the name check, and only then
      the decoder, given as `verify`, which yields None when the stream decodes
      and Some(reason) when it raises. */
  function ValidateImage(file: Option<Upload>, verify: seq<bv8> -> Option<string>,
                         allowedShown: string): (r: (bool, Option<string>))
    ensures IsFalsy(file) ==> r == (false, Some(NoFileMessage))
    ensures !IsFalsy(file) && !HasAllowedExtension(file.value.filename) ==>
              r == (false, Some(InvalidTypeMessage(allowedShown)))
    ensures r.0 <==> !IsFalsy(file) && HasAllowedExtension(file.value.filename)
                     && verify(file.value.stream).None?
    ensures r.0 <==> r.1.None?
    ensures !IsFalsy(file) && HasAllowedExtension(file.value.filename) && verify(file.value.stream).Some? ==>
              r == (false, Some("Invalid image file: " + verify(file.value.stream).value))
  {
    if IsFalsy(file) then
      (false, Some(NoFileMessage))
    else if !HasAllowedExtension(file.value.filename) then
      (false, Some(InvalidTypeMessage(allowedShown)))
    else
      match verify(file.value.stream)
      case None => (true, None)
      case Some(reason) => (false, Some("Invalid image file: " + reason))
  }

  /** Lower-casing commutes with taking a suffix. */
  lemma LowerSuffix(s: string, i: nat)
    requires i <= |s|
    ensures Lower(s)[i..] == Lower(s[i..])
  {
  }

  /** The name check looks only at the last characters: a name is accepted
      exactly when, for some allowed extension, its last |ext| characters
      lower-case to that extension. No dot is needed. */
  lemma HasAllowedExtensionIff(filename: string)
    ensures HasAllowedExtension(filename) <==>
              exists ext :: ext in AllowedExtensions && |ext| <= |filename|
                            && Lower(filename[|filename| - |ext|..]) == ext
  {
    forall ext | ext in AllowedExtensions && |ext| <= |filename|
      ensures EndsWith(Lower(filename), ext) <==> Lower(filename[|filename| - |ext|..]) == ext
    {
      LowerSuffix(filename, |filename| - |ext|);
    }
  }

  /** A suffix test without a dot: "xpng" passes, in any letter case. */
  lemma SuffixWithoutDotAccepted()
    ensures HasAllowedExtension("xpng")
    ensures HasAllowedExtension("Photo.JPEG")
  {
    assert EndsWith(Lower("xpng"), "png");
    assert EndsWith(Lower("Photo.JPEG"), "jpeg");
  }

  /** Every allowed extension has at least three letters and ends in 'g' or
      'p', so an accepted name does too; "image.gif", "png.txt" and "" are refused. */
  lemma AcceptedNameEndsInGOrP(filename: string)
    requires HasAllowedExtension(filename)
    ensures |filename| >= 3
    ensures LowerChar(filename[|filename| - 1]) == 'g' || LowerChar(filename[|filename| - 1]) == 'p'
  {
  }

  /** A refused name never reaches the decoder: the outcome is the same
      whatever the decoder would have said. */
  lemma RefusedNameNeverDecoded(file: Option<Upload>, verify1: seq<bv8> -> Option<string>,
                                verify2: seq<bv8> -> Option<string>, allowedShown: string)
    requires IsFalsy(file) || !HasAllowedExtension(file.value.filename)
    ensures ValidateImage(file, verify1, allowedShown) == ValidateImage(file, verify2, allowedShown)
  {
  }

  // ---------------------------------------------------------------------
  // Size normalisation
  // ---------------------------------------------------------------------

  /** `d - (d % 8)`: the largest multiple of 8 not above d. */
  function RoundDownTo8(d: nat): (r: nat)
    ensures r % 8 == 0
    ensures r <= d < r + 8
    ensures d < 8 ==> r == 0
    ensures d % 8 == 0 ==> r == d
  {
    d - d % 8
  }

  /** No multiple of 8 lies strictly between RoundDownTo8(d) and d. */
  lemma RoundDownTo8IsLargest(d: nat, m: nat)
    requires m % 8 == 0 && m <= d
    ensures m <= RoundDownTo8(d)
  {
  }

  /** Rounding down twice is rounding down once. */
  lemma RoundDownTo8Idempotent(d: nat)
    ensures RoundDownTo8(RoundDownTo8(d)) == RoundDownTo8(d)
  {
  }

  /** The target size of `resize_to_divisible_by_8`. */
  function DivisibleBy8Size(width: nat, height: nat): (r: (nat, nat))
    ensures r.0 % 8 == 0 && r.1 % 8 == 0
    ensures r.0 <= width < r.0 + 8 && r.1 <= height < r.1 + 8
  {
    (RoundDownTo8(width), RoundDownTo8(height))
  }

  /** `resize_to_divisible_by_8`: the image resampled (by the Lanczos filter,
      given as `lanczos`) to its size truncated to multiples of 8. */
  function ResizeToDivisibleBy8<P>(image: Image<P>, lanczos: Sampler<P>): (r: Image<P>)
    ensures r.Valid()
    ensures r.Size() == DivisibleBy8Size(image.width, image.height)
  {
    var (newWidth, newHeight) := DivisibleBy8Size(image.width, image.height);
    Resize(image, newWidth, newHeight, lanczos)
  }

  /** Normalising an already normalised image keeps its size. */
  lemma ResizeToDivisibleBy8SizeIdempotent<P>(image: Image<P>, lanczos: Sampler<P>)
    ensures ResizeToDivisibleBy8(ResizeToDivisibleBy8(image, lanczos), lanczos).Size()
            == ResizeToDivisibleBy8(image, lanczos).Size()
  {
  }

  // ---------------------------------------------------------------------
  // Mask rasterisation
  // ---------------------------------------------------------------------

  /** A coordinate fraction num/den as the request supplies it. */
  datatype Fraction = Fraction(num: int, den: nat)
  {
    predicate Valid() { den > 0 }
  }

  const DefaultNear := Fraction(1, 10)   // 0.1, for 'top' and 'left'
  const DefaultFar := Fraction(9, 10)    // 0.9, for 'bottom' and 'right'

  /** `coordinates.get(key, default)`. */
  function GetFraction(coordinates: map<string, Fraction>, key: string, default: Fraction): Fraction {
    if key in coordinates then coordinates[key] else default
  }

  predicate ValidCoordinates(coordinates: map<string, Fraction>) {
    forall k :: k in coordinates ==> coordinates[k].Valid()
  }

  /** Python's `int()` of the rational a / b: truncation toward zero. */
  function TruncDiv(a: int, b: nat): (q: int)
    requires b > 0
    ensures a >= 0 ==> q >= 0 && q * b <= a < (q + 1) * b
    ensures a < 0 ==> q <= 0 && (q - 1) * b < a <= q * b
  {
    if a >= 0 then a / b else -((-a) / b)
  }

  /** `int(dimension * fraction)`. */
  function PixelBound(dimension: nat, f: Fraction): int
    requires f.Valid()
  {
    TruncDiv(dimension * f.num, f.den)
  }

  /** The rectangle handed to `draw.rectangle([left, top, right, bottom])`. */
  datatype Rect = Rect(left: int, top: int, right: int, bottom: int)

  function MaskRect(imageSize: (nat, nat), coordinates: map<string, Fraction>): (b: Rect)
    requires ValidCoordinates(coordinates)
  {
    var (imgWidth, imgHeight) := imageSize;
    Rect(PixelBound(imgWidth, GetFraction(coordinates, "left", DefaultNear)),
         PixelBound(imgHeight, GetFraction(coordinates, "top", DefaultNear)),
         PixelBound(imgWidth, GetFraction(coordinates, "right", DefaultFar)),
         PixelBound(imgHeight, GetFraction(coordinates, "bottom", DefaultFar)))
  }

  /** The filled rectangle includes both of its corners. */
  predicate Inside(b: Rect, x: int, y: int) {
    b.left <= x <= b.right && b.top <= y <= b.bottom
  }

  /** The mask the helper returns: black everywhere except the rectangle,
      clipped to the canvas, which is white. */
  function MaskOf(imageSize: (nat, nat), coordinates: map<string, Fraction>): (mask: Image<Rgb>)
    requires ValidCoordinates(coordinates)
    ensures mask.Valid() && mask.Size() == imageSize
  {
    var b := MaskRect(imageSize, coordinates);
    Image(imageSize.0, imageSize.1,
      seq(imageSize.1, y => seq(imageSize.0, x => if Inside(b, x, y) then White else Black)))
  }

  function Clamp(v: int, lo: int, hi: int): (r: int)
    requires lo <= hi
    ensures lo <= r <= hi
    ensures lo <= v <= hi ==> r == v
  {
    if v < lo then lo else if v > hi then hi else v
  }

  /** `create_mask_from_coordinates`: a black canvas of the image's size on which
      the rectangle is filled white in place, one clipped row at a time. */
  method CreateMaskFromCoordinates(imageSize: (nat, nat), coordinates: map<string, Fraction>)
    returns (mask: Image<Rgb>)
    requires ValidCoordinates(coordinates)
    requires MaskRect(imageSize, coordinates).left <= MaskRect(imageSize, coordinates).right
    requires MaskRect(imageSize, coordinates).top <= MaskRect(imageSize, coordinates).bottom
    ensures mask.Valid() && mask.Size() == imageSize
    ensures forall y, x :: 0 <= y < mask.height && 0 <= x < mask.width ==>
              mask.rows[y][x] == if Inside(MaskRect(imageSize, coordinates), x, y) then White else Black
    ensures mask == MaskOf(imageSize, coordinates)
  {
    var (imgWidth, imgHeight) := imageSize;
    var canvas := new Rgb[imgHeight, imgWidth]((y, x) => Black);
    var b := MaskRect(imageSize, coordinates);
    // Only the part of the rectangle on the canvas is painted.
    var x0, x1 := Clamp(b.left, 0, imgWidth), Clamp(b.right + 1, 0, imgWidth);
    var y0, y1 := Clamp(b.top, 0, imgHeight), Clamp(b.bottom + 1, 0, imgHeight);
    var y := y0;
    while y < y1
      invariant y0 <= y <= y1
      invariant forall i, j :: 0 <= i < imgHeight && 0 <= j < imgWidth ==>
                  canvas[i, j] == if y0 <= i < y && x0 <= j < x1 then White else Black
    {
      var x := x0;
      while x < x1
        invariant x0 <= x <= x1
        invariant forall i, j :: 0 <= i < imgHeight && 0 <= j < imgWidth ==>
                    canvas[i, j] == if (y0 <= i < y && x0 <= j < x1) || (i == y && x0 <= j < x) then White else Black
      {
        canvas[y, x] := White;
        x := x + 1;
      }
      y := y + 1;
    }
    mask := Image(imgWidth, imgHeight,
      seq(imgHeight, (i: int) requires 0 <= i < imgHeight reads canvas =>
        seq(imgWidth, (j: int) requires 0 <= j < imgWidth reads canvas => canvas[i, j])));
    ImageExtensionality(mask, MaskOf(imageSize, coordinates));
  }

  /** The fractions top = 0, bottom = 1, left = 0, right = 1. */
  const FullFrame: map<string, Fraction> :=
    map["top" := Fraction(0, 1), "bottom" := Fraction(1, 1), "left" := Fraction(0, 1), "right" := Fraction(1, 1)]

  /** The full-frame fractions give an all-white mask: the rectangle reaches
      (width, height), one past the last pixel, and is clipped there. */
  lemma FullFrameMaskAllWhite(imageSize: (nat, nat))
    ensures ValidCoordinates(FullFrame)
    ensures MaskRect(imageSize, FullFrame) == Rect(0, 0, imageSize.0, imageSize.1)
    ensures forall y, x :: 0 <= y < imageSize.1 && 0 <= x < imageSize.0 ==>
              MaskOf(imageSize, FullFrame).rows[y][x] == White
  {
  }

  /** With no coordinates at all the rectangle spans from a tenth to nine
      tenths of each dimension, truncated. */
  lemma DefaultRect(imageSize: (nat, nat))
    ensures MaskRect(imageSize, map[]) ==
              Rect(imageSize.0 / 10, imageSize.1 / 10, (9 * imageSize.0) / 10, (9 * imageSize.1) / 10)
  {
  }

  /** For fractions in [0, 1] the bounds lie within [0, dimension]. */
  lemma PixelBoundInRange(dimension: nat, f: Fraction)
    requires f.Valid() && 0 <= f.num <= f.den
    ensures 0 <= PixelBound(dimension, f) <= dimension
  {
    var a := dimension * f.num;
    var q := TruncDiv(a, f.den);
    MulLeftMonotone(dimension, f.num, f.den);
    assert a <= dimension * f.den;
    assert q * f.den <= a;
    CancelPositiveFactor(q, dimension, f.den);
  }

  lemma MulLeftMonotone(a: nat, b: int, c: int)
    requires b <= c
    ensures a * b <= a * c
  {
    assert a * c - a * b == a * (c - b);
  }

  lemma CancelPositiveFactor(a: int, b: int, c: nat)
    requires c > 0 && a * c <= b * c
    ensures a <= b
  {
    MulStrictlyMonotone(a, b, c);
  }

  lemma MulStrictlyMonotone(a: int, b: int, c: nat)
    requires c > 0
    ensures a > b ==> a * c > b * c
  {
    assert a * c - b * c == (a - b) * c;
  }

}
