/**
  The picture values the helpers work on, and the two image-library operations
  they call (resampling and per-pixel maps), stated on values.

  An image is its width, its height and its pixel rows, top row first. The
  library's resampling filters are not modelled: a resize is given a sampler
  that supplies each target pixel, so only the size of a resized image means
  anything here.
 */
module Imaging {

  datatype Option<+T> = None | Some(value: T)

  datatype Result<+T> = Ok(value: T) | Err(message: string)

  /** One pixel of an "RGB" image. */
  datatype Rgb = Rgb(r: nat, g: nat, b: nat)

  const Black := Rgb(0, 0, 0)
  const White := Rgb(255, 255, 255)

  datatype Image<P> = Image(width: nat, height: nat, rows: seq<seq<P>>)
  {
    /** The raster has exactly `height` rows of exactly `width` pixels. */
    predicate Valid() {
      |rows| == height && forall y :: 0 <= y < |rows| ==> |rows[y]| == width
    }

    /** The library's `image.size`. */
    function Size(): (nat, nat) {
      (width, height)
    }
  }

  /** A resampling filter: given the source image, the target width and height
      and a target column and row, the value of that target pixel. */
  type Sampler<!P> = (Image<P>, nat, nat, nat, nat) -> P

  /** `image.resize((w, h), filter)`: a new image of exactly w by h pixels. */
  function Resize<P>(img: Image<P>, w: nat, h: nat, sample: Sampler<P>): (r: Image<P>)
    ensures r.Valid() && r.width == w && r.height == h
  {
    Image(w, h, seq(h, (y: int) requires 0 <= y < h =>
      seq(w, (x: int) requires 0 <= x < w => sample(img, w, h, x, y))))
  }

  /** A pixel-by-pixel map (`image.point(f)`, or `image.convert(mode)` through a
      per-pixel colour conversion): same size, each pixel replaced by f of it. */
  function MapPixels<P, Q>(img: Image<P>, f: P -> Q): (r: Image<Q>)
    requires img.Valid()
    ensures r.Valid() && r.width == img.width && r.height == img.height
    ensures forall y, x :: 0 <= y < r.height && 0 <= x < r.width ==> r.rows[y][x] == f(img.rows[y][x])
  {
    Image(img.width, img.height,
      seq(img.height, (y: int) requires 0 <= y < img.height =>
        seq(img.width, (x: int) requires 0 <= x < img.width => f(img.rows[y][x]))))
  }

  /** Two valid images of the same size with the same pixels are equal. */
  lemma {:induction false} ImageExtensionality<P>(a: Image<P>, b: Image<P>)
    requires a.Valid() && b.Valid()
    requires a.width == b.width && a.height == b.height
    requires forall y, x :: 0 <= y < a.height && 0 <= x < a.width ==> a.rows[y][x] == b.rows[y][x]
    ensures a == b
  {
    forall y | 0 <= y < a.height
      ensures a.rows[y] == b.rows[y]
    {
      assert |a.rows[y]| == |b.rows[y]| == a.width;
      forall x | 0 <= x < a.width ensures a.rows[y][x] == b.rows[y][x] { }
    }
    assert a.rows == b.rows;
  }

  /** The number of pixels held by a list of rows. */
  function CountPixels<P>(rows: seq<seq<P>>): nat {
    if rows == [] then 0 else |rows[0]| + CountPixels(rows[1..])
  }

  lemma {:induction false} CountRowsOfWidth<P>(rows: seq<seq<P>>, w: nat)
    requires forall y :: 0 <= y < |rows| ==> |rows[y]| == w
    ensures CountPixels(rows) == |rows| * w
  {
    if rows != [] {
      CountRowsOfWidth(rows[1..], w);
    }
  }

  /** A valid image holds width * height pixels. */
  lemma CountPixelsOfValid<P>(img: Image<P>)
    requires img.Valid()
    ensures CountPixels(img.rows) == img.width * img.height
  {
    CountRowsOfWidth(img.rows, img.width);
  }
}
