/** The slice of the bitmap library that the transform uses: a width x height
    grid of RGB pixels with 8-bit channels, read with Get and written with Set.
    Loading and saving files belong to the library and are not modelled. */
module Bitmaps {

  /** An 8-bit colour channel. */
  newtype Channel = x: int | 0 <= x < 256

  datatype Pixel = Pixel(r: Channel, g: Channel, b: Channel)

  /** The value every pixel of a freshly constructed bitmap holds. */
  const Black := Pixel(0, 0, 0)

  class Bitmap {
    const width: nat
    const height: nat
    /** pixels[x, y] is the pixel in column x of row y. */
    const pixels: array2<Pixel>

    ghost predicate Valid()
      reads this
    {
      pixels.Length0 == width && pixels.Length1 == height
    }

    /** Bitmap(width, height): a grid of default pixels. */
    constructor (w: nat, h: nat)
      ensures Valid() && width == w && height == h && fresh(pixels)
      ensures forall x, y :: 0 <= x < w && 0 <= y < h ==> pixels[x, y] == Black
    {
      width, height := w, h;
      pixels := new Pixel[w, h]((x, y) => Black);
    }

    function Get(x: int, y: int): Pixel
      requires Valid() && 0 <= x < width && 0 <= y < height
      reads this, pixels
    {
      pixels[x, y]
    }

    method Set(x: int, y: int, p: Pixel)
      requires Valid() && 0 <= x < width && 0 <= y < height
      modifies pixels
      ensures pixels[x, y] == p
      ensures forall i, j :: 0 <= i < width && 0 <= j < height && (i != x || j != y) ==>
                pixels[i, j] == old(pixels[i, j])
    {
      pixels[x, y] := p;
    }
  }
}
