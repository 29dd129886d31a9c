/**
 * The buffer `main` allocates before rendering and the loop that turns the
 * finished buffer into an RGB image: pixel (x, y) reads the packed word at
 * the row-major offset y*width + x and splits it into its three bytes.
 */
module ImageFill {
  import opened Unsigned
  import opened PackedColour

  /** The row-major offset of pixel (x, y), always inside a width*height buffer. */
  function PixelIndex(x: nat, y: nat, width: nat, height: nat): (i: nat)
    requires x < width && y < height
    ensures i < width * height
    ensures i / width == y && i % width == x
  {
    RowMajorBound(x, y, width, height);
    y * width + x
  }

  /** The bound and the division facts behind PixelIndex. */
  lemma RowMajorBound(x: nat, y: nat, width: nat, height: nat)
    requires x < width && y < height
    ensures y * width + x < width * height
    ensures (y * width + x) / width == y && (y * width + x) % width == x
  {
    assert y * width + x < (y + 1) * width;
    assert (y + 1) * width <= height * width by {
      MulMonotone(y + 1, height, width);
    }
    DivModRowMajor(x, y, width);
  }

  /** Multiplying by a natural number keeps the order. */
  lemma {:induction false} MulMonotone(a: nat, b: nat, c: nat)
    requires a <= b
    ensures a * c <= b * c
  {
    if a < b {
      MulMonotone(a, b - 1, c);
      assert b * c == (b - 1) * c + c;
    }
  }

  /** y*width + x with x < width has quotient y and remainder x. */
  lemma DivModRowMajor(x: nat, y: nat, width: nat)
    requires x < width
    ensures (y * width + x) / width == y && (y * width + x) % width == x
  {
    var n := y * width + x;
    var q, r := n / width, n % width;
    assert n == q * width + r && 0 <= r < width;
    if q > y {
      assert (q - y) * width == q * width - y * width;
      MulMonotone(1, q - y, width);
    } else if q < y {
      assert (y - q) * width == y * width - q * width;
      MulMonotone(1, y - q, width);
    }
  }

  /** Distinct pixels read distinct buffer slots. */
  lemma PixelIndexInjective(x: nat, y: nat, x': nat, y': nat, width: nat, height: nat)
    requires x < width && y < height && x' < width && y' < height
    ensures PixelIndex(x, y, width, height) == PixelIndex(x', y', width, height) <==> x == x' && y == y'
  {
  }

  /** Every slot of the buffer is read by some pixel: the one at (i % width, i / width). */
  lemma PixelIndexOnto(i: nat, width: nat, height: nat)
    requires i < width * height
    ensures 0 < width && i % width < width && i / width < height
    ensures PixelIndex(i % width, i / width, width, height) == i
  {
    if width == 0 {
      assert false;
    }
    if i / width >= height {
      MulMonotone(height, i / width, width);
    }
  }

  /** The zero-filled buffer of `main`'s `vec![0; width*height]`: width*height packed colours. */
  method NewBuffer(width: U32, height: U32) returns (buffer: array<bv32>)
    requires width * height < U32_LIMIT
    ensures fresh(buffer)
    ensures buffer.Length == width * height
    ensures forall i :: 0 <= i < buffer.Length ==> buffer[i] == 0
  {
    buffer := new bv32[width * height](_ => 0);
  }

  /**
   * The image loop of `main`: visits the pixels row by row and gives each one
   * the decoded colour of its slot. The image is indexed img[x, y].
   */
  method FillImage(buffer: array<bv32>, width: U32, height: U32) returns (img: array2<Rgb>)
    requires buffer.Length == width * height
    ensures fresh(img)
    ensures img.Length0 == width && img.Length1 == height
    ensures forall x, y :: 0 <= x < width && 0 <= y < height ==>
      img[x, y] == Decode(buffer[PixelIndex(x, y, width, height)])
  {
    img := new Rgb[width, height]((_, _) => Rgb(0, 0, 0));
    var y := 0;
    while y < height
      invariant 0 <= y <= height
      invariant forall x', y' :: 0 <= x' < width && 0 <= y' < y ==>
        img[x', y'] == Decode(buffer[PixelIndex(x', y', width, height)])
    {
      var x := 0;
      while x < width
        invariant 0 <= x <= width
        invariant forall x', y' :: 0 <= x' < width && 0 <= y' < y ==>
          img[x', y'] == Decode(buffer[PixelIndex(x', y', width, height)])
        invariant forall x' :: 0 <= x' < x ==>
          img[x', y] == Decode(buffer[PixelIndex(x', y, width, height)])
      {
        img[x, y] := Decode(buffer[PixelIndex(x, y, width, height)]);
        x := x + 1;
      }
      y := y + 1;
    }
  }
}
