/**
 * The raw image of Types/ImageData.cs: a flat array of RGBA pixels addressed row after row,
 * pixel (x, y) at index y * Width + x, with bounds-checked access that ignores positions
 * outside the image.
 */
module Images {
  import opened Wrappers
  import opened Machine

  /** A pixel, X = R, Y = G, Z = B, W = A; single-precision floats are modelled as reals. */
  datatype Vector4 = Vector4(x: real, y: real, z: real, w: real)

  /** `Vector4.Zero`: black and transparent. */
  const Zero: Vector4 := Vector4(0.0, 0.0, 0.0, 0.0)

  /** The `ArgumentException`s of the validating constructor, in the order it checks. */
  datatype ImageError = NonPositiveWidth | NonPositiveHeight | LengthMismatch

  /** "IMGD", the first four bytes `Write` emits. */
  const Magic: seq<byte> := [0x49, 0x4D, 0x47, 0x44]

  /** The number `Read` expects to find first. */
  const MagicNumber: int := 0x44474D49

  /** Read back as a little-endian `uint`, the bytes `Write` emits are the number `Read` checks, and nothing else is. */
  lemma MagicAgrees()
    ensures UInt32FromLittleEndian(Magic) == MagicNumber
    ensures LittleEndian32(MagicNumber) == Magic
    ensures forall b: seq<byte> :: |b| == 4 && UInt32FromLittleEndian(b) == MagicNumber ==> b == Magic
  {
    forall b: seq<byte> | |b| == 4 && UInt32FromLittleEndian(b) == MagicNumber ensures b == Magic {
      UInt32FromLittleEndianInjective(b, Magic);
    }
  }

  class ImageData {
    const width: int
    const height: int
    const data: array<Vector4>

    /** Every position in bounds has its pixel in the array. */
    ghost predicate Valid()
    {
      forall x, y :: IsInBounds(x, y) ==> 0 <= Index(x, y) < data.Length
    }

    /** The pixel array has exactly width * height entries, which makes the image valid. */
    lemma PixelsInRange()
      requires data.Length == width * height
      ensures Valid()
    {
      forall x, y | IsInBounds(x, y) ensures 0 <= Index(x, y) < data.Length {
        MultiplyMonotone(y + 1, height, width);
        assert (y + 1) * width == y * width + width;
      }
    }

    /** `ImageData(width, height)`: every pixel black and transparent, with no check of the sizes. */
    constructor (width: int, height: int)
      requires 0 <= width * height
      ensures this.width == width && this.height == height
      ensures fresh(data) && data.Length == width * height && Valid()
      ensures forall i :: 0 <= i < data.Length ==> data[i] == Zero
    {
      this.width := width;
      this.height := height;
      data := new Vector4[width * height](_ => Zero);
      new;
      PixelsInRange();
    }

    /** `ImageData(width, height, data)` once its checks have passed; the array is shared, not copied. */
    constructor WithData(width: int, height: int, data: array<Vector4>)
      requires 0 < width && 0 < height && data.Length == width * height
      ensures this.width == width && this.height == height && this.data == data && Valid()
    {
      this.width := width;
      this.height := height;
      this.data := data;
      new;
      PixelsInRange();
    }

    /** `ImageData(width, height, data)`: the width, then the height, then the length of the array is checked. */
    static method Create(width: int, height: int, data: array<Vector4>) returns (r: Result<ImageData, ImageError>)
      ensures r.Err? <==> width <= 0 || height <= 0 || data.Length != width * height
      ensures width <= 0 ==> r == Err(NonPositiveWidth)
      ensures 0 < width && height <= 0 ==> r == Err(NonPositiveHeight)
      ensures 0 < width && 0 < height && data.Length != width * height ==> r == Err(LengthMismatch)
      ensures r.Ok? ==> r.value.width == width && r.value.height == height && r.value.data == data && r.value.Valid()
    {
      if width <= 0 {
        return Err(NonPositiveWidth);
      }
      if height <= 0 {
        return Err(NonPositiveHeight);
      }
      if data.Length != width * height {
        return Err(LengthMismatch);
      }
      var image := new ImageData.WithData(width, height, data);
      return Ok(image);
    }

    function Index(x: int, y: int): int
    {
      y * width + x
    }

    predicate IsInBounds(x: int, y: int)
    {
      x >= 0 && x < width && y >= 0 && y < height
    }

    /** The indexer's getter. */
    function Get(x: int, y: int): (r: Vector4)
      requires Valid()
      reads data
      ensures IsInBounds(x, y) ==> r == data[y * width + x]
      ensures !IsInBounds(x, y) ==> r == Zero
    {
      if IsInBounds(x, y) then data[Index(x, y)] else Zero
    }

    /**
     * The indexer's setter: in bounds the one pixel is written, so that reading it back gives
     * `value` and every other pixel in bounds reads as before; out of bounds nothing happens.
     */
    method Set(x: int, y: int, value: Vector4)
      requires Valid()
      modifies data
      ensures IsInBounds(x, y) ==> data[..] == old(data[..])[Index(x, y) := value] && Get(x, y) == value
      ensures IsInBounds(x, y) ==> forall u, v :: IsInBounds(u, v) && (u, v) != (x, y) ==> Get(u, v) == old(Get(u, v))
      ensures !IsInBounds(x, y) ==> unchanged(data)
    {
      if !IsInBounds(x, y) {
        return;
      }
      data[Index(x, y)] := value;
      forall u, v | IsInBounds(u, v) && (u, v) != (x, y) ensures data[Index(u, v)] == old(data[Index(u, v)]) {
        if Index(u, v) == Index(x, y) {
          SameIndex(u, v, x, y);
        }
      }
    }

    /** Two positions in bounds with the same index are the same position. */
    lemma SameIndex(x1: int, y1: int, x2: int, y2: int)
      requires IsInBounds(x1, y1) && IsInBounds(x2, y2) && Index(x1, y1) == Index(x2, y2)
      ensures x1 == x2 && y1 == y2
    {
      if y1 < y2 {
        MultiplyMonotone(y1 + 1, y2, width);
      } else if y2 < y1 {
        MultiplyMonotone(y2 + 1, y1, width);
      }
    }
  }
}
