/** Colour sources of src/texture.rs: constant, checker and image textures. */
module Textures {
  import opened Numerics
  import opened Vectors

  newtype byte = x: int | 0 <= x < 256

  /** A raw row-major RGB buffer of nx by ny pixels. */
  datatype RawImage = RawImage(data: seq<byte>, nx: nat, ny: nat)

  /** What `ImageTexture::value` needs to run without a panic: a non-empty
      image (`nx - 1` and `ny - 1` must not underflow) and a buffer holding
      three bytes for every pixel. */
  predicate WellFormed(img: RawImage) {
    1 <= img.nx && 1 <= img.ny && 3 * img.nx * img.ny <= |img.data|
  }

  type Image = img: RawImage | WellFormed(img) witness RawImage([0, 0, 0], 1, 1)

  datatype Texture =
    | ConstantTexture(color: Vec3)
    | CheckerTexture(odd: Texture, even: Texture)
    | ImageTexture(image: Image)

  /** The pixel column and row `ImageTexture::value` reads for (u, v): the
      truncated image coordinates, clamped to the last column and row. */
  function PixelCoordinates(img: Image, u: real, v: real): (ij: (nat, nat))
    ensures ij.0 < img.nx && ij.1 < img.ny
    ensures AsUsize(u * img.nx as real) < img.nx ==> ij.0 == AsUsize(u * img.nx as real)
    ensures AsUsize(u * img.nx as real) >= img.nx ==> ij.0 == img.nx - 1
    ensures AsUsize((1.0 - v) * img.ny as real) < img.ny ==> ij.1 == AsUsize((1.0 - v) * img.ny as real)
    ensures AsUsize((1.0 - v) * img.ny as real) >= img.ny ==> ij.1 == img.ny - 1
  {
    var i := AsUsize(u * img.nx as real);
    var j := AsUsize((1.0 - v) * img.ny as real);
    var i := if i > img.nx - 1 then img.nx - 1 else i;
    var j := if j > img.ny - 1 then img.ny - 1 else j;
    (i, j)
  }

  /** The byte offset of the red channel of pixel (i, j). */
  function PixelIndex(img: Image, i: nat, j: nat): (idx: nat)
    requires i < img.nx && j < img.ny
    ensures idx + 2 < |img.data|
  {
    IndexInBounds(img.nx, img.ny, i, j, |img.data|);
    3 * i + 3 * img.nx * j
  }

  /** With i < nx, j < ny and 3·nx·ny bytes, the three channel offsets are in bounds. */
  lemma IndexInBounds(nx: nat, ny: nat, i: nat, j: nat, len: nat)
    requires i < nx && j < ny && 3 * nx * ny <= len
    ensures 3 * i + 3 * nx * j + 2 < len
  {
    assert nx * j <= nx * (ny - 1) by {
      assert j <= ny - 1;
    }
    assert nx * (ny - 1) == nx * ny - nx;
  }

  function Channel(b: byte): real {
    b as real / 255.0
  }

  /** `Texture::value`; the checker's sin is the library function in `m`. */
  function Value(tex: Texture, u: real, v: real, p: Vec3, m: Math): Vec3 {
    match tex
    case ConstantTexture(color) => color
    case CheckerTexture(odd, even) =>
      var sines := m.sin(10.0 * p.x) * m.sin(10.0 * p.y) * m.sin(10.0 * p.z);
      if sines < 0.0 then Value(odd, u, v, p, m) else Value(even, u, v, p, m)
    case ImageTexture(img) =>
      var (i, j) := PixelCoordinates(img, u, v);
      var idx := PixelIndex(img, i, j);
      Vec3(Channel(img.data[idx]), Channel(img.data[idx + 1]), Channel(img.data[idx + 2]))
  }

  /** A constant texture ignores u, v and p. */
  lemma ConstantIgnoresInputs(c: Vec3, u: real, v: real, p: Vec3, m: Math)
    ensures Value(ConstantTexture(c), u, v, p, m) == c
  {
  }

  /** The checker picks the odd texture exactly where the product of sines is negative. */
  lemma CheckerPicksBySign(odd: Texture, even: Texture, u: real, v: real, p: Vec3, m: Math)
    ensures var sines := m.sin(10.0 * p.x) * m.sin(10.0 * p.y) * m.sin(10.0 * p.z);
            && (sines < 0.0 ==> Value(CheckerTexture(odd, even), u, v, p, m) == Value(odd, u, v, p, m))
            && (sines >= 0.0 ==> Value(CheckerTexture(odd, even), u, v, p, m) == Value(even, u, v, p, m))
  {
  }

  /** An image texture returns the bytes of the clamped pixel, each scaled to [0, 1]. */
  lemma ImageValueInUnitCube(img: Image, u: real, v: real, p: Vec3, m: Math)
    ensures var c := Value(ImageTexture(img), u, v, p, m);
            && 0.0 <= c.x <= 1.0 && 0.0 <= c.y <= 1.0 && 0.0 <= c.z <= 1.0
  {
  }

  /** Every colour a texture returns comes from a constant leaf or an image:
      a texture built from colours in the unit cube stays in the unit cube. */
  lemma {:induction false} ValueInUnitCube(tex: Texture, u: real, v: real, p: Vec3, m: Math)
    requires UnitColors(tex)
    ensures InUnitCube(Value(tex, u, v, p, m))
  {
    match tex
    case ConstantTexture(c) =>
    case CheckerTexture(odd, even) =>
      ValueInUnitCube(odd, u, v, p, m);
      ValueInUnitCube(even, u, v, p, m);
    case ImageTexture(img) =>
      ImageValueInUnitCube(img, u, v, p, m);
  }

  predicate InUnitCube(c: Vec3) {
    0.0 <= c.x <= 1.0 && 0.0 <= c.y <= 1.0 && 0.0 <= c.z <= 1.0
  }

  /** Every constant leaf of the texture is a colour in the unit cube. */
  predicate UnitColors(tex: Texture) {
    match tex
    case ConstantTexture(c) => InUnitCube(c)
    case CheckerTexture(odd, even) => UnitColors(odd) && UnitColors(even)
    case ImageTexture(_) => true
  }

  /** `clamp(x, max)`: `x.min(0.0).max(max)`. */
  function Clamp(x: real, max: real): (r: real)
    ensures r >= max && r >= (if x < 0.0 then x else 0.0)
    ensures r == max || r == (if x < 0.0 then x else 0.0)
  {
    var low := if x < 0.0 then x else 0.0;
    if low > max then low else max
  }

  /** As written, clamp returns its bound whenever the bound is non-negative. */
  lemma ClampReturnsBound(x: real, max: real)
    requires max >= 0.0
    ensures Clamp(x, max) == max
  {
  }
}
