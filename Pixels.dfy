/**
 * Pixel grids as the Python scripts see them after `Image.convert("RGB")` and
 * `np.array(image)`: `height` rows of `width` pixels, three 8-bit channels each.
 */
module Pixels {

  datatype Option<T> = None | Some(value: T)

  /** An unsigned 8-bit value: a colour channel, or one byte of a buffer. */
  type byte = b: int | 0 <= b < 256

  /** One pixel, channels in the logical order red, green, blue. */
  datatype Pixel = Pixel(r: byte, g: byte, b: byte)

  const Black: Pixel := Pixel(0, 0, 0)

  /** A decoded image; `Valid` ties the dimensions to the rows. */
  datatype Image = Image(width: nat, height: nat, rows: seq<seq<Pixel>>)

  ghost predicate Valid(img: Image)
  {
    |img.rows| == img.height &&
    forall y :: 0 <= y < |img.rows| ==> |img.rows[y]| == img.width
  }

  /** `n` zero bytes: the padding every encoder appends to a row. */
  function Zeros(n: nat): (z: seq<byte>)
    ensures |z| == n
    ensures forall i :: 0 <= i < n ==> z[i] == 0
  {
    seq(n, _ => 0)
  }

  /** A `w`×`h` image filled with black, as `Image.new("RGB", (w, h), (0, 0, 0))`. */
  function Canvas(w: nat, h: nat): (c: Image)
    ensures Valid(c) && c.width == w && c.height == h
    ensures forall y, x :: 0 <= y < h && 0 <= x < w ==> c.rows[y][x] == Black
  {
    Image(w, h, seq(h, _ => seq(w, _ => Black)))
  }

  /**
   * Nearest-neighbour source index for destination index `i` when `srcLen`
   * samples are spread over `dstLen`: `floor(i * srcLen / dstLen)`.
   */
  function NearestIndex(i: nat, srcLen: nat, dstLen: nat): (j: nat)
    requires i < dstLen && 0 < srcLen
    ensures j < srcLen
  {
    ScaledBelow(i, srcLen, dstLen);
    i * srcLen / dstLen
  }

  lemma ScaledBelow(i: nat, n: nat, m: nat)
    requires i < m && 0 < n
    ensures i * n / m < n
  {
    var q := i * n / m;
    assert q * m <= i * n;
    assert i * n < n * m by {
      assert (m - i) * n > 0;
    }
    assert q * m < n * m;
  }

  lemma SameScale(i: nat, n: nat)
    requires 0 < n
    ensures i * n / n == i
  {
    var q: int, r: int, m: int := i * n / n, i * n % n, n;
    assert q * m + r == i * m;
    assert (q - i) * m == -r;
    UnitMultiple(q - i, m);
  }

  /** The only multiple of `n` strictly between `-n` and `n`, from below, is zero. */
  lemma UnitMultiple(d: int, n: int)
    requires n > 0 && -n < d * n <= 0
    ensures d == 0
  {
  }

  /** Dividing `n = d·q + r` by `d` gives back `q` and `r` when `0 <= r < d`. */
  lemma Split(n: int, q: int, r: int, d: int)
    requires 0 <= r < d && n == d * q + r
    ensures n / d == q && n % d == r
  {
    var q', r' := n / d, n % d;
    assert (q' - q) * d == r - r';
    SmallMultiple(q' - q, d);
  }

  /** The only multiple of `n` strictly between `-n` and `n` is zero. */
  lemma SmallMultiple(e: int, n: int)
    requires n > 0 && -n < e * n < n
    ensures e == 0
  {
  }

  /**
   * Resampling to a requested size. The scripts use PIL's LANCZOS filter,
   * which is outside this model; this nearest-neighbour stand-in returns an
   * image of exactly the requested size, which is all the rest of the model
   * relies on (and it returns its input unchanged when the size already
   * matches, as PIL does).
   */
  function Resample(src: Image, w: nat, h: nat): (r: Image)
    requires Valid(src)
    ensures Valid(r) && r.width == w && r.height == h
  {
    if src.width == 0 || src.height == 0 then Canvas(w, h)
    else
      Image(w, h, seq(h, y requires 0 <= y < h =>
        seq(w, x requires 0 <= x < w =>
          src.rows[NearestIndex(y, src.height, h)][NearestIndex(x, src.width, w)])))
  }

  lemma ResampleSameSize(src: Image)
    requires Valid(src)
    ensures Resample(src, src.width, src.height) == src
  {
    var r := Resample(src, src.width, src.height);
    forall y | 0 <= y < src.height ensures r.rows[y] == src.rows[y] {
      if src.width != 0 {
        SameScale(y, src.height);
        forall x | 0 <= x < src.width ensures r.rows[y][x] == src.rows[y][x] {
          SameScale(x, src.width);
        }
      }
    }
  }

  /**
   * `canvas.paste(tile, (x, y))`: every canvas pixel covered by the tile
   * placed with its top-left corner at (x, y) takes the tile's pixel; the rest
   * of the canvas is kept. Offsets may be negative and the tile may be larger
   * than the canvas, in which case the tile is cropped.
   */
  function Paste(canvas: Image, tile: Image, x: int, y: int): (r: Image)
    requires Valid(canvas) && Valid(tile)
    ensures Valid(r) && r.width == canvas.width && r.height == canvas.height
  {
    Image(canvas.width, canvas.height,
      seq(canvas.height, cy requires 0 <= cy < canvas.height =>
        seq(canvas.width, cx requires 0 <= cx < canvas.width =>
          if Covers(tile, x, y, cx, cy) then tile.rows[cy - y][cx - x]
          else canvas.rows[cy][cx])))
  }

  /** A tile of the canvas's own size pasted at the origin replaces it. */
  lemma PasteWhole(canvas: Image, tile: Image)
    requires Valid(canvas) && Valid(tile)
    requires tile.width == canvas.width && tile.height == canvas.height
    ensures Paste(canvas, tile, 0, 0) == tile
  {
    var r := Paste(canvas, tile, 0, 0);
    forall y | 0 <= y < tile.height ensures r.rows[y] == tile.rows[y] {
      forall x | 0 <= x < tile.width ensures r.rows[y][x] == tile.rows[y][x] {
        assert Covers(tile, 0, 0, x, y);
      }
    }
  }

  /** True when canvas position (cx, cy) lies under a tile placed at (x, y). */
  predicate Covers(tile: Image, x: int, y: int, cx: int, cy: int)
  {
    x <= cx < x + tile.width && y <= cy < y + tile.height
  }
}
