/**
 * The row-stride layout every encoder in the repository produces: each image
 * row as 3·width pixel bytes, followed by zero bytes up to the row stride.
 * This module holds the specification the encoder methods are proved against,
 * the inverse that reads a buffer back, and the facts about both.
 */
module Stride {
  import opened Pixels

  /** The three bytes of one pixel, in the order its channels are stored. */
  function PixelBytes(p: Pixel): seq<byte>
  {
    [p.r, p.g, p.b]
  }

  /** Channel reversal as numpy's `arr[:, :, ::-1]` does it, pixel by pixel. */
  function Reversed(p: Pixel): Pixel
  {
    Pixel(p.b, p.g, p.r)
  }

  /** `arr[:, :, ::-1]` on a whole grid. */
  function ReverseChannels(rows: seq<seq<Pixel>>): (out: seq<seq<Pixel>>)
    ensures |out| == |rows|
    ensures forall y :: 0 <= y < |rows| ==> |out[y]| == |rows[y]|
  {
    seq(|rows|, y requires 0 <= y < |rows| =>
      seq(|rows[y]|, x requires 0 <= x < |rows[y]| => Reversed(rows[y][x])))
  }

  /** The grid the encoders serialise: reversed when `swap` is set. */
  function Oriented(rows: seq<seq<Pixel>>, swap: bool): seq<seq<Pixel>>
  {
    if swap then ReverseChannels(rows) else rows
  }

  /** `arr[y].tobytes()`: the pixels' bytes back to back. */
  function RowBytes(row: seq<Pixel>): (bs: seq<byte>)
    ensures |bs| == 3 * |row|
  {
    if row == [] then [] else RowBytes(row[..|row| - 1]) + PixelBytes(row[|row| - 1])
  }

  /** Every row's bytes, each followed by `pad` zero bytes. */
  function Encode(rows: seq<seq<Pixel>>, pad: nat): seq<byte>
  {
    if rows == [] then []
    else Encode(rows[..|rows| - 1], pad) + RowBytes(rows[|rows| - 1]) + Zeros(pad)
  }

  /** Padding per row for a stride: `stride - 3·width` when positive, else none. */
  function PadFor(width: nat, stride: int): nat
  {
    if stride > 3 * width then stride - 3 * width else 0
  }

  /**
   * The buffer the Python encoders produce for `img` with row stride `stride`,
   * channels reversed when `swap` is set.
   */
  function EncodeImage(img: Image, stride: int, swap: bool): seq<byte>
  {
    Encode(Oriented(img.rows, swap), PadFor(img.width, stride))
  }

  /** Every row of the grid has `w` pixels. */
  ghost predicate Uniform(rows: seq<seq<Pixel>>, w: nat)
  {
    forall y :: 0 <= y < |rows| ==> |rows[y]| == w
  }

  // ---------------------------------------------------------------------
  // Channel reversal

  lemma ReversedTwice(p: Pixel)
    ensures Reversed(Reversed(p)) == p
    ensures PixelBytes(Reversed(p)) == [p.b, p.g, p.r]
  {
  }

  /** Reversing the channels of a grid twice gives the grid back. */
  lemma {:induction false} ReverseChannelsInvolution(rows: seq<seq<Pixel>>)
    ensures ReverseChannels(ReverseChannels(rows)) == rows
  {
    var twice := ReverseChannels(ReverseChannels(rows));
    forall y | 0 <= y < |rows| ensures twice[y] == rows[y] {
      forall x | 0 <= x < |rows[y]| ensures twice[y][x] == rows[y][x] {
        ReversedTwice(rows[y][x]);
      }
    }
  }

  lemma OrientedValid(img: Image, swap: bool)
    requires Valid(img)
    ensures |Oriented(img.rows, swap)| == img.height
    ensures Uniform(Oriented(img.rows, swap), img.width)
  {
  }

  // ---------------------------------------------------------------------
  // Length and content of the layout

  /** Byte `3·x + k` of a serialised row is channel `k` of pixel `x`. */
  lemma {:induction false} RowBytesAt(row: seq<Pixel>, x: nat, k: nat)
    requires x < |row| && k < 3
    ensures RowBytes(row)[3 * x + k] == PixelBytes(row[x])[k]
  {
    var n := |row|;
    assert RowBytes(row) == RowBytes(row[..n - 1]) + PixelBytes(row[n - 1]);
    if x < n - 1 {
      RowBytesAt(row[..n - 1], x, k);
    }
  }

  /** Serialising one more row appends its bytes and `pad` zeros. */
  lemma EncodeStep(rows: seq<seq<Pixel>>, y: nat, pad: nat)
    requires y < |rows|
    ensures Encode(rows[..y + 1], pad) == Encode(rows[..y], pad) + RowBytes(rows[y]) + Zeros(pad)
  {
    assert rows[..y + 1][..y] == rows[..y];
  }

  /** A grid of `h` rows of `w` pixels serialises to `h·(3w + pad)` bytes. */
  lemma {:induction false} EncodeLength(rows: seq<seq<Pixel>>, w: nat, pad: nat)
    requires Uniform(rows, w)
    ensures |Encode(rows, pad)| == |rows| * (3 * w + pad)
  {
    if rows != [] {
      var n, s := |rows|, 3 * w + pad;
      var prefix := rows[..n - 1];
      assert Uniform(prefix, w) by {
        forall y | 0 <= y < |prefix| ensures |prefix[y]| == w {
          assert prefix[y] == rows[y];
        }
      }
      EncodeLength(prefix, w, pad);
      assert |RowBytes(rows[n - 1])| == 3 * w;
      assert |Encode(rows, pad)| == |Encode(prefix, pad)| + s;
      MulPred(n, s);
    }
  }

  lemma MulPred(n: nat, s: nat)
    requires n > 0
    ensures (n - 1) * s + s == n * s
  {
  }

  /**
   * Row `y` of the buffer occupies `[y·S, (y+1)·S)` with `S = 3w + pad`: its
   * first `3w` bytes are the row's pixel bytes and the rest are zero.
   */
  lemma {:induction false} EncodeAt(rows: seq<seq<Pixel>>, w: nat, pad: nat, y: nat, c: nat)
    requires Uniform(rows, w)
    requires y < |rows| && c < 3 * w + pad
    ensures |Encode(rows, pad)| == |rows| * (3 * w + pad)
    ensures y * (3 * w + pad) + c < |Encode(rows, pad)|
    ensures Encode(rows, pad)[y * (3 * w + pad) + c] ==
              if c < 3 * w then RowBytes(rows[y])[c] else 0
  {
    var n, s := |rows|, 3 * w + pad;
    EncodeLength(rows, w, pad);
    var prefix := rows[..n - 1];
    EncodeLength(prefix, w, pad);
    assert Encode(rows, pad) == Encode(prefix, pad) + RowBytes(rows[n - 1]) + Zeros(pad);
    RowInside(y, c, s, n);
    if y < n - 1 {
      RowInside(y, c, s, n - 1);
      EncodeAt(prefix, w, pad, y, c);
    } else {
      assert y * s + c == (n - 1) * s + c;
    }
  }

  lemma RowInside(y: nat, c: nat, s: nat, n: nat)
    requires y < n && c < s
    ensures y * s + c < n * s
  {
    var d: nat := n - (y + 1);
    assert (y + 1) * s == y * s + s;
    assert n * s == (y + 1) * s + d * s;
  }

  /**
   * The pixel bytes and the padding of a buffer encoded from a valid image,
   * stated position by position for the stride the caller asked for.
   */
  lemma EncodeImageAt(img: Image, stride: int, swap: bool, y: nat, x: nat, k: nat)
    requires Valid(img) && stride >= 3 * img.width
    requires y < img.height && x < img.width && k < 3
    ensures |EncodeImage(img, stride, swap)| == img.height * stride
    ensures y * stride + 3 * x + k < img.height * stride
    ensures EncodeImage(img, stride, swap)[y * stride + 3 * x + k] ==
              PixelBytes(if swap then Reversed(img.rows[y][x]) else img.rows[y][x])[k]
  {
    var rows := Oriented(img.rows, swap);
    OrientedValid(img, swap);
    EncodeAt(rows, img.width, PadFor(img.width, stride), y, 3 * x + k);
    RowBytesAt(rows[y], x, k);
  }

  lemma EncodeImagePadding(img: Image, stride: int, swap: bool, y: nat, c: nat)
    requires Valid(img) && stride >= 3 * img.width
    requires y < img.height && 3 * img.width <= c < stride
    ensures |EncodeImage(img, stride, swap)| == img.height * stride
    ensures y * stride + c < img.height * stride
    ensures EncodeImage(img, stride, swap)[y * stride + c] == 0
  {
    OrientedValid(img, swap);
    EncodeAt(Oriented(img.rows, swap), img.width, PadFor(img.width, stride), y, c);
  }

  /**
   * Whatever the stride, the buffer holds `height` rows of
   * `max(stride, 3·width)` bytes: a stride below `3·width` neither adds
   * padding nor truncates a row.
   */
  lemma EncodeImageLength(img: Image, stride: int, swap: bool)
    requires Valid(img)
    ensures |EncodeImage(img, stride, swap)| ==
              img.height * (if stride > 3 * img.width then stride else 3 * img.width)
  {
    OrientedValid(img, swap);
    EncodeLength(Oriented(img.rows, swap), img.width, PadFor(img.width, stride));
  }

  // ---------------------------------------------------------------------
  // Reading a buffer back

  /** The `w`×`h` grid a reader with row stride `stride` sees in `buf`. */
  function Decode(buf: seq<byte>, w: nat, h: nat, stride: nat): (rows: seq<seq<Pixel>>)
    requires 3 * w <= stride && |buf| == h * stride
    ensures |rows| == h && Uniform(rows, w)
  {
    seq(h, y requires 0 <= y < h =>
      seq(w, x requires 0 <= x < w =>
        PixelAt(buf, w, h, stride, y, x)))
  }

  function PixelAt(buf: seq<byte>, w: nat, h: nat, stride: nat, y: nat, x: nat): Pixel
    requires 3 * w <= stride && |buf| == h * stride
    requires y < h && x < w
  {
    RowInside(y, 3 * x + 2, stride, h);
    var i := y * stride + 3 * x;
    Pixel(buf[i], buf[i + 1], buf[i + 2])
  }

  /**
   * Round trip: reading an encoded buffer back with the same width, height
   * and stride yields the image's rows, channel-reversed when the encoder
   * reversed them.
   */
  lemma DecodeEncode(img: Image, stride: nat, swap: bool)
    requires Valid(img) && stride >= 3 * img.width
    ensures |EncodeImage(img, stride, swap)| == img.height * stride
    ensures Decode(EncodeImage(img, stride, swap), img.width, img.height, stride) ==
              Oriented(img.rows, swap)
  {
    EncodeImageLength(img, stride, swap);
    var buf := EncodeImage(img, stride, swap);
    var back := Decode(buf, img.width, img.height, stride);
    var rows := Oriented(img.rows, swap);
    OrientedValid(img, swap);
    forall y | 0 <= y < img.height ensures back[y] == rows[y] {
      forall x | 0 <= x < img.width ensures back[y][x] == rows[y][x] {
        EncodeImageAt(img, stride, swap, y, x, 0);
        EncodeImageAt(img, stride, swap, y, x, 1);
        EncodeImageAt(img, stride, swap, y, x, 2);
      }
    }
  }

  /**
   * Encoding with the channels reversed and reading back with them reversed
   * again recovers the original channel order.
   */
  lemma SwapRoundTrip(img: Image, stride: nat)
    requires Valid(img) && stride >= 3 * img.width
    ensures |EncodeImage(img, stride, true)| == img.height * stride
    ensures ReverseChannels(Decode(EncodeImage(img, stride, true), img.width, img.height, stride)) ==
              img.rows
  {
    DecodeEncode(img, stride, true);
    ReverseChannelsInvolution(img.rows);
  }
}
