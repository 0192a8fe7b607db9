/**
 * The byte layout shared by the engine's and the texture manager's row
 * packers: a `u32` pixel occupies four little-endian bytes (blue, green,
 * red, alpha), and row `y` of a padded image starts at byte `y * padded`,
 * the bytes after its `4 * width` pixel bytes being padding.
 */
module RowPadding {
  import opened Ints

  /** `bytemuck::cast_slice` of one pixel on a little-endian target. */
  function WordBytes(c: u32): (b: seq<u8>)
    ensures |b| == 4
  {
    [Blue(c), Green(c), Red(c), Alpha(c)]
  }

  /** The pixel four little-endian bytes spell. */
  function WordOf(b: seq<u8>): u32
    requires |b| == 4
  {
    Pack(b[3], b[2], b[1], b[0])
  }

  lemma WordRoundTrip(c: u32)
    ensures WordOf(WordBytes(c)) == c
  {
    PackUnpack(c);
  }

  lemma BytesRoundTrip(b: seq<u8>)
    requires |b| == 4
    ensures WordBytes(WordOf(b)) == b
  {
    UnpackPack(b[3], b[2], b[1], b[0]);
  }

  /** The bytes of a row of pixels, in order. */
  function RowBytes(row: seq<u32>): (r: seq<u8>)
    ensures |r| == 4 * |row|
  {
    if |row| == 0 then [] else WordBytes(row[0]) + RowBytes(row[1..])
  }

  /** The pixels of a byte row whose length is a multiple of four. */
  function RowWords(bytes: seq<u8>): (r: seq<u32>)
    requires |bytes| % 4 == 0
    ensures 4 * |r| == |bytes|
  {
    if |bytes| == 0 then [] else [WordOf(bytes[..4])] + RowWords(bytes[4..])
  }

  /** Byte `k` of pixel `i` sits at offset `4 * i + k`. */
  lemma {:induction false} RowBytesAt(row: seq<u32>, i: nat, k: nat)
    requires i < |row| && k < 4
    ensures RowBytes(row)[4 * i + k] == WordBytes(row[i])[k]
  {
    if i > 0 {
      RowBytesAt(row[1..], i - 1, k);
    }
  }

  lemma {:induction false} RowBytesAppend(a: seq<u32>, b: seq<u32>)
    ensures RowBytes(a + b) == RowBytes(a) + RowBytes(b)
  {
    if |a| > 0 {
      assert (a + b)[1..] == a[1..] + b;
      RowBytesAppend(a[1..], b);
    } else {
      assert a + b == b;
    }
  }

  /** Reading a row's bytes back as pixels gives the row. */
  lemma {:induction false} RowRoundTrip(row: seq<u32>)
    ensures RowWords(RowBytes(row)) == row
  {
    if |row| > 0 {
      var bytes := RowBytes(row);
      assert bytes[..4] == WordBytes(row[0]);
      assert bytes[4..] == RowBytes(row[1..]);
      WordRoundTrip(row[0]);
      RowRoundTrip(row[1..]);
    }
  }

  function Zeros(n: nat): (z: seq<u8>)
    ensures |z| == n && forall i :: 0 <= i < n ==> z[i] == 0
  {
    seq(n, _ => 0)
  }

  /**
   * `n * k` as repeated addition.  The row arithmetic below is stated with
   * it so that every step stays linear; `TimesIsProduct` connects it to `*`.
   */
  function Times(n: nat, k: nat): nat
  {
    if n == 0 then 0 else Times(n - 1, k) + k
  }

  lemma {:induction false} TimesIsProduct(n: nat, k: nat)
    ensures Times(n, k) == n * k
  {
    if n > 0 {
      TimesIsProduct(n - 1, k);
    }
  }

  /**
   * The first `n` rows of a `width`-wide image, each row's bytes followed by
   * zero padding up to `padded` bytes: what the packing loop leaves in its
   * zero-filled output.
   */
  function PackRows(pixels: seq<u32>, width: nat, padded: nat, n: nat): (r: seq<u8>)
    requires Times(n, width) <= |pixels| && 4 * width <= padded
    ensures |r| == Times(n, padded)
  {
    if n == 0 then []
    else RowBytes(pixels[..width]) + Zeros(padded - 4 * width) + PackRows(pixels[width..], width, padded, n - 1)
  }

  /** `n` rows starting `padded` bytes apart, each `4 * width` bytes long, lie inside `len` bytes. */
  predicate RowsFit(len: nat, width: nat, padded: nat, n: nat)
  {
    n == 0 || Times(n - 1, padded) + 4 * width <= len
  }

  /** Dropping the first row's `padded` bytes leaves room for the other rows. */
  lemma {:induction false} RowsFitRest(len: nat, width: nat, padded: nat, n: nat)
    requires n > 1 && RowsFit(len, width, padded, n)
    ensures padded <= len && RowsFit(len - padded, width, padded, n - 1)
  {
    TimesFront(n - 1, padded);
  }

  /** Repeated addition peeled from the front: `n * k == k + (n - 1) * k`. */
  lemma {:induction false} TimesFront(n: nat, k: nat)
    requires n > 0
    ensures Times(n, k) == k + Times(n - 1, k)
  {
    if n > 1 {
      TimesFront(n - 1, k);
    }
  }

  /** The pixels of the first `n` padded rows, padding dropped. */
  function UnpackRows(data: seq<u8>, width: nat, padded: nat, n: nat): (r: seq<u32>)
    requires RowsFit(|data|, width, padded, n)
    ensures |r| == Times(n, width)
  {
    if n == 0 then []
    else if n == 1 then RowWords(data[..4 * width])
    else
      RowsFitRest(|data|, width, padded, n);
      TimesFront(n, width);
      RowWords(data[..4 * width]) + UnpackRows(data[padded..], width, padded, n - 1)
  }

  /** The bytes of the first `n` padded rows, padding dropped. */
  function UnpackBytes(data: seq<u8>, width: nat, padded: nat, n: nat): (r: seq<u8>)
    requires RowsFit(|data|, width, padded, n)
    ensures |r| == Times(n, 4 * width)
  {
    if n == 0 then []
    else if n == 1 then data[..4 * width]
    else
      RowsFitRest(|data|, width, padded, n);
      TimesFront(n, 4 * width);
      data[..4 * width] + UnpackBytes(data[padded..], width, padded, n - 1)
  }

  /** Times is monotone in its first argument: row `y` ends no later than row `n - 1`. */
  lemma {:induction false} TimesBelow(y: nat, n: nat, k: nat)
    requires y < n
    ensures Times(y, k) + k <= Times(n, k)
  {
    if y + 1 < n {
      TimesBelow(y, n - 1, k);
    }
  }

  /** The packed bytes start with the first row's pixel bytes. */
  lemma PackFirstRow(pixels: seq<u32>, width: nat, padded: nat, n: nat, x: nat, k: nat)
    requires Times(n, width) <= |pixels| && 4 * width <= padded && 0 < n && x < width && k < 4
    ensures 4 * x + k < Times(n, padded)
    ensures PackRows(pixels, width, padded, n)[4 * x + k] == WordBytes(pixels[x])[k]
  {
    TimesFront(n, padded);
    TimesFront(n, width);
    RowBytesAt(pixels[..width], x, k);
  }

  /** Past the first row's `padded` bytes come the packed bytes of the other rows. */
  lemma PackRowsAfterFirst(pixels: seq<u32>, width: nat, padded: nat, n: nat, j: nat)
    requires Times(n, width) <= |pixels| && 4 * width <= padded && 0 < n && j < Times(n - 1, padded)
    ensures width <= |pixels| && padded + j < Times(n, padded)
    ensures PackRows(pixels, width, padded, n)[padded + j] == PackRows(pixels[width..], width, padded, n - 1)[j]
  {
    TimesFront(n, width);
    TimesFront(n, padded);
    var head := RowBytes(pixels[..width]) + Zeros(padded - 4 * width);
    var tail := PackRows(pixels[width..], width, padded, n - 1);
    assert PackRows(pixels, width, padded, n) == head + tail;
    assert (head + tail)[padded + j] == tail[j];
  }

  /**
   * Byte `k` of pixel `x` of row `y` sits at offset `y * padded + 4 * x + k`
   * (`start` and `src` name the row's byte and pixel offsets).
   */
  lemma {:induction false} PackPixelAt(pixels: seq<u32>, width: nat, padded: nat, n: nat, y: nat, x: nat, k: nat,
                                       start: nat, src: nat)
    requires Times(n, width) <= |pixels| && 4 * width <= padded && y < n && x < width && k < 4
    requires start == Times(y, padded) && src == Times(y, width)
    ensures start + 4 * x + k < Times(n, padded) && src + x < |pixels|
    ensures PackRows(pixels, width, padded, n)[start + 4 * x + k] == WordBytes(pixels[src + x])[k]
  {
    if y == 0 {
      PackFirstRow(pixels, width, padded, n, x, k);
    } else {
      TimesFront(n, width);
      TimesFront(y, padded);
      TimesFront(y, width);
      var rest := pixels[width..];
      PackPixelAt(rest, width, padded, n - 1, y - 1, x, k, start - padded, src - width);
      PackRowsAfterFirst(pixels, width, padded, n, start - padded + 4 * x + k);
      assert rest[src - width + x] == pixels[src + x];
    }
  }

  /** The bytes past a row's pixels are zero. */
  lemma {:induction false} PackPaddingAt(pixels: seq<u32>, width: nat, padded: nat, n: nat, y: nat, o: nat)
    requires Times(n, width) <= |pixels| && 4 * width <= padded && y < n && 4 * width <= o < padded
    ensures Times(y, padded) + o < Times(n, padded)
    ensures PackRows(pixels, width, padded, n)[Times(y, padded) + o] == 0
  {
    TimesFront(n, width);
    TimesFront(n, padded);
    var head := RowBytes(pixels[..width]) + Zeros(padded - 4 * width);
    var tail := PackRows(pixels[width..], width, padded, n - 1);
    assert PackRows(pixels, width, padded, n) == head + tail;
    if y > 0 {
      TimesFront(y, padded);
      PackPaddingAt(pixels[width..], width, padded, n - 1, y - 1, o);
      var j := Times(y - 1, padded) + o;
      assert (head + tail)[padded + j] == tail[j];
    } else {
      assert (head + tail)[o] == Zeros(padded - 4 * width)[o - 4 * width];
    }
  }

  /** Unpacking what was packed gives back the packed pixels, and their bytes. */
  lemma PackUnpackRoundTrip(pixels: seq<u32>, width: nat, padded: nat, n: nat)
    requires |pixels| == Times(n, width) && 4 * width <= padded
    ensures RowsFit(Times(n, padded), width, padded, n)
    ensures UnpackRows(PackRows(pixels, width, padded, n), width, padded, n) == pixels
    ensures UnpackBytes(PackRows(pixels, width, padded, n), width, padded, n) == RowBytes(pixels)
  {
    PackUnpackPixels(pixels, width, padded, n);
    PackUnpackBytes(pixels, width, padded, n);
  }

  /** The packed buffer splits into the first row's bytes, its padding, and the other rows. */
  lemma PackedSplit(pixels: seq<u32>, width: nat, padded: nat, n: nat)
    requires |pixels| == Times(n, width) && 4 * width <= padded && n > 0
    ensures width <= |pixels| && padded <= Times(n, padded)
    ensures PackRows(pixels, width, padded, n)[..4 * width] == RowBytes(pixels[..width])
    ensures PackRows(pixels, width, padded, n)[padded..] == PackRows(pixels[width..], width, padded, n - 1)
  {
    TimesFront(n, width);
    TimesFront(n, padded);
    var bytes := RowBytes(pixels[..width]);
    var tail := PackRows(pixels[width..], width, padded, n - 1);
    var all := PackRows(pixels, width, padded, n);
    assert all == bytes + Zeros(padded - 4 * width) + tail;
    assert all[..4 * width] == bytes;
    assert all[padded..] == tail;
  }

  /** Unpacking the pixels of a packed buffer gives them back. */
  lemma {:induction false} PackUnpackPixels(pixels: seq<u32>, width: nat, padded: nat, n: nat)
    requires |pixels| == Times(n, width) && 4 * width <= padded
    ensures RowsFit(Times(n, padded), width, padded, n)
    ensures UnpackRows(PackRows(pixels, width, padded, n), width, padded, n) == pixels
  {
    if n > 0 {
      PackedSplit(pixels, width, padded, n);
      TimesFront(n, width);
      TimesFront(n, padded);
      var row := pixels[..width];
      var rest := pixels[width..];
      RowRoundTrip(row);
      assert pixels == row + rest;
      if n > 1 {
        PackUnpackPixels(rest, width, padded, n - 1);
      } else {
        assert rest == [];
      }
    }
  }

  /** Unpacking the bytes of a packed buffer gives the pixels' bytes with the padding dropped. */
  lemma {:induction false} PackUnpackBytes(pixels: seq<u32>, width: nat, padded: nat, n: nat)
    requires |pixels| == Times(n, width) && 4 * width <= padded
    ensures RowsFit(Times(n, padded), width, padded, n)
    ensures UnpackBytes(PackRows(pixels, width, padded, n), width, padded, n) == RowBytes(pixels)
  {
    if n > 0 {
      PackedSplit(pixels, width, padded, n);
      TimesFront(n, width);
      TimesFront(n, padded);
      var row := pixels[..width];
      var rest := pixels[width..];
      assert pixels == row + rest;
      RowBytesAppend(row, rest);
      if n > 1 {
        PackUnpackBytes(rest, width, padded, n - 1);
      } else {
        assert rest == [];
      }
    }
  }
}
