/**
 * `convert_pixels_to_rgba`: ARGB words to premultiplied RGBA bytes, four
 * bytes per pixel.
 */
module ImageOps {
  import opened Ints

  /**
   * The four bytes of a pixel with channels `a, r, g, b`: opaque pixels are
   * copied, fully transparent ones become zero, and the rest have each
   * colour channel premultiplied by the rounded `(c * a + 127) / 255`.
   */
  function Premultiplied(a: u8, r: u8, g: u8, b: u8): (out: seq<u8>)
    ensures |out| == 4 && out[3] == a
    ensures a == 255 ==> out == [r, g, b, 255]
    ensures a == 0 ==> out == [0, 0, 0, 0]
    ensures out[0] <= a && out[1] <= a && out[2] <= a
  {
    if a == 255 then [r, g, b, 255]
    else if a == 0 then [0, 0, 0, 0]
    else
      Mul255Bounds(r, a);
      Mul255Bounds(g, a);
      Mul255Bounds(b, a);
      [Mul255(r, a), Mul255(g, a), Mul255(b, a), a]
  }

  /** The bytes `convert_pixels_to_rgba` writes for one ARGB word. */
  function PixelBytes(argb: u32): seq<u8>
  {
    Premultiplied(Alpha(argb), Red(argb), Green(argb), Blue(argb))
  }

  /** The two fast paths give what the general premultiplication formula gives. */
  lemma FastPathsAgree(a: u8, r: u8, g: u8, b: u8)
    ensures Premultiplied(a, r, g, b) == [Mul255(r, a), Mul255(g, a), Mul255(b, a), a]
  {
    Mul255Bounds(r, a);
    Mul255Bounds(g, a);
    Mul255Bounds(b, a);
  }

  /** An opaque pixel's bytes pack back into the pixel. */
  lemma OpaqueRoundTrip(argb: u32)
    requires Alpha(argb) == 255
    ensures var r := PixelBytes(argb); Pack(r[3], r[0], r[1], r[2]) == argb
  {
    PackUnpack(argb);
    assert PixelBytes(argb) == [Red(argb), Green(argb), Blue(argb), 255];
  }

  lemma AppendKeepsSlices(rgba: seq<u8>, bytes: seq<u8>, i: nat)
    requires |rgba| == 4 * i && |bytes| == 4
    ensures forall j :: 0 <= j < i ==> (rgba + bytes)[4 * j .. 4 * j + 4] == rgba[4 * j .. 4 * j + 4]
    ensures (rgba + bytes)[4 * i .. 4 * i + 4] == bytes
  {
  }

  /** `convert_pixels_to_rgba`: pixel `i` occupies bytes `4 * i .. 4 * i + 4`. */
  method ConvertPixelsToRgba(pixels: seq<u32>) returns (rgba: seq<u8>)
    ensures |rgba| == 4 * |pixels|
    ensures forall i :: 0 <= i < |pixels| ==> rgba[4 * i .. 4 * i + 4] == PixelBytes(pixels[i])
  {
    rgba := [];
    var i := 0;
    while i < |pixels|
      invariant 0 <= i <= |pixels| && |rgba| == 4 * i
      invariant forall j :: 0 <= j < i ==> rgba[4 * j .. 4 * j + 4] == PixelBytes(pixels[j])
    {
      var bytes := PixelBytes(pixels[i]);
      AppendKeepsSlices(rgba, bytes, i);
      rgba := rgba + bytes;
      i := i + 1;
    }
  }
}
