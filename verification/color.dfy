/** Colour values shared by the compositors, the sidebar and the stores. */
module Color {

  /** One channel of a `Uint8ClampedArray`, the pixel buffer of a canvas. */
  type Byte = b: int | 0 <= b < 256

  /** An `[r, g, b]` triple as the colour maps hold it. The picker produces
      channels in [0, 255], but nothing on the way checks it. */
  datatype Rgb = Rgb(r: int, g: int, b: int)

  predicate IsByteColor(c: Rgb) {
    0 <= c.r < 256 && 0 <= c.g < 256 && 0 <= c.b < 256
  }

  /** The conversion a `Uint8ClampedArray` applies to a number stored into it
      (ToUint8Clamp): clamp to [0, 255], then round to the nearest integer,
      ties to even. */
  function ToByte(x: real): (b: Byte)
    ensures x <= 0.0 ==> b == 0
    ensures x >= 255.0 ==> b == 255
    ensures 0.0 <= x <= 255.0 ==> x - 0.5 <= b as real <= x + 0.5
    ensures 0.0 < x < 255.0 && (b as real == x - 0.5 || b as real == x + 0.5) ==> b % 2 == 0
  {
    if x <= 0.0 then 0
    else if x >= 255.0 then 255
    else
      var f := x.Floor;
      if x - f as real < 0.5 then f
      else if x - f as real > 0.5 then f + 1
      else if f % 2 == 0 then f else f + 1
  }

  /** A whole number already in range is stored unchanged. */
  lemma ToByteOfByte(n: int)
    requires 0 <= n < 256
    ensures ToByte(n as real) == n
  {
  }

  /** Storing keeps order: a larger number never becomes a smaller byte. */
  lemma ToByteMonotonic(x: real, y: real)
    requires x <= y
    ensures ToByte(x) <= ToByte(y)
  {
  }

  /** A number between two bytes is stored as a byte between them. */
  lemma ToByteBetween(x: real, lo: int, hi: int)
    requires 0 <= lo <= hi < 256
    requires lo as real <= x <= hi as real
    ensures lo <= ToByte(x) <= hi
  {
    ToByteMonotonic(lo as real, x);
    ToByteMonotonic(x, hi as real);
    ToByteOfByte(lo);
    ToByteOfByte(hi);
  }
}
