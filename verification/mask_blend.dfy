/** The flat compositor: the base image is drawn on a 512 x 512 canvas and
    every pixel is tinted with the colour of its part, blended by the part's
    opacity. */
module MaskBlend {
  import opened Wrappers
  import opened Color

  /** Width and height of the canvas, the size the part grid is made for. */
  const CanvasSize := 512

  /** Bytes in the canvas's RGBA buffer. */
  const BufferLength := 512 * 512 * 4

  datatype Pixel = Pixel(r: Byte, g: Byte, b: Byte, a: Byte)

  /** A frame as rows of pixels. */
  type Frame = seq<seq<Pixel>>

  /** The part id of every pixel, row by row. */
  type PartGrid = seq<seq<int>>

  /** `partIndexMap[y]?.[x] ?? 0`: a missing row or column reads as part 0. */
  function PartAt(grid: PartGrid, y: int, x: int): (id: int)
    ensures 0 <= y < |grid| && 0 <= x < |grid[y]| ==> id == grid[y][x]
    ensures !(0 <= y < |grid| && 0 <= x < |grid[y]|) ==> id == 0
  {
    if 0 <= y < |grid| && 0 <= x < |grid[y]| then grid[y][x] else 0
  }

  /** `opacityMap[partId] ?? 0`. */
  function OpacityOf(opacityMap: map<int, real>, id: int): (o: real)
    ensures id in opacityMap ==> o == opacityMap[id]
    ensures id !in opacityMap ==> o == 0.0
  {
    if id in opacityMap then opacityMap[id] else 0.0
  }

  /** One channel of the straight alpha blend, stored back into the buffer. */
  function BlendChannel(base: Byte, c: int, opacity: real): Byte
  {
    ToByte(Mix(base as real, c as real, opacity))
  }

  /** The straight alpha blend of `b` under `c` at opacity `o`. */
  function Mix(b: real, c: real, o: real): real
  {
    b * (1.0 - o) + c * o
  }

  /** A fraction of a non-negative amount lies between 0 and the amount. */
  lemma FractionBounds(d: real, o: real)
    requires d >= 0.0 && 0.0 <= o <= 1.0
    ensures 0.0 <= d * o <= d
  {
    assert d - d * o == d * (1.0 - o);
  }

  /** The blend moves from `b` towards `c` by the fraction `o`. */
  lemma BlendIsInterpolation(b: real, c: real, o: real)
    ensures b * (1.0 - o) + c * o == b + (c - b) * o
    ensures b * (1.0 - o) + c * o == b - (b - c) * o
  {
  }

  /** Blending towards a larger value stays between the two. */
  lemma MixRising(b: real, c: real, o: real)
    requires 0.0 <= o <= 1.0 && b <= c
    ensures b <= Mix(b, c, o) <= c
  {
    BlendIsInterpolation(b, c, o);
    FractionBounds(c - b, o);
    assert Mix(b, c, o) == b + (c - b) * o;
  }

  /** Blending towards a smaller value stays between the two. */
  lemma MixFalling(b: real, c: real, o: real)
    requires 0.0 <= o <= 1.0 && c <= b
    ensures c <= Mix(b, c, o) <= b
  {
    BlendIsInterpolation(b, c, o);
    FractionBounds(b - c, o);
    assert Mix(b, c, o) == b - (b - c) * o;
  }

  /** The blend of two values at an opacity in [0, 1] lies between them. */
  lemma MixBetween(b: real, c: real, o: real)
    requires 0.0 <= o <= 1.0
    ensures b <= c ==> b <= Mix(b, c, o) <= c
    ensures c <= b ==> c <= Mix(b, c, o) <= b
  {
    if b <= c {
      MixRising(b, c, o);
    }
    if c <= b {
      MixFalling(b, c, o);
    }
  }

  /** For an opacity in [0, 1] the blend of two bytes lies between them. */
  lemma BlendChannelBetween(base: Byte, c: Byte, opacity: real)
    requires 0.0 <= opacity <= 1.0
    ensures base <= c ==> base <= BlendChannel(base, c, opacity) <= c
    ensures c <= base ==> c <= BlendChannel(base, c, opacity) <= base
  {
    var v := Mix(base as real, c as real, opacity);
    MixBetween(base as real, c as real, opacity);
    if base <= c {
      ToByteBetween(v, base, c);
    } else {
      ToByteBetween(v, c, base);
    }
  }

  /** What the loop does to one pixel whose part is `id`. */
  function BlendPixel(p: Pixel, id: int, colorMap: map<int, Rgb>, opacityMap: map<int, real>): (q: Pixel)
    ensures q.a == p.a
    ensures id !in colorMap ==> q == p
    ensures id in colorMap && OpacityOf(opacityMap, id) == 0.0 ==> q == p
    ensures id in colorMap && OpacityOf(opacityMap, id) == 1.0 && IsByteColor(colorMap[id]) ==>
      q == Pixel(colorMap[id].r, colorMap[id].g, colorMap[id].b, p.a)
  {
    if id in colorMap then
      var color := colorMap[id];
      var opacity := OpacityOf(opacityMap, id);
      var q := Pixel(BlendChannel(p.r, color.r, opacity),
                     BlendChannel(p.g, color.g, opacity),
                     BlendChannel(p.b, color.b, opacity),
                     p.a);
      assert opacity == 0.0 ==> q == p by {
        if opacity == 0.0 {
          ToByteOfByte(p.r);
          ToByteOfByte(p.g);
          ToByteOfByte(p.b);
        }
      }
      assert opacity == 1.0 && IsByteColor(color) ==> q == Pixel(color.r, color.g, color.b, p.a) by {
        if opacity == 1.0 && IsByteColor(color) {
          ToByteOfByte(color.r);
          ToByteOfByte(color.g);
          ToByteOfByte(color.b);
        }
      }
      q
    else p
  }

  /** The composited frame: every pixel blended with its own part's colour,
      independently of every other pixel. */
  function Composite(base: Frame, grid: PartGrid, colorMap: map<int, Rgb>, opacityMap: map<int, real>)
    : (out: Frame)
    ensures |out| == |base|
    ensures forall y :: 0 <= y < |base| ==> |out[y]| == |base[y]|
    ensures forall y, x :: 0 <= y < |base| && 0 <= x < |base[y]| ==>
      out[y][x] == BlendPixel(base[y][x], PartAt(grid, y, x), colorMap, opacityMap)
  {
    seq(|base|, y requires 0 <= y < |base| =>
      seq(|base[y]|, x requires 0 <= x < |base[y]| =>
        BlendPixel(base[y][x], PartAt(grid, y, x), colorMap, opacityMap)))
  }

  /** Pixels of parts without a colour come out bit-identical. */
  lemma CompositeKeepsUncolored(base: Frame, grid: PartGrid, colorMap: map<int, Rgb>,
                                opacityMap: map<int, real>, y: int, x: int)
    requires 0 <= y < |base| && 0 <= x < |base[y]|
    requires PartAt(grid, y, x) !in colorMap
    ensures Composite(base, grid, colorMap, opacityMap)[y][x] == base[y][x]
  {
  }

  /** Pixels of parts with no opacity, or opacity 0, come out bit-identical. */
  lemma CompositeKeepsTransparent(base: Frame, grid: PartGrid, colorMap: map<int, Rgb>,
                                  opacityMap: map<int, real>, y: int, x: int)
    requires 0 <= y < |base| && 0 <= x < |base[y]|
    requires PartAt(grid, y, x) !in opacityMap || opacityMap[PartAt(grid, y, x)] == 0.0
    ensures Composite(base, grid, colorMap, opacityMap)[y][x] == base[y][x]
  {
  }

  /** A part at opacity 1 shows exactly its colour, keeping the pixel's alpha. */
  lemma CompositeOpaque(base: Frame, grid: PartGrid, colorMap: map<int, Rgb>,
                        opacityMap: map<int, real>, y: int, x: int)
    requires 0 <= y < |base| && 0 <= x < |base[y]|
    requires PartAt(grid, y, x) in colorMap && IsByteColor(colorMap[PartAt(grid, y, x)])
    requires PartAt(grid, y, x) in opacityMap && opacityMap[PartAt(grid, y, x)] == 1.0
    ensures var c := colorMap[PartAt(grid, y, x)];
      Composite(base, grid, colorMap, opacityMap)[y][x] == Pixel(c.r, c.g, c.b, base[y][x].a)
  {
  }

  /** With an opacity in [0, 1], every channel of the result lies between the
      base channel and the part's colour channel. */
  lemma {:induction false} BlendPixelBetween(p: Pixel, id: int, colorMap: map<int, Rgb>, opacityMap: map<int, real>)
    requires id in colorMap && IsByteColor(colorMap[id])
    requires 0.0 <= OpacityOf(opacityMap, id) <= 1.0
    ensures var q, c := BlendPixel(p, id, colorMap, opacityMap), colorMap[id];
      && (p.r <= c.r ==> p.r <= q.r <= c.r) && (c.r <= p.r ==> c.r <= q.r <= p.r)
      && (p.g <= c.g ==> p.g <= q.g <= c.g) && (c.g <= p.g ==> c.g <= q.g <= p.g)
      && (p.b <= c.b ==> p.b <= q.b <= c.b) && (c.b <= p.b ==> c.b <= q.b <= p.b)
  {
    var c := colorMap[id];
    var o := OpacityOf(opacityMap, id);
    BlendChannelBetween(p.r, c.r, o);
    BlendChannelBetween(p.g, c.g, o);
    BlendChannelBetween(p.b, c.b, o);
  }

  /** A 2 x 2 example: part 1 half-black, part 2 fully red, part 0 untouched. */
  lemma CompositeExample()
    ensures var grey := Pixel(200, 200, 200, 255);
      Composite([[grey, grey], [grey, grey]], [[1, 1], [2, 0]],
                map[1 := Rgb(0, 0, 0), 2 := Rgb(255, 0, 0)], map[1 := 0.5, 2 := 1.0])
      == [[Pixel(100, 100, 100, 255), Pixel(100, 100, 100, 255)],
          [Pixel(255, 0, 0, 255), grey]]
  {
    var grey := Pixel(200, 200, 200, 255);
    var cm := map[1 := Rgb(0, 0, 0), 2 := Rgb(255, 0, 0)];
    var om := map[1 := 0.5, 2 := 1.0];
    assert Mix(200.0, 0.0, 0.5) == 100.0;
    ToByteOfByte(100);
    assert BlendPixel(grey, 1, cm, om) == Pixel(100, 100, 100, 255);
    assert BlendPixel(grey, 2, cm, om) == Pixel(255, 0, 0, 255);
    assert BlendPixel(grey, 0, cm, om) == grey;
    var out := Composite([[grey, grey], [grey, grey]], [[1, 1], [2, 0]], cm, om);
    assert out[0] == [Pixel(100, 100, 100, 255), Pixel(100, 100, 100, 255)];
    assert out[1] == [Pixel(255, 0, 0, 255), grey];
  }

  /** The effect as a whole: nothing is drawn without an image URL or with an
      empty grid; otherwise the frame drawn on the canvas is composited. */
  function Render(originalUrl: string, grid: PartGrid, drawn: Frame,
                  colorMap: map<int, Rgb>, opacityMap: map<int, real>): (r: Option<Frame>)
    ensures r.None? <==> originalUrl == "" || |grid| == 0
    ensures r.Some? ==> r.value == Composite(drawn, grid, colorMap, opacityMap)
  {
    if originalUrl == "" || |grid| == 0 then None
    else Some(Composite(drawn, grid, colorMap, opacityMap))
  }

  /** Byte offset of pixel (y, x) in the canvas buffer. */
  function Offset(y: int, x: int): int
  {
    (y * 512 + x) * 4
  }

  predicate InCanvas(y: int, x: int) {
    0 <= y < CanvasSize && 0 <= x < CanvasSize
  }

  function PixelAt(data: seq<Byte>, y: int, x: int): Pixel
    requires |data| == BufferLength && InCanvas(y, x)
  {
    var i := Offset(y, x);
    Pixel(data[i], data[i + 1], data[i + 2], data[i + 3])
  }

  /** The buffer read as a frame. */
  function ToFrame(data: seq<Byte>): (f: Frame)
    requires |data| == BufferLength
    ensures |f| == CanvasSize
    ensures forall y :: 0 <= y < CanvasSize ==> |f[y]| == CanvasSize
    ensures forall y, x :: InCanvas(y, x) ==> f[y][x] == PixelAt(data, y, x)
  {
    seq(CanvasSize, y requires 0 <= y < CanvasSize =>
      seq(CanvasSize, x requires 0 <= x < CanvasSize => PixelAt(data, y, x)))
  }

  /** The body of the inner loop for pixel (y, x): when the pixel's part has a
      colour, its R, G and B bytes are overwritten with the blend; the alpha
      byte is never written. No other pixel changes. */
  function BlendAt(data: seq<Byte>, y: int, x: int, grid: PartGrid,
                   colorMap: map<int, Rgb>, opacityMap: map<int, real>): (out: seq<Byte>)
    requires |data| == BufferLength && InCanvas(y, x)
    ensures |out| == BufferLength
    ensures PixelAt(out, y, x) == BlendPixel(PixelAt(data, y, x), PartAt(grid, y, x), colorMap, opacityMap)
    ensures forall y', x' :: InCanvas(y', x') && (y' != y || x' != x) ==>
      PixelAt(out, y', x') == PixelAt(data, y', x')
  {
    var index := Offset(y, x);
    var partId := PartAt(grid, y, x);
    if partId in colorMap then
      var color := colorMap[partId];
      var opacity := OpacityOf(opacityMap, partId);
      data[index := BlendChannel(data[index], color.r, opacity)]
          [index + 1 := BlendChannel(data[index + 1], color.g, opacity)]
          [index + 2 := BlendChannel(data[index + 2], color.b, opacity)]
    else data
  }

  /** The loop over the canvas, row by row: each pixel is blended exactly once,
      from its own base value and part id. */
  method BlendImageData(data: seq<Byte>, grid: PartGrid,
                        colorMap: map<int, Rgb>, opacityMap: map<int, real>) returns (out: seq<Byte>)
    requires |data| == BufferLength
    ensures |out| == BufferLength
    ensures forall y, x :: InCanvas(y, x) ==>
      PixelAt(out, y, x) == BlendPixel(PixelAt(data, y, x), PartAt(grid, y, x), colorMap, opacityMap)
    ensures ToFrame(out) == Composite(ToFrame(data), grid, colorMap, opacityMap)
  {
    out := data;
    var y := 0;
    while y < CanvasSize
      invariant 0 <= y <= CanvasSize
      invariant |out| == BufferLength
      invariant forall y', x' :: InCanvas(y', x') && y' < y ==>
        PixelAt(out, y', x') == BlendPixel(PixelAt(data, y', x'), PartAt(grid, y', x'), colorMap, opacityMap)
      invariant forall y', x' :: InCanvas(y', x') && y' >= y ==> PixelAt(out, y', x') == PixelAt(data, y', x')
    {
      var x := 0;
      while x < CanvasSize
        invariant 0 <= x <= CanvasSize
        invariant |out| == BufferLength
        invariant forall y', x' :: InCanvas(y', x') && (y' < y || (y' == y && x' < x)) ==>
          PixelAt(out, y', x') == BlendPixel(PixelAt(data, y', x'), PartAt(grid, y', x'), colorMap, opacityMap)
        invariant forall y', x' :: InCanvas(y', x') && (y' > y || (y' == y && x' >= x)) ==>
          PixelAt(out, y', x') == PixelAt(data, y', x')
      {
        out := BlendAt(out, y, x, grid, colorMap, opacityMap);
        x := x + 1;
      }
      y := y + 1;
    }
    var f := ToFrame(out);
    var g := Composite(ToFrame(data), grid, colorMap, opacityMap);
    assert forall y' :: 0 <= y' < CanvasSize ==> f[y'] == g[y'];
  }
}
