/** The layered compositor: the part ids present in the grid are collected,
    and for each one an RGBA layer of the grid's size is built that paints the
    part's pixels in its colour and opacity and leaves every other pixel
    transparent. The canvas then scales and draws each layer. */
module MaskLayers {
  import opened Wrappers
  import opened Color
  import opened MaskBlend

  /** A fresh `ImageData` is all zeros. */
  const Transparent := Pixel(0, 0, 0, 0)

  datatype Scale = Scale(scaleX: real, scaleY: real)

  /** What a layer is drawn with. */
  datatype PartStyle = PartStyle(color: Rgb, opacity: real, scale: Scale)

  /** The per-part lookups with this component's defaults: black, opacity
      0.5 and no scaling. */
  function StyleOf(id: int, colorMap: map<int, Rgb>, opacityMap: map<int, real>, scaleMap: map<int, Scale>)
    : (s: PartStyle)
    ensures id in colorMap ==> s.color == colorMap[id]
    ensures id !in colorMap ==> s.color == Rgb(0, 0, 0)
    ensures id in opacityMap ==> s.opacity == opacityMap[id]
    ensures id !in opacityMap ==> s.opacity == 0.5
    ensures id in scaleMap ==> s.scale == scaleMap[id]
    ensures id !in scaleMap ==> s.scale == Scale(1.0, 1.0)
  {
    PartStyle(if id in colorMap then colorMap[id] else Rgb(0, 0, 0),
              if id in opacityMap then opacityMap[id] else 0.5,
              if id in scaleMap then scaleMap[id] else Scale(1.0, 1.0))
  }

  /** `partIndexMap[y][x]`, which is `undefined` past the end of a row. */
  function CellAt(grid: PartGrid, y: int, x: int): (c: Option<int>)
    ensures c.Some? <==> 0 <= y < |grid| && 0 <= x < |grid[y]|
    ensures c.Some? ==> c.value == grid[y][x]
  {
    if 0 <= y < |grid| && 0 <= x < |grid[y]| then Some(grid[y][x]) else None
  }

  /** `partIndexMap[0].length`: the width of the first row. */
  function MaskWidth(grid: PartGrid): nat
    requires |grid| > 0
  {
    |grid[0]|
  }

  /** The cells of one row the scan reads: columns below `w` that exist. */
  function RowCells(row: seq<int>, w: nat): (cells: seq<int>)
    ensures forall id :: id in cells <==> exists x :: 0 <= x < w && x < |row| && row[x] == id
  {
    if |row| <= w then row else row[..w]
  }

  /** The defined cells of the first `|grid|` rows and `w` columns, row by row. */
  function Cells(grid: PartGrid, w: nat): (cells: seq<int>)
    ensures forall id :: id in cells <==>
      exists y, x :: 0 <= y < |grid| && 0 <= x < w && CellAt(grid, y, x) == Some(id)
  {
    if |grid| == 0 then []
    else
      var init := grid[..|grid| - 1];
      var last := |grid| - 1;
      var cells := Cells(init, w) + RowCells(grid[last], w);
      assert forall y, x :: 0 <= y < last ==> CellAt(init, y, x) == CellAt(grid, y, x);
      assert forall id :: id in cells <==>
        exists y, x :: 0 <= y < |grid| && 0 <= x < w && CellAt(grid, y, x) == Some(id) by {
        forall id
          ensures id in cells <==>
            exists y, x :: 0 <= y < |grid| && 0 <= x < w && CellAt(grid, y, x) == Some(id)
        {
          if id in cells {
            if id in Cells(init, w) {
              var y, x :| 0 <= y < |init| && 0 <= x < w && CellAt(init, y, x) == Some(id);
              assert CellAt(grid, y, x) == Some(id);
            } else {
              var x :| 0 <= x < w && x < |grid[last]| && grid[last][x] == id;
              assert CellAt(grid, last, x) == Some(id);
            }
          }
          if exists y, x :: 0 <= y < |grid| && 0 <= x < w && CellAt(grid, y, x) == Some(id) {
            var y, x :| 0 <= y < |grid| && 0 <= x < w && CellAt(grid, y, x) == Some(id);
            if y < last {
              assert CellAt(init, y, x) == Some(id);
            } else {
              assert id in RowCells(grid[last], w);
            }
          }
        }
      }
      cells
  }

  predicate NoDuplicates(s: seq<int>) {
    forall i, j :: 0 <= i < j < |s| ==> s[i] != s[j]
  }

  /** `if (partId >= 0) visited.add(partId)` over the cells in scan order; a
      `Set` remembers first insertion order, which is the order kept here. */
  function Visit(acc: seq<int>, cells: seq<int>): (r: seq<int>)
    ensures acc <= r
    ensures NoDuplicates(acc) ==> NoDuplicates(r)
    ensures forall id :: id in r <==> id in acc || (id >= 0 && id in cells)
    decreases |cells|
  {
    if |cells| == 0 then acc
    else
      var id := cells[0];
      var next := if id >= 0 && id !in acc then acc + [id] else acc;
      var r := Visit(next, cells[1..]);
      assert forall k :: k in cells <==> k == id || k in cells[1..];
      r
  }

  /** The ids of the parts present in the grid, each once, in the order the
      scan first meets them. */
  function VisitedIds(grid: PartGrid): (ids: seq<int>)
    requires |grid| > 0
    ensures NoDuplicates(ids)
    ensures forall id :: id in ids <==> (id >= 0 &&
      exists y, x :: 0 <= y < |grid| && 0 <= x < MaskWidth(grid) && CellAt(grid, y, x) == Some(id))
  {
    Visit([], Cells(grid, MaskWidth(grid)))
  }

  /** The RGBA value a part's pixels get; each number goes through the
      buffer's clamping conversion, and the alpha is `opacity * 255`. */
  function Paint(style: PartStyle): (p: Pixel)
    ensures p.a == ToByte(style.opacity * 255.0)
    ensures IsByteColor(style.color) ==> p.r == style.color.r && p.g == style.color.g && p.b == style.color.b
  {
    ToByteOfByteColor(style.color);
    Pixel(ToByte(style.color.r as real), ToByte(style.color.g as real), ToByte(style.color.b as real),
          ToByte(style.opacity * 255.0))
  }

  lemma ToByteOfByteColor(c: Rgb)
    ensures IsByteColor(c) ==> ToByte(c.r as real) == c.r && ToByte(c.g as real) == c.g && ToByte(c.b as real) == c.b
  {
    if IsByteColor(c) {
      ToByteOfByte(c.r);
      ToByteOfByte(c.g);
      ToByteOfByte(c.b);
    }
  }

  /** The layer of one part: as wide as the first row and as tall as the
      grid; a pixel is painted exactly where the grid holds that part. */
  function MaskImage(grid: PartGrid, partId: int, style: PartStyle): (img: Frame)
    requires |grid| > 0
    ensures |img| == |grid|
    ensures forall y :: 0 <= y < |img| ==> |img[y]| == MaskWidth(grid)
    ensures forall y, x :: 0 <= y < |grid| && 0 <= x < MaskWidth(grid) ==>
      (CellAt(grid, y, x) == Some(partId) ==> img[y][x] == Paint(style)) &&
      (CellAt(grid, y, x) != Some(partId) ==> img[y][x] == Transparent)
  {
    seq(|grid|, y requires 0 <= y < |grid| =>
      seq(MaskWidth(grid), x requires 0 <= x < MaskWidth(grid) =>
        if CellAt(grid, y, x) == Some(partId) then Paint(style) else Transparent))
  }

  datatype Layer = Layer(partId: int, scale: Scale, image: Frame)

  /** The layers handed to the canvas, one per visited part id in visiting
      order. An empty grid has no first row, so reading its width throws and
      nothing is built. */
  function BuildLayers(grid: PartGrid, colorMap: map<int, Rgb>, opacityMap: map<int, real>,
                       scaleMap: map<int, Scale>): (r: Option<seq<Layer>>)
    ensures r.None? <==> |grid| == 0
    ensures r.Some? ==> |r.value| == |VisitedIds(grid)|
    ensures r.Some? ==> forall i :: 0 <= i < |r.value| ==>
      var id := VisitedIds(grid)[i];
      var style := StyleOf(id, colorMap, opacityMap, scaleMap);
      r.value[i] == Layer(id, style.scale, MaskImage(grid, id, style))
  {
    if |grid| == 0 then None
    else
      var ids := VisitedIds(grid);
      Some(seq(|ids|, i requires 0 <= i < |ids| =>
        var style := StyleOf(ids[i], colorMap, opacityMap, scaleMap);
        Layer(ids[i], style.scale, MaskImage(grid, ids[i], style))))
  }

  /** Two different layers never both paint the same pixel. */
  lemma LayersDisjoint(grid: PartGrid, colorMap: map<int, Rgb>, opacityMap: map<int, real>,
                       scaleMap: map<int, Scale>, i: int, j: int, y: int, x: int)
    requires |grid| > 0
    requires var layers := BuildLayers(grid, colorMap, opacityMap, scaleMap).value;
      0 <= i < |layers| && 0 <= j < |layers| && i != j
    requires 0 <= y < |grid| && 0 <= x < MaskWidth(grid)
    ensures var layers := BuildLayers(grid, colorMap, opacityMap, scaleMap).value;
      layers[i].image[y][x] == Transparent || layers[j].image[y][x] == Transparent
  {
    var ids := VisitedIds(grid);
    assert ids[i] != ids[j];
  }

  /** Every grid cell holding a non-negative part id is painted by exactly one
      layer, the layer of that part. */
  lemma EachPartPixelInOneLayer(grid: PartGrid, colorMap: map<int, Rgb>, opacityMap: map<int, real>,
                                scaleMap: map<int, Scale>, y: int, x: int)
    requires |grid| > 0
    requires 0 <= y < |grid| && 0 <= x < MaskWidth(grid)
    requires CellAt(grid, y, x).Some? && CellAt(grid, y, x).value >= 0
    ensures var layers := BuildLayers(grid, colorMap, opacityMap, scaleMap).value;
      var id := CellAt(grid, y, x).value;
      exists i :: 0 <= i < |layers| && layers[i].partId == id &&
        layers[i].image[y][x] == Paint(StyleOf(id, colorMap, opacityMap, scaleMap)) &&
        forall j :: 0 <= j < |layers| && j != i ==> layers[j].image[y][x] == Transparent
  {
    var layers := BuildLayers(grid, colorMap, opacityMap, scaleMap).value;
    var ids := VisitedIds(grid);
    var id := CellAt(grid, y, x).value;
    assert id in ids;
    var i :| 0 <= i < |ids| && ids[i] == id;
    forall j | 0 <= j < |layers| && j != i
      ensures layers[j].image[y][x] == Transparent
    {
      assert ids[j] != ids[i];
    }
  }

  /** A part with neither colour nor opacity is drawn black at alpha 128:
      0.5 * 255 = 127.5 rounds to the even neighbour. */
  lemma DefaultPaint(id: int, scaleMap: map<int, Scale>)
    ensures Paint(StyleOf(id, map[], map[], scaleMap)) == Pixel(0, 0, 0, 128)
  {
    assert (127.5).Floor == 127;
  }
}
