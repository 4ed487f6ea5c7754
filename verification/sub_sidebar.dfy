/** The sidebar that lists the parts of the selected category and offers a
    colour picker and an opacity slider per part. Its handlers build the new
    map and hand it to the editor; the editor decides what happens next. */
module SubSidebar {
  import opened Wrappers
  import opened Color
  import opened Records
  import opened PartHierarchy

  /** The map sent up when the picker of `partId` reports `rgb`. */
  function HandleColorChange(colorMap: map<int, Rgb>, partId: int, rgb: Rgb): (m: map<int, Rgb>)
    ensures IsSpreadUpdate(colorMap, m, partId, rgb)
  {
    colorMap[partId := rgb]
  }

  /** The map sent up when the slider of `partId` reports `value`; the value
      is stored as it comes, without clamping. */
  function HandleOpacityChange(opacityMap: map<int, real>, partId: int, value: real): (m: map<int, real>)
    ensures IsSpreadUpdate(opacityMap, m, partId, value)
  {
    opacityMap[partId := value]
  }

  /** The colour the picker shows: `colorMap[partId] || [0, 0, 0]`. An array is
      never falsy, so a present entry always wins. */
  function DisplayColor(colorMap: map<int, Rgb>, partId: int): (c: Rgb)
    ensures partId in colorMap ==> c == colorMap[partId]
    ensures partId !in colorMap ==> c == Rgb(0, 0, 0)
  {
    if partId in colorMap then colorMap[partId] else Rgb(0, 0, 0)
  }

  /** The opacity the slider shows: `opacityMap[partId] ?? 1`. */
  function DisplayOpacity(opacityMap: map<int, real>, partId: int): (o: real)
    ensures partId in opacityMap ==> o == opacityMap[partId]
    ensures partId !in opacityMap ==> o == 1.0
  {
    if partId in opacityMap then opacityMap[partId] else 1.0
  }

  /** One rendered control: the part's label, its id and what the picker and
      the slider show. */
  datatype Control = Control(partLabel: string, partId: int, color: Rgb, opacity: real)

  /** `partHierarchy[selectedCategory] || []`. */
  function PartsOf(category: string): (parts: seq<PartEntry>)
    ensures category in Hierarchy ==> parts == Hierarchy[category]
    ensures category !in Hierarchy ==> parts == []
  {
    if category in Hierarchy then Hierarchy[category] else []
  }

  function ControlFor(partLabel: string, colorMap: map<int, Rgb>, opacityMap: map<int, real>): Control
  {
    var id := PartIdFromLabelNullish(partLabel);
    Control(partLabel, id, DisplayColor(colorMap, id), DisplayOpacity(opacityMap, id))
  }

  /** The sidebar's output: nothing when no category is selected (`null` and
      the empty string are both falsy), otherwise one control per label of the
      category, leaves directly and grouped labels group by group. */
  function Render(selectedCategory: Option<string>, colorMap: map<int, Rgb>, opacityMap: map<int, real>)
    : (r: Option<seq<Control>>)
    ensures r.None? <==> selectedCategory == None || selectedCategory == Some("")
    ensures r.Some? ==> |r.value| == |Labels(PartsOf(selectedCategory.value))|
    ensures r.Some? && selectedCategory.value !in Hierarchy ==> r.value == []
    ensures r.Some? ==> forall i :: 0 <= i < |r.value| ==>
      && r.value[i].partLabel == Labels(PartsOf(selectedCategory.value))[i]
      && r.value[i].partId > 0
      && r.value[i].partId == PartIdFromLabel(r.value[i].partLabel)
      && r.value[i].color == DisplayColor(colorMap, r.value[i].partId)
      && r.value[i].opacity == DisplayOpacity(opacityMap, r.value[i].partId)
  {
    match selectedCategory
    case None => None
    case Some(category) =>
      if category == "" then None
      else
        var labels := Labels(PartsOf(category));
        Some(seq(|labels|, i requires 0 <= i < |labels| => ControlFor(labels[i], colorMap, opacityMap)))
  }
}
