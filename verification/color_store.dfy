/** The colour store: a map from part name to colour and the selected part. */
module ColorStore {
  import opened Wrappers
  import opened Color
  import opened Records

  datatype ColorStore = ColorStore(colorMap: map<string, Rgb>, selectedPart: Option<string>)

  /** The state the store is created with. */
  const Initial := ColorStore(map[], None)

  /** `setColor(part, color)`: spreads the old map and sets one key. */
  function SetColor(s: ColorStore, part: string, color: Rgb): (r: ColorStore)
    ensures IsSpreadUpdate(s.colorMap, r.colorMap, part, color)
    ensures r.selectedPart == s.selectedPart
  {
    s.(colorMap := s.colorMap[part := color])
  }

  /** `setSelectedPart(part)`: only the selection changes. */
  function SetSelectedPart(s: ColorStore, part: Option<string>): (r: ColorStore)
    ensures r.colorMap == s.colorMap
    ensures r.selectedPart == part
  {
    s.(selectedPart := part)
  }

  /** `reset()`: back to an empty map and no selection. */
  function Reset(s: ColorStore): (r: ColorStore)
    ensures r.colorMap == map[] && r.selectedPart == None
  {
    ColorStore(map[], None)
  }

  lemma InitialIsEmpty()
    ensures Initial.colorMap == map[] && Initial.selectedPart == None
  {
  }

  /** Resetting, whatever happened before, gives back the initial state. */
  lemma ResetRestoresInitial(s: ColorStore, part: string, color: Rgb, selected: Option<string>)
    ensures Reset(SetSelectedPart(SetColor(s, part, color), selected)) == Initial
  {
  }

  /** Setting the same colour twice is the same as setting it once. */
  lemma SetColorIdempotent(s: ColorStore, part: string, color: Rgb)
    ensures SetColor(SetColor(s, part, color), part, color) == SetColor(s, part, color)
  {
  }

  /** For one part, the later colour wins. */
  lemma SetColorLastWins(s: ColorStore, part: string, c1: Rgb, c2: Rgb)
    ensures SetColor(SetColor(s, part, c1), part, c2) == SetColor(s, part, c2)
  {
  }

  /** Colours of two different parts can be set in either order. */
  lemma SetColorCommutes(s: ColorStore, p1: string, c1: Rgb, p2: string, c2: Rgb)
    requires p1 != p2
    ensures SetColor(SetColor(s, p1, c1), p2, c2) == SetColor(SetColor(s, p2, c2), p1, c1)
  {
  }
}
