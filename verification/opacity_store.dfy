/** The opacity store: a map from part name to opacity. */
module OpacityStore {
  import opened Records

  datatype OpacityStore = OpacityStore(opacityMap: map<string, real>)

  /** The state the store is created with. */
  const Initial := OpacityStore(map[])

  /** `setOpacityMap(map)`: the new map replaces the old one wholesale. */
  function SetOpacityMap(s: OpacityStore, m: map<string, real>): (r: OpacityStore)
    ensures r.opacityMap == m
  {
    OpacityStore(m)
  }

  /** `updateOpacity(part, value)`: spreads the old map and sets one key; the
      value is stored as given. */
  function UpdateOpacity(s: OpacityStore, part: string, value: real): (r: OpacityStore)
    ensures IsSpreadUpdate(s.opacityMap, r.opacityMap, part, value)
  {
    OpacityStore(s.opacityMap[part := value])
  }

  lemma InitialIsEmpty()
    ensures Initial.opacityMap == map[]
  {
  }

  /** Replacing the map forgets everything that was in it. */
  lemma SetOpacityMapForgets(s: OpacityStore, m: map<string, real>, part: string, value: real)
    ensures SetOpacityMap(UpdateOpacity(s, part, value), m) == SetOpacityMap(s, m)
  {
  }

  /** For one part, the later opacity wins. */
  lemma UpdateOpacityLastWins(s: OpacityStore, part: string, v1: real, v2: real)
    ensures UpdateOpacity(UpdateOpacity(s, part, v1), part, v2) == UpdateOpacity(s, part, v2)
  {
  }

  /** Opacities of two different parts can be set in either order. */
  lemma UpdateOpacityCommutes(s: OpacityStore, p1: string, v1: real, p2: string, v2: real)
    requires p1 != p2
    ensures UpdateOpacity(UpdateOpacity(s, p1, v1), p2, v2) == UpdateOpacity(UpdateOpacity(s, p2, v2), p1, v1)
  {
  }
}
