/** The part registry: the category menu of the sidebar and the lookup from a
    part label to the integer the segmentation mask uses for that part. */
module PartHierarchy {

  /** One entry of a category: a label on its own, or a record of named
      groups, each listing its labels (`string | Record<string, string[]>`). */
  datatype PartEntry = Leaf(partLabel: string) | Groups(groups: seq<(string, seq<string>)>)

  /** The category menu, category name to its entries. */
  const Hierarchy: map<string, seq<PartEntry>> := map[
    "피부" := [Leaf("피부")],
    "눈썹" := [Groups([("눈썹", ["왼쪽눈썹", "오른쪽눈썹"])])],
    "눈" := [Groups([("눈", ["왼쪽눈", "오른쪽눈"])])],
    "귀" := [Groups([("귀", ["왼쪽귀", "오른쪽귀"])])],
    "코" := [Leaf("코")],
    "입술" := [Groups([("입술", ["윗입술", "아랫입술"])])],
    "머리카락" := [Leaf("머리카락")]
  ]

  const Background := "배경"

  /** The label-to-id table of the lookup; 0 is the background. */
  const Mapping: map<string, int> := map[
    Background := 0,
    "피부" := 1,
    "왼쪽눈썹" := 2,
    "오른쪽눈썹" := 3,
    "왼쪽눈" := 4,
    "오른쪽눈" := 5,
    "왼쪽귀" := 7,
    "오른쪽귀" := 8,
    "코" := 10,
    "윗입술" := 12,
    "아랫입술" := 13,
    "목" := 14,
    "머리카락" := 17
  ]

  const Invalid := -1

  /** The lookup as written: `mapping[label] || -1`. Because `||` treats 0 as
      false, the background's 0 comes back as -1 like an unknown label. */
  function PartIdFromLabel(partLabel: string): (id: int)
    ensures id != 0
    ensures id == Invalid <==> partLabel !in Mapping || Mapping[partLabel] == 0
    ensures id != Invalid ==> partLabel in Mapping && Mapping[partLabel] == id
  {
    if partLabel in Mapping && Mapping[partLabel] != 0 then Mapping[partLabel] else Invalid
  }

  /** The lookup with `??` in place of `||`: every label of the table,
      the background included, gets its own id. */
  function PartIdFromLabelNullish(partLabel: string): (id: int)
    ensures partLabel in Mapping ==> id == Mapping[partLabel]
    ensures partLabel !in Mapping ==> id == Invalid
  {
    if partLabel in Mapping then Mapping[partLabel] else Invalid
  }

  /** The background label is looked up as invalid by the code as written,
      but as 0 with `??`. */
  lemma BackgroundLookup()
    ensures PartIdFromLabel(Background) == Invalid
    ensures PartIdFromLabelNullish(Background) == 0
  {
  }

  /** The two lookups differ only on the background label. */
  lemma LookupsAgreeExceptBackground(partLabel: string)
    requires partLabel != Background
    ensures PartIdFromLabel(partLabel) == PartIdFromLabelNullish(partLabel)
  {
    assert partLabel in Mapping ==> Mapping[partLabel] != 0;
  }

  /** Each part has its fixed id. */
  lemma FixedIds()
    ensures PartIdFromLabel("피부") == 1
    ensures PartIdFromLabel("왼쪽눈썹") == 2 && PartIdFromLabel("오른쪽눈썹") == 3
    ensures PartIdFromLabel("왼쪽눈") == 4 && PartIdFromLabel("오른쪽눈") == 5
    ensures PartIdFromLabel("왼쪽귀") == 7 && PartIdFromLabel("오른쪽귀") == 8
    ensures PartIdFromLabel("코") == 10
    ensures PartIdFromLabel("윗입술") == 12 && PartIdFromLabel("아랫입술") == 13
    ensures PartIdFromLabel("목") == 14
    ensures PartIdFromLabel("머리카락") == 17
  {
  }

  /** No id is used for two labels. */
  lemma MappingInjective(a: string, b: string)
    requires a in Mapping && b in Mapping && a != b
    ensures Mapping[a] != Mapping[b]
  {
  }

  /** Two labels that look up to the same valid id are the same label. */
  lemma PartIdFromLabelInjective(a: string, b: string)
    requires PartIdFromLabel(a) == PartIdFromLabel(b) != Invalid
    ensures a == b
  {
    if a != b {
      MappingInjective(a, b);
    }
  }

  /** The labels of a list of entries in display order: a leaf gives its label,
      a group record gives each group's labels in turn. */
  function Labels(entries: seq<PartEntry>): seq<string>
  {
    if |entries| == 0 then []
    else EntryLabels(entries[0]) + Labels(entries[1..])
  }

  function EntryLabels(e: PartEntry): seq<string>
  {
    match e
    case Leaf(partLabel) => [partLabel]
    case Groups(groups) => GroupLabels(groups)
  }

  function GroupLabels(groups: seq<(string, seq<string>)>): seq<string>
  {
    if |groups| == 0 then [] else groups[0].1 + GroupLabels(groups[1..])
  }

  /** Appending entries appends their labels. */
  lemma {:induction false} LabelsAppend(a: seq<PartEntry>, b: seq<PartEntry>)
    ensures Labels(a + b) == Labels(a) + Labels(b)
    decreases |a|
  {
    if |a| == 0 {
      assert a + b == b;
    } else {
      assert (a + b)[1..] == a[1..] + b;
      LabelsAppend(a[1..], b);
    }
  }

  /** Every label listed in the category menu looks up to a positive id. */
  lemma HierarchyLeavesHavePositiveIds(category: string, partLabel: string)
    requires category in Hierarchy
    requires partLabel in Labels(Hierarchy[category])
    ensures PartIdFromLabel(partLabel) > 0
    ensures PartIdFromLabelNullish(partLabel) == PartIdFromLabel(partLabel)
  {
  }
}
