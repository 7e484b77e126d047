/**
 * The schema of the stash file: each known variable name with its declared
 * type and the kind of block it is found in.
 */
module StashFileVariables {
  import opened Outcomes
  import opened Variables

  /** The stash file's block kinds. */
  datatype StashBlockType = Body | StashItemPrefix | StashItem | StashItemSuffix

  /** One schema entry: var(), type(), location(). */
  datatype StashFileVariable = StashFileVariable(variable: string, variableType: VariableType, location: StashBlockType)

  /** The static table, name to entry. The names are ASCII identifiers, so a Dafny `string`
      holds each of them unit for unit as the Java `String` does. */
  const TABLE: map<string, StashFileVariable> := map[
    "stashVersion" := StashFileVariable("stashVersion", Integer, Body),
    "fName" := StashFileVariable("fName", String, Body),
    "sackWidth" := StashFileVariable("sackWidth", Integer, Body),
    "sackHeight" := StashFileVariable("sackHeight", Integer, Body),
    "numItems" := StashFileVariable("numItems", Integer, Body),
    "stackCount" := StashFileVariable("stackCount", Integer, StashItemPrefix),
    "baseName" := StashFileVariable("baseName", String, StashItem),
    "prefixName" := StashFileVariable("prefixName", String, StashItem),
    "suffixName" := StashFileVariable("suffixName", String, StashItem),
    "relicName" := StashFileVariable("relicName", String, StashItem),
    "relicBonus" := StashFileVariable("relicBonus", String, StashItem),
    "seed" := StashFileVariable("seed", Integer, StashItem),
    "var1" := StashFileVariable("var1", Integer, StashItem),
    "relicName2" := StashFileVariable("relicName2", String, StashItem),
    "relicBonus2" := StashFileVariable("relicBonus2", String, StashItem),
    "var2" := StashFileVariable("var2", Integer, StashItem),
    "xOffset" := StashFileVariable("xOffset", Integer, StashItemSuffix),
    "yOffset" := StashFileVariable("yOffset", Integer, StashItemSuffix)
  ]

  /** The names the table declares as narrow strings. */
  const STRING_NAMES: set<string> :=
    {"fName", "baseName", "prefixName", "suffixName", "relicName", "relicBonus", "relicName2", "relicBonus2"}

  /** The names the table places in the stash body. */
  const BODY_NAMES: set<string> := {"stashVersion", "fName", "sackWidth", "sackHeight", "numItems"}

  /** valueOf: the entry stored under the name, null for a name the table does not know. */
  function ValueOf(name: string): (r: Option<StashFileVariable>)
    ensures r.Some? <==> name in TABLE
    ensures name in TABLE ==> r == Some(TABLE[name])
    ensures r.Some? ==> r.value.variable == name
    ensures r.Some? ==> r.value.variableType == String || r.value.variableType == Integer
  {
    if name in TABLE then Some(TABLE[name]) else None
  }

  /** Every entry's var() is the key it is stored under. */
  lemma TableEntriesNameThemselves()
    ensures forall k :: k in TABLE ==> TABLE[k].variable == k
  {
  }

  /** Exactly the eight listed names are strings; every other entry is an integer. */
  lemma TableTypes()
    ensures forall k :: k in TABLE ==> (TABLE[k].variableType == String <==> k in STRING_NAMES)
    ensures forall k :: k in TABLE && k !in STRING_NAMES ==> TABLE[k].variableType == Integer
    ensures STRING_NAMES <= TABLE.Keys
  {
  }

  /** The five body names are in the body; stackCount is in the item prefix; xOffset and
      yOffset are in the item suffix; everything else is in the item. */
  lemma TableLocations()
    ensures forall k :: k in TABLE ==> (TABLE[k].location == Body <==> k in BODY_NAMES)
    ensures TABLE["stackCount"].location == StashItemPrefix
    ensures TABLE["xOffset"].location == StashItemSuffix && TABLE["yOffset"].location == StashItemSuffix
    ensures forall k :: k in TABLE && k !in BODY_NAMES && k != "stackCount" && k != "xOffset" && k != "yOffset" ==>
              TABLE[k].location == StashItem
  {
  }
}
