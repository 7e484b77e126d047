/**
 * A block of the parsed save file: its start and size, the variable
 * occurrences it owns (a name may occur more than once), and the staging map
 * that holds variables inserted while editing.
 */
module Blocks {
  import opened ValueCodec
  import opened Variables

  /** getVariables() is a list multimap keyed by variable name: here the occurrences in
      order, each keyed by its own name. getStagingVariables() maps a name to one descriptor. */
  datatype BlockInfo = BlockInfo(
    start: int,
    size: int,
    variables: seq<VariableInfo>,
    staging: map<JString, VariableInfo>)

  /** getVariables().get(name): the occurrences of the name, in order; empty when there is none. */
  function Occurrences(vs: seq<VariableInfo>, name: JString): (r: seq<VariableInfo>)
    ensures |r| <= |vs|
    ensures forall v :: v in r <==> v in vs && v.name == name
    ensures forall i :: 0 <= i < |r| ==> r[i].name == name
    decreases |vs|
  {
    if vs == [] then []
    else (if vs[0].name == name then [vs[0]] else []) + Occurrences(vs[1..], name)
  }

  /** Each variable with the name occurs in the list as many times as in the block. */
  lemma {:induction false} OccurrencesCount(vs: seq<VariableInfo>, name: JString, v: VariableInfo)
    ensures multiset(Occurrences(vs, name))[v] == if v.name == name then multiset(vs)[v] else 0
    decreases |vs|
  {
    if vs != [] {
      assert vs == [vs[0]] + vs[1..];
      OccurrencesCount(vs[1..], name, v);
    }
  }

  /** Occurrences keep the block's order: those of a concatenation are the first part's, then
      the second's. */
  lemma {:induction false} OccurrencesAppend(a: seq<VariableInfo>, b: seq<VariableInfo>, name: JString)
    ensures Occurrences(a + b, name) == Occurrences(a, name) + Occurrences(b, name)
    decreases |a|
  {
    if a == [] {
      assert a + b == b;
    } else {
      assert (a + b)[0] == a[0] && (a + b)[1..] == a[1..] + b;
      OccurrencesAppend(a[1..], b, name);
      var head := if a[0].name == name then [a[0]] else [];
      assert Occurrences(a + b, name) == head + Occurrences(a[1..] + b, name);
      AppendAssociative(head, Occurrences(a[1..], name), Occurrences(b, name));
    }
  }

  /** The first occurrence of a name is the first variable of the block that has that name. */
  lemma {:induction false} FirstOccurrence(vs: seq<VariableInfo>, name: JString)
    requires Occurrences(vs, name) != []
    ensures exists i :: 0 <= i < |vs| && vs[i] == Occurrences(vs, name)[0]
                        && forall j :: 0 <= j < i ==> vs[j].name != name
  {
    if vs[0].name != name {
      FirstOccurrence(vs[1..], name);
      var i :| 0 <= i < |vs[1..]| && vs[1..][i] == Occurrences(vs[1..], name)[0]
               && forall j :: 0 <= j < i ==> vs[1..][j].name != name;
      assert vs[i + 1] == Occurrences(vs, name)[0];
      forall j | 0 <= j < i + 1 ensures vs[j].name != name {
        if j > 0 { assert vs[j] == vs[1..][j - 1]; }
      }
    }
  }

  /** The value offsets of a sequence of occurrences. */
  function ValOffsets(vs: seq<VariableInfo>): (r: set<int>)
    ensures forall v :: v in vs ==> v.valOffset in r
    ensures forall k :: k in r ==> exists v :: v in vs && v.valOffset == k
  {
    set v | v in vs :: v.valOffset
  }
}
