/** The field-name index and the name-addressable row view. */
module FieldIndex {

  /** A row: the stream's field-name index and the current raw record. */
  datatype Row = Row(idx: map<string, nat>, record: seq<string>)

  /**
   * The name-to-position index, filled in list order so that a later
   * duplicate overwrites an earlier one.
   */
  function BuildIndex(names: seq<string>): (idx: map<string, nat>)
    ensures idx.Keys == set i | 0 <= i < |names| :: names[i]
    ensures forall n :: n in idx ==> idx[n] < |names| && names[idx[n]] == n
    ensures forall i :: 0 <= i < |names| ==> names[i] in idx && i <= idx[names[i]]
    decreases |names|
  {
    if |names| == 0 then map[]
    else
      var init := names[..|names| - 1];
      var last := names[|names| - 1];
      var idx := BuildIndex(init);
      IndexStep(names, idx);
      idx[last := |names| - 1]
  }

  /** Recording the last name at its position extends an index of all the names before it. */
  lemma IndexStep(names: seq<string>, idx: map<string, nat>)
    requires |names| > 0
    requires var init := names[..|names| - 1];
      && idx.Keys == (set i | 0 <= i < |init| :: init[i])
      && (forall n :: n in idx ==> idx[n] < |init| && init[idx[n]] == n)
      && (forall i :: 0 <= i < |init| ==> init[i] in idx && i <= idx[init[i]])
    ensures var r := idx[names[|names| - 1] := |names| - 1];
      && r.Keys == (set i | 0 <= i < |names| :: names[i])
      && (forall n :: n in r ==> r[n] < |names| && names[r[n]] == n)
      && (forall i :: 0 <= i < |names| ==> names[i] in r && i <= r[names[i]])
  {
    var init := names[..|names| - 1];
    assert forall i :: 0 <= i < |init| ==> init[i] == names[i];
    var r := idx[names[|names| - 1] := |names| - 1];
    assert r.Keys == idx.Keys + {names[|names| - 1]};
    assert (set i | 0 <= i < |names| :: names[i]) == (set i | 0 <= i < |init| :: init[i]) + {names[|names| - 1]};
  }

  /** Every position the index names exists in the record, so no lookup can go out of range. */
  predicate Covers(r: Row)
  {
    forall k :: k in r.idx ==> r.idx[k] < |r.record|
  }

  /** The value of column `name` in the current record, or "" for a name the index lacks. */
  function Field(r: Row, name: string): (v: string)
    requires name in r.idx ==> r.idx[name] < |r.record|
    ensures name in r.idx ==> v == r.record[r.idx[name]]
    ensures name !in r.idx ==> v == ""
  {
    if name in r.idx then r.record[r.idx[name]] else ""
  }

  /** A snapshot map from every indexed name to its value in the current record. */
  function Fields(r: Row): (m: map<string, string>)
    requires Covers(r)
    ensures m.Keys == r.idx.Keys
    ensures forall k :: k in m ==> m[k] == r.record[r.idx[k]]
  {
    map k | k in r.idx :: r.record[r.idx[k]]
  }

  /** The snapshot and the single-name accessor agree on every name, known or not. */
  lemma FieldsAgreeWithField(r: Row, name: string)
    requires Covers(r)
    ensures name in Fields(r) <==> name in r.idx
    ensures Field(r, name) == (if name in Fields(r) then Fields(r)[name] else "")
  {
  }

  /** With distinct names, each name maps to its own position. */
  lemma IndexOfDistinctNames(names: seq<string>, i: nat)
    requires forall a, b :: 0 <= a < b < |names| ==> names[a] != names[b]
    requires i < |names|
    ensures BuildIndex(names)[names[i]] == i
  {
    var p := BuildIndex(names)[names[i]];
    assert names[p] == names[i];
  }

  /** A duplicated name resolves to its last occurrence. */
  lemma LastDuplicateWins(names: seq<string>, i: nat, j: nat)
    requires i < j < |names| && names[i] == names[j]
    requires forall k :: j < k < |names| ==> names[k] != names[j]
    ensures BuildIndex(names)[names[i]] == j
  {
    var p := BuildIndex(names)[names[j]];
    assert j <= p && names[p] == names[j];
  }

  /** A record is long enough for every lookup exactly when it has at least as many fields as there are names. */
  lemma IndexCoversIff(names: seq<string>, record: seq<string>)
    ensures Covers(Row(BuildIndex(names), record)) <==> |names| <= |record|
  {
    var idx := BuildIndex(names);
    if Covers(Row(idx, record)) && |names| > 0 {
      var last := names[|names| - 1];
      assert last in idx;
      assert idx[last] == |names| - 1;
    }
  }

  /** With distinct names and a record at least that long, the snapshot pairs each name with its own column. */
  lemma FieldsOfDistinctNames(names: seq<string>, record: seq<string>)
    requires forall a, b :: 0 <= a < b < |names| ==> names[a] != names[b]
    requires |names| <= |record|
    ensures Covers(Row(BuildIndex(names), record))
    ensures forall i :: 0 <= i < |names| ==> Fields(Row(BuildIndex(names), record))[names[i]] == record[i]
  {
    IndexCoversIff(names, record);
    forall i | 0 <= i < |names|
      ensures Fields(Row(BuildIndex(names), record))[names[i]] == record[i]
    {
      IndexOfDistinctNames(names, i);
    }
  }
}
