/** The order of the keys a merge leaves (applyMergeRecursively in src/services/packageJson.ts):
    assigning an existing key keeps its position, a new key is appended. */
module MergeKeyOrder {
  import opened Json
  import opened PackageJson
  import opened MergeProperties

  /** The spec keys the target lacks, in spec order: the keys a merge appends. */
  function NewKeys(t: Fields, spec: Fields): seq<string> {
    if spec == [] then []
    else
      var last := spec[|spec| - 1].0;
      NewKeys(t, spec[..|spec| - 1]) + (if HasKey(t, last) then [] else [last])
  }

  /** What NewKeys adds for the n-th spec entry. */
  lemma NewKeysPrefix(t: Fields, spec: Fields, j: nat, n: nat)
    requires n == j + 1 && n <= |spec|
    ensures NewKeys(t, spec[..n]) ==
      NewKeys(t, spec[..j]) + (if HasKey(t, spec[j].0) then [] else [spec[j].0])
  {
    assert spec[..n][..|spec[..n]| - 1] == spec[..j];
  }

  /** One iteration keeps the key order and appends the key only when it is new to the original target. */
  lemma MergeEntriesKeysStep(t: Fields, spec: Json, j: nat, n: nat)
    requires spec.Obj? && n == j + 1 && n <= |spec.fields| && UniqueKeys(spec.fields)
    ensures var k := spec.fields[j].0;
      Keys(MergeEntries(t, spec, n)) == Keys(MergeEntries(t, spec, j)) + (if HasKey(t, k) then [] else [k])
  {
    var k := spec.fields[j].0;
    var before := MergeEntries(t, spec, j);
    MergeEntriesNext(t, spec, j, n);
    MergeStepKeys(before, spec.fields[j]);
    assert Get(before, k) == Get(t, k) by {
      KeyNotEarlier(spec.fields, j);
      MergeEntriesUntouched(t, spec, j, k);
    }
  }

  /** Assigning an existing key keeps the key order; a new key is appended. */
  lemma MergeStepKeys(before: Fields, entry: (string, Json))
    ensures Keys(MergeStep(before, entry)) ==
      if HasKey(before, entry.0) then Keys(before) else Keys(before) + [entry.0]
  {
    PutKeys(before, entry.0, MergedValue(before, entry.0, entry.1));
  }

  lemma {:induction false} MergeEntriesKeys(t: Fields, spec: Json, n: nat)
    requires spec.Obj? && n <= |spec.fields| && UniqueKeys(spec.fields)
    ensures Keys(MergeEntries(t, spec, n)) == Keys(t) + NewKeys(t, spec.fields[..n])
    decreases n
  {
    if n == 0 {
      assert Keys(t) + [] == Keys(t);
    } else {
      var j := n - 1;
      var k := spec.fields[j].0;
      var added: seq<string> := if HasKey(t, k) then [] else [k];
      MergeEntriesKeys(t, spec, j);
      MergeEntriesKeysStep(t, spec, j, n);
      NewKeysPrefix(t, spec.fields, j, n);
      ConcatAssoc(Keys(t), NewKeys(t, spec.fields[..j]), added);
    }
  }

  /** Existing keys keep their positions; the spec's new keys follow, in spec order. */
  lemma MergeKeys(t: Fields, spec: Fields)
    requires UniqueKeys(spec)
    ensures Keys(Merge(t, spec)) == Keys(t) + NewKeys(t, spec)
  {
    MergeEntriesKeys(t, Obj(spec), |spec|);
    assert spec[..|spec|] == spec;
  }

  /** The key order of MergeKeys and the per-key values of MergeKeyCases determine the merge:
      any object with distinct keys that has both is the merge. */
  lemma MergeDetermined(t: Fields, spec: Fields, r: Fields)
    requires WellFormed(Obj(t)) && WellFormed(Obj(spec))
    requires UniqueKeys(r) && Keys(r) == Keys(t) + NewKeys(t, spec)
    requires forall k :: Get(r, k) == if HasKey(spec, k) then Some(MergedValue(t, k, Get(spec, k).value)) else Get(t, k)
    ensures r == Merge(t, spec)
  {
    var m := Merge(t, spec);
    MergeKeys(t, spec);
    MergeEntriesWellFormed(t, Obj(spec), |spec|);
    forall k ensures Get(r, k) == Get(m, k) {
      MergeKeyCases(t, spec, k);
    }
    Extensional(r, m);
  }
}
