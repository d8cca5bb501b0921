/** Properties of the merge engine (applyMergeRecursively in src/services/packageJson.ts).

    The per-key lemmas say what every key of the result holds; MergeKeyOrder
    says in which order the keys appear, and MergeKeyOrder.MergeDetermined uses
    Extensional to show that the two together pin the result down.
 */
module MergeProperties {
  import opened Json
  import opened PackageJson

  // ---------------------------------------------------------------------
  // What each key holds
  // ---------------------------------------------------------------------

  /** Keys the first n spec entries do not name keep their values. */
  lemma {:induction false} MergeEntriesUntouched(t: Fields, spec: Json, n: nat, k: string)
    requires spec.Obj? && n <= |spec.fields|
    requires !HasKey(spec.fields[..n], k)
    ensures Get(MergeEntries(t, spec, n), k) == Get(t, k)
    decreases n
  {
    if n > 0 {
      var j := n - 1;
      KeyInOwnPrefix(spec.fields, j, n);
      if HasKey(spec.fields[..j], k) {
        HasKeyPrefixGrows(spec.fields, j, n, k);
      }
      MergeEntriesUntouched(t, spec, j, k);
      MergeEntriesNext(t, spec, j, n);
    }
  }

  /** The iteration for entry j assigns its merged value, computed from the original slot. */
  lemma MergeEntriesAssignedHere(t: Fields, spec: Json, j: nat, n: nat)
    requires spec.Obj? && n == j + 1 && n <= |spec.fields| && UniqueKeys(spec.fields)
    ensures Get(MergeEntries(t, spec, n), spec.fields[j].0)
         == Some(MergedValue(t, spec.fields[j].0, spec.fields[j].1))
  {
    var k := spec.fields[j].0;
    var before := MergeEntries(t, spec, j);
    MergeEntriesNext(t, spec, j, n);
    assert Get(before, k) == Get(t, k) by {
      KeyNotEarlier(spec.fields, j);
      MergeEntriesUntouched(t, spec, j, k);
    }
    assert Slot(before, k) == Slot(t, k);
  }

  /** A later iteration, for entry p, leaves the key of entry j alone. */
  lemma MergeEntriesAssignedKept(t: Fields, spec: Json, j: nat, p: nat, n: nat)
    requires spec.Obj? && j < p && n == p + 1 && n <= |spec.fields| && UniqueKeys(spec.fields)
    ensures Get(MergeEntries(t, spec, n), spec.fields[j].0) == Get(MergeEntries(t, spec, p), spec.fields[j].0)
  {
    MergeEntriesNext(t, spec, p, n);
    DistinctKeys(spec.fields, j, p);
  }

  /** After the first n entries, the key of entry j < n holds what that entry assigns to the original target. */
  lemma {:induction false} MergeEntriesAssigned(t: Fields, spec: Json, n: nat, j: nat)
    requires spec.Obj? && j < n <= |spec.fields| && UniqueKeys(spec.fields)
    ensures Get(MergeEntries(t, spec, n), spec.fields[j].0)
         == Some(MergedValue(t, spec.fields[j].0, spec.fields[j].1))
    decreases n
  {
    if n == j + 1 {
      MergeEntriesAssignedHere(t, spec, j, n);
    } else {
      var p := n - 1;
      MergeEntriesAssigned(t, spec, p, j);
      MergeEntriesAssignedKept(t, spec, j, p, n);
    }
  }

  /** applyPackageMergeSpec key by key: a spec key gets the merged value, any other key keeps its value. */
  lemma MergeKeyCases(t: Fields, spec: Fields, k: string)
    requires UniqueKeys(spec)
    ensures Get(Merge(t, spec), k) ==
      if HasKey(spec, k) then Some(MergedValue(t, k, Get(spec, k).value)) else Get(t, k)
  {
    assert spec[..|spec|] == spec;
    if HasKey(spec, k) {
      var j := IndexOf(spec, k);
      MergeEntriesAssigned(t, Obj(spec), |spec|, j);
    } else {
      MergeEntriesUntouched(t, Obj(spec), |spec|, k);
    }
  }

  /** A spec value that is not a plain object (scalar, array or null) is stored verbatim, overwriting the old value. */
  lemma MergeStoresVerbatim(t: Fields, spec: Fields, k: string, v: Json)
    requires UniqueKeys(spec) && Get(spec, k) == Some(v) && !v.Obj?
    ensures Get(Merge(t, spec), k) == Some(v)
  {
    MergeKeyCases(t, spec, k);
  }

  /** A plain-object spec value makes the slot a plain object: the old one merged recursively,
      or a fresh {} when the slot was absent or held a scalar, an array or null. */
  lemma MergeCoercesToObject(t: Fields, spec: Fields, k: string, sub: Fields)
    requires UniqueKeys(spec) && Get(spec, k) == Some(Obj(sub))
    ensures ObjectAt(t, k).Some? ==> Get(Merge(t, spec), k) == Some(Obj(Merge(ObjectAt(t, k).value, sub)))
    ensures ObjectAt(t, k).None? ==> Get(Merge(t, spec), k) == Some(Obj(Merge([], sub)))
  {
    MergeKeyCases(t, spec, k);
  }

  // ---------------------------------------------------------------------
  // Well-formedness and idempotence
  // ---------------------------------------------------------------------

  lemma SlotWellFormed(t: Fields, k: string)
    requires WellFormed(Obj(t))
    ensures WellFormed(Obj(Slot(t, k)))
  {
    if ObjectAt(t, k).Some? {
      WellFormedAt(t, k);
    }
  }

  /** Merging keeps keys distinct at every level. */
  lemma {:induction false} MergeEntriesWellFormed(t: Fields, spec: Json, n: nat)
    requires spec.Obj? && n <= |spec.fields|
    requires WellFormed(Obj(t)) && WellFormed(spec)
    ensures WellFormed(Obj(MergeEntries(t, spec, n)))
    decreases spec, 1, n
  {
    if n > 0 {
      var j := n - 1;
      MergeEntriesWellFormed(t, spec, j);
      MergeStepWellFormed(t, spec, j, n);
    }
  }

  lemma {:induction false} MergeStepWellFormed(t: Fields, spec: Json, j: nat, n: nat)
    requires spec.Obj? && n == j + 1 && n <= |spec.fields|
    requires WellFormed(spec) && WellFormed(Obj(MergeEntries(t, spec, j)))
    ensures WellFormed(Obj(MergeEntries(t, spec, n)))
    decreases spec, 0, n
  {
    var before := MergeEntries(t, spec, j);
    var k := spec.fields[j].0;
    var v := spec.fields[j].1;
    MergeEntriesNext(t, spec, j, n);
    assert WellFormed(v) by {
      assert spec.fields[j].1 == v;
    }
    MergedValueWellFormed(before, k, v);
    PutWellFormed(before, k, MergedValue(before, k, v));
  }

  lemma {:induction false} MergedValueWellFormed(t: Fields, k: string, v: Json)
    requires WellFormed(Obj(t)) && WellFormed(v)
    ensures WellFormed(MergedValue(t, k, v))
    decreases v, 2
  {
    if v.Obj? {
      SlotWellFormed(t, k);
      MergeEntriesWellFormed(Slot(t, k), v, |v.fields|);
    }
  }

  /** Once all of spec has been merged, merging its first n entries again changes nothing. */
  lemma {:induction false} MergeSettled(t: Fields, spec: Json, n: nat)
    requires spec.Obj? && n <= |spec.fields|
    requires WellFormed(Obj(t)) && WellFormed(spec)
    ensures var m := MergeEntries(t, spec, |spec.fields|); MergeEntries(m, spec, n) == m
    decreases spec, 1, n
  {
    if n > 0 {
      var j := n - 1;
      MergeSettled(t, spec, j);
      MergeSettledStep(t, spec, j, n);
    }
  }

  /** Entry j finds the value it would assign already in place. */
  lemma {:induction false} MergeSettledStep(t: Fields, spec: Json, j: nat, n: nat)
    requires spec.Obj? && n == j + 1 && n <= |spec.fields|
    requires WellFormed(Obj(t)) && WellFormed(spec)
    requires var m := MergeEntries(t, spec, |spec.fields|); MergeEntries(m, spec, j) == m
    ensures var m := MergeEntries(t, spec, |spec.fields|); MergeEntries(m, spec, n) == m
    decreases spec, 0, n
  {
    var m := MergeEntries(t, spec, |spec.fields|);
    var k := spec.fields[j].0;
    MergeEntriesNext(m, spec, j, n);
    assert Get(m, k) == Some(MergedValue(t, k, spec.fields[j].1)) by {
      MergeEntriesAssigned(t, spec, |spec.fields|, j);
    }
    MergedValueSettled(t, spec, j);
    assert UniqueKeys(m) by {
      MergeEntriesWellFormed(t, spec, |spec.fields|);
    }
    PutSame(m, k, MergedValue(m, k, spec.fields[j].1));
  }

  /** Entry j computes the same value from the merged target as from the original one. */
  lemma {:induction false} MergedValueSettled(t: Fields, spec: Json, j: nat)
    requires spec.Obj? && j < |spec.fields|
    requires WellFormed(Obj(t)) && WellFormed(spec)
    ensures var m := MergeEntries(t, spec, |spec.fields|);
      MergedValue(m, spec.fields[j].0, spec.fields[j].1) == MergedValue(t, spec.fields[j].0, spec.fields[j].1)
    decreases spec, 0, j
  {
    var m := MergeEntries(t, spec, |spec.fields|);
    var k := spec.fields[j].0;
    var v := spec.fields[j].1;
    if v.Obj? {
      assert Get(m, k) == Some(MergedValue(t, k, v)) by {
        MergeEntriesAssigned(t, spec, |spec.fields|, j);
      }
      assert Slot(m, k) == MergeEntries(Slot(t, k), v, |v.fields|);
      assert WellFormed(v) by {
        assert spec.fields[j].1 == v;
      }
      SlotWellFormed(t, k);
      MergeIdempotentAt(Slot(t, k), v);
    }
  }

  lemma {:induction false} MergeIdempotentAt(t: Fields, spec: Json)
    requires spec.Obj? && WellFormed(Obj(t)) && WellFormed(spec)
    ensures var m := MergeEntries(t, spec, |spec.fields|); MergeEntries(m, spec, |spec.fields|) == m
    decreases spec, 2
  {
    MergeSettled(t, spec, |spec.fields|);
  }

  /** Applying the same merge spec twice equals applying it once. */
  lemma MergeIdempotent(t: Fields, spec: Fields)
    requires WellFormed(Obj(t)) && WellFormed(Obj(spec))
    ensures Merge(Merge(t, spec), spec) == Merge(t, spec)
  {
    MergeIdempotentAt(t, Obj(spec));
  }

  /** Two objects with distinct keys, the same keys in the same order and the same value at every key are equal. */
  lemma Extensional(a: Fields, b: Fields)
    requires UniqueKeys(a) && UniqueKeys(b) && Keys(a) == Keys(b)
    requires forall k :: Get(a, k) == Get(b, k)
    ensures a == b
  {
    assert |a| == |Keys(a)| == |b|;
    forall i | 0 <= i < |a| ensures a[i] == b[i] {
      assert Keys(a)[i] == a[i].0 && Keys(b)[i] == b[i].0;
      assert Get(a, a[i].0) == Some(a[i].1);
      assert Get(b, b[i].0) == Some(b[i].1);
    }
  }

  /** A scalar slot is replaced by an object before the spec's object is merged into it. */
  lemma MergeCoerceExample()
    ensures Merge([("scripts", Str("x"))], [("scripts", Obj([("lint", Str("y"))]))])
         == [("scripts", Obj([("lint", Str("y"))]))]
  {
    var t: Fields := [("scripts", Str("x"))];
    var lint: Fields := [("lint", Str("y"))];
    var spec: Fields := [("scripts", Obj(lint))];
    MergeEntriesNext(t, Obj(spec), 0, 1);
    assert t[0].0 == "scripts";
    assert Slot(t, "scripts") == [];
    MergeEntriesNext([], Obj(lint), 0, 1);
    assert MergeEntries([], Obj(lint), 1) == lint;
    assert Put(t, "scripts", Obj(lint)) == [("scripts", Obj(lint))];
  }
}
