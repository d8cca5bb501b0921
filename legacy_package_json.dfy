/** The older copy of the engine in src/utils/packageJson.ts.

    Its delete walks the spec like the engine in src/services/packageJson.ts
    but keeps no report: a null entry deletes the key whether or not the
    target has it, and an emptied nested object is deleted without first
    asking whether the target owns the key. DeleteAgrees shows that the
    two deletes leave the same tree on every input, so the properties
    proved about the newer engine carry over.

    Its merge is the same text as the newer engine's and is modelled by
    PackageJson.ApplyMergeRecursively.
 */
module LegacyPackageJson {
  import opened Json
  import PackageJson
  import DeleteProperties

  /** The target after the loop has handled the first n entries of spec. */
  function DeleteEntries(target: Fields, spec: Json, n: nat): Fields
    requires spec.Obj? && n <= |spec.fields|
    decreases spec, n
  {
    if n == 0 then target
    else DeleteEntry(DeleteEntries(target, spec, n - 1), spec.fields[n - 1].0, spec.fields[n - 1].1)
  }

  /** One iteration of the loop, for the spec entry (key, value). */
  function DeleteEntry(target: Fields, key: string, value: Json): Fields
    decreases value
  {
    if value.Null? then Remove(target, key)
    else if value.Obj? && ObjectAt(target, key).Some? then
      var nested := DeleteEntries(ObjectAt(target, key).value, value, |value.fields|);
      var written := Put(target, key, Obj(nested));
      if IsEmptyObject(nested) then Remove(written, key) else written
    else target
  }

  /** applyPackageDeleteSpec */
  function Delete(target: Fields, spec: Fields): Fields {
    DeleteEntries(target, Obj(spec), |spec|)
  }

  /** The fold takes one more spec entry: entry i is handled after the first i. */
  lemma DeleteEntriesNext(target: Fields, spec: Json, i: nat, n: nat)
    requires spec.Obj? && i == n - 1 && 0 < n <= |spec.fields|
    ensures DeleteEntries(target, spec, n)
         == DeleteEntry(DeleteEntries(target, spec, i), spec.fields[i].0, spec.fields[i].1)
  {
  }

  method ApplyDeleteRecursively(target: Fields, spec: Json) returns (result: Fields)
    requires spec.Obj?
    ensures result == DeleteEntries(target, spec, |spec.fields|)
    decreases spec, 0
  {
    result := target;
    var i := 0;
    while i < |spec.fields|
      invariant 0 <= i <= |spec.fields|
      invariant result == DeleteEntries(target, spec, i)
    {
      var next := i + 1;
      DeleteEntriesNext(target, spec, i, next);
      result := DeleteEntryFrom(result, spec.fields[i].0, spec.fields[i].1);
      i := next;
    }
  }

  /** The body of the loop in applyDeleteRecursively, for the spec entry (key, value). */
  method DeleteEntryFrom(target: Fields, key: string, value: Json) returns (result: Fields)
    ensures result == DeleteEntry(target, key, value)
    decreases value, 1
  {
    result := target;
    if value.Null? {
      result := Remove(result, key);
    } else if IsPlainObject(value) && ObjectAt(result, key).Some? {
      var nested := ApplyDeleteRecursively(ObjectAt(result, key).value, value);
      result := Put(result, key, Obj(nested));
      if IsEmptyObject(nested) {
        result := Remove(result, key);
      }
    }
  }

  /** applyPackageDeleteSpec: the edited manifest. */
  method ApplyPackageDeleteSpec(target: Fields, spec: Fields) returns (result: Fields)
    ensures result == Delete(target, spec)
  {
    result := ApplyDeleteRecursively(target, Obj(spec));
  }

  // ---------------------------------------------------------------------
  // Agreement with the newer engine
  // ---------------------------------------------------------------------

  /** After any number of iterations both loops hold the same target, whatever path prefix the newer one reports under. */
  lemma {:induction false} DeleteEntriesAgree(t: Fields, spec: Json, n: nat, segments: PackageJson.Path)
    requires spec.Obj? && n <= |spec.fields|
    ensures DeleteEntries(t, spec, n) == PackageJson.DeleteEntries(t, spec, n, segments).tree
    decreases spec, 1, n
  {
    if n > 0 {
      var j := n - 1;
      DeleteEntriesAgree(t, spec, j, segments);
      DeleteEntriesNext(t, spec, j, n);
      PackageJson.DeleteEntriesNext(t, spec, j, n, segments);
      DeleteEntryAgree(DeleteEntries(t, spec, j), spec.fields[j].0, spec.fields[j].1, segments);
    }
  }

  /** One iteration: deleting an absent key changes nothing, and a key just written is owned. */
  lemma {:induction false} DeleteEntryAgree(t: Fields, key: string, value: Json, segments: PackageJson.Path)
    ensures DeleteEntry(t, key, value) == PackageJson.DeleteEntry(t, key, value, segments).tree
    decreases value, 2
  {
    if value.Obj? && ObjectAt(t, key).Some? {
      var nested := DeleteEntries(ObjectAt(t, key).value, value, |value.fields|);
      DeleteEntriesAgree(ObjectAt(t, key).value, value, |value.fields|, segments + [key]);
      assert HasKey(Put(t, key, Obj(nested)), key);
    }
  }

  /** The older delete leaves exactly the tree the newer one leaves, on every input. */
  lemma DeleteAgrees(t: Fields, spec: Fields)
    ensures Delete(t, spec) == PackageJson.Delete(t, spec).tree
  {
    DeleteEntriesAgree(t, Obj(spec), |spec|, []);
  }

  /** Deleting twice with the same spec is the same as deleting once. */
  lemma DeleteIdempotent(t: Fields, spec: Fields)
    requires WellFormed(Obj(t)) && WellFormed(Obj(spec))
    ensures Delete(Delete(t, spec), spec) == Delete(t, spec)
  {
    DeleteAgrees(t, spec);
    DeleteAgrees(Delete(t, spec), spec);
    DeleteProperties.DeleteIdempotent(t, spec);
  }

  /** What the older delete leaves at a top-level key, by the kind of spec entry that names it. */
  lemma DeleteKeyCases(t: Fields, spec: Fields, k: string)
    requires WellFormed(Obj(t)) && WellFormed(Obj(spec))
    ensures
      var after := Get(Delete(t, spec), k);
      var i := IndexOf(spec, k);
      && (i < 0 ==> after == Get(t, k))
      && (0 <= i && spec[i].1.Null? ==> after == None)
      && (0 <= i && spec[i].1.Obj? && ObjectAt(t, k).Some? ==>
            var sub := Delete(ObjectAt(t, k).value, spec[i].1.fields);
            after == if sub == [] then None else Some(Obj(sub)))
      && (0 <= i && !spec[i].1.Null? && !(spec[i].1.Obj? && ObjectAt(t, k).Some?) ==> after == Get(t, k))
  {
    DeleteAgrees(t, spec);
    DeleteProperties.DeleteKeyCases(t, spec, k);
    var i := IndexOf(spec, k);
    if 0 <= i && spec[i].1.Obj? && ObjectAt(t, k).Some? {
      DeleteAgrees(ObjectAt(t, k).value, spec[i].1.fields);
    }
  }

  /** Every key the spec marks with null is gone afterwards. */
  lemma DeleteRemovesNullKeys(t: Fields, spec: Fields, k: string)
    requires WellFormed(Obj(t)) && WellFormed(Obj(spec))
    requires Get(spec, k) == Some(Null)
    ensures !HasKey(Delete(t, spec), k)
  {
    DeleteAgrees(t, spec);
    DeleteProperties.DeleteRemovesNullKeys(t, spec, k);
  }

  /** The older delete only removes keys, at any depth. */
  lemma DeleteOnlyRemoves(t: Fields, spec: Fields)
    requires WellFormed(Obj(t)) && WellFormed(Obj(spec))
    ensures DeleteProperties.PrunedFrom(Obj(Delete(t, spec)), Obj(t))
  {
    DeleteAgrees(t, spec);
    DeleteProperties.DeleteOnlyRemoves(t, spec);
  }
}
