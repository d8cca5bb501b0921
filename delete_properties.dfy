/** What the delete engine of src/services/packageJson.ts guarantees.

    Deleted is a second, independent description of the tree a delete
    leaves behind: instead of folding over the SPEC's entries, as the
    source's loop does, it walks the TARGET's entries and decides for each
    one whether it stays, goes, or is trimmed. DeleteMatchesReference
    proves the two agree on well-formed input; the per-key, idempotence and
    "only removes" properties are then proved about the reference.
 */
module DeleteProperties {
  import opened Json
  import opened PackageJson

  /** The target after a delete, entry by entry over the target. */
  function Deleted(target: Fields, spec: Json): Fields
    requires spec.Obj?
    decreases spec, |target|
  {
    if target == [] then [] else Kept(target[0], spec) + Deleted(target[1..], spec)
  }

  /** What becomes of one target entry: nothing, itself, or a trimmed object. */
  function Kept(e: (string, Json), spec: Json): Fields
    requires spec.Obj?
    decreases spec, 0
  {
    var i := IndexOf(spec.fields, e.0);
    if i < 0 then [e]
    else if spec.fields[i].1.Null? then []
    else if spec.fields[i].1.Obj? && e.1.Obj? then
      var sub := Deleted(e.1.fields, spec.fields[i].1);
      if sub == [] then [] else [(e.0, Obj(sub))]
    else [e]
  }

  // ---------------------------------------------------------------------
  // The loop and the reference agree
  // ---------------------------------------------------------------------

  lemma {:induction false} DeletedOnEmptySpec(t: Fields)
    ensures Deleted(t, Obj([])) == t
  {
    if t != [] {
      DeletedOnEmptySpec(t[1..]);
    }
  }

  lemma {:induction false} DeletedKeys(t: Fields, spec: Json, k: string)
    requires spec.Obj?
    ensures HasKey(Deleted(t, spec), k) ==> HasKey(t, k)
    decreases |t|
  {
    if t != [] {
      DeletedKeys(t[1..], spec, k);
      HasKeyConcat(Kept(t[0], spec), Deleted(t[1..], spec), k);
      HasKeyCons(t[0], t[1..], k);
      assert t == [t[0]] + t[1..];
    }
  }

  lemma KeptOther(e: (string, Json), p: Fields, kv: (string, Json))
    requires e.0 != kv.0
    ensures Kept(e, Obj(p + [kv])) == Kept(e, Obj(p))
  {
    var i := IndexOf(p, e.0);
    IndexOfAppend(p, kv, e.0);
    assert IndexOf(p + [kv], e.0) == i;
    if 0 <= i {
      assert (p + [kv])[i] == p[i];
    }
  }

  /** A spec entry whose key the target lacks changes nothing. */
  lemma {:induction false} DeletedOther(t: Fields, p: Fields, kv: (string, Json))
    requires !HasKey(t, kv.0)
    ensures Deleted(t, Obj(p + [kv])) == Deleted(t, Obj(p))
    decreases |t|
  {
    if t != [] {
      assert t == [t[0]] + t[1..];
      HasKeyCons(t[0], t[1..], kv.0);
      KeptOther(t[0], p, kv);
      DeletedOther(t[1..], p, kv);
    }
  }

  /** Keys the spec does not name keep their value. */
  lemma {:induction false} DeletedGetUntouched(t: Fields, p: Fields, k: string)
    requires !HasKey(p, k)
    ensures Get(Deleted(t, Obj(p)), k) == Get(t, k)
    decreases |t|
  {
    if t != [] {
      assert t == [t[0]] + t[1..];
      DeletedGetUntouched(t[1..], p, k);
      GetCons(t[0], t[1..], k);
      GetConcat(Kept(t[0], Obj(p)), Deleted(t[1..], Obj(p)), k);
      if t[0].0 == k {
        GetCons(t[0], [], k);
        assert [t[0]] + [] == [t[0]];
      }
    }
  }

  /** The loop's handling of a null spec entry, against the reference. */
  lemma {:induction false} DeletedNullStep(t: Fields, p: Fields, k: string)
    requires !HasKey(p, k)
    ensures Remove(Deleted(t, Obj(p)), k) == Deleted(t, Obj(p + [(k, Null)]))
    decreases |t|
  {
    if t != [] {
      var q := p + [(k, Null)];
      var kept := Kept(t[0], Obj(p));
      var x := Deleted(t[1..], Obj(p));
      calc {
        Remove(Deleted(t, Obj(p)), k);
        Remove(kept + x, k);
        { RemoveConcat(kept, x, k); }
        Remove(kept, k) + Remove(x, k);
        { DeletedNullStep(t[1..], p, k); }
        Remove(kept, k) + Deleted(t[1..], Obj(q));
        { KeptNullStep(t[0], p, k); }
        Kept(t[0], Obj(q)) + Deleted(t[1..], Obj(q));
        Deleted(t, Obj(q));
      }
    }
  }

  lemma KeptNullStep(e: (string, Json), p: Fields, k: string)
    requires !HasKey(p, k)
    ensures Remove(Kept(e, Obj(p)), k) == Kept(e, Obj(p + [(k, Null)]))
  {
    if e.0 == k {
      IndexOfAppend(p, (k, Null), k);
      assert Kept(e, Obj(p)) == [e];
      RemoveCons(e, [], k);
    } else {
      KeptKey(e, Obj(p), k);
      KeptOther(e, p, (k, Null));
    }
  }

  lemma {:induction false} DeletedNoopStep(t: Fields, p: Fields, k: string, v: Json)
    requires UniqueKeys(t) && !HasKey(p, k) && !v.Null?
    requires v.Obj? ==> ObjectAt(t, k).None?
    ensures Deleted(t, Obj(p + [(k, v)])) == Deleted(t, Obj(p))
    decreases |t|
  {
    if t != [] {
      assert t == [t[0]] + t[1..];
      UniqueCons(t[0], t[1..]);
      GetCons(t[0], t[1..], k);
      if t[0].0 == k {
        IndexOfAppend(p, (k, v), k);
        DeletedOther(t[1..], p, (k, v));
      } else {
        KeptOther(t[0], p, (k, v));
        DeletedNoopStep(t[1..], p, k, v);
      }
    }
  }

  /** What survives of an entry keeps the entry's key. */
  lemma KeptKey(e: (string, Json), spec: Json, k: string)
    requires spec.Obj?
    ensures HasKey(Kept(e, spec), k) ==> k == e.0
  {
    var kept := Kept(e, spec);
    if kept != [] {
      assert kept == [kept[0]] && kept[0].0 == e.0;
      HasKeyCons(kept[0], [], k);
    }
  }

  /** The write-back of a nested delete: sub is stored under k, and k goes if sub is empty. */
  function Trimmed(fs: Fields, k: string, sub: Fields): Fields {
    var written := Put(fs, k, Obj(sub));
    if sub == [] then Remove(written, k) else written
  }

  /** Entries in front that lack the key are untouched by the write-back. */
  lemma TrimmedConcat(a: Fields, b: Fields, k: string, sub: Fields)
    requires !HasKey(a, k) && HasKey(b, k)
    ensures Trimmed(a + b, k, sub) == a + Trimmed(b, k, sub)
  {
    PutConcatRight(a, b, k, Obj(sub));
    RemoveConcat(a, Put(b, k, Obj(sub)), k);
  }

  /** The loop's handling of an object-valued spec entry, against the reference. */
  lemma {:induction false} DeletedObjStep(t: Fields, p: Fields, k: string, v: Json, f: Fields)
    requires UniqueKeys(t) && !HasKey(p, k) && v.Obj? && ObjectAt(t, k) == Some(f)
    ensures Trimmed(Deleted(t, Obj(p)), k, Deleted(f, v)) == Deleted(t, Obj(p + [(k, v)]))
    decreases |t|
  {
    assert t == [t[0]] + t[1..];
    UniqueCons(t[0], t[1..]);
    GetCons(t[0], t[1..], k);
    if t[0].0 == k {
      DeletedObjStepHere(t, p, k, v, f);
    } else {
      HasKeyCons(t[0], t[1..], k);
      DeletedObjStep(t[1..], p, k, v, f);
      DeletedObjStepLater(t, p, k, v, f);
    }
  }

  /** The case where the first target entry holds the key. */
  lemma DeletedObjStepHere(t: Fields, p: Fields, k: string, v: Json, f: Fields)
    requires t != [] && t[0] == (k, Obj(f)) && !HasKey(t[1..], k)
    requires !HasKey(p, k) && v.Obj?
    ensures Trimmed(Deleted(t, Obj(p)), k, Deleted(f, v)) == Deleted(t, Obj(p + [(k, v)]))
  {
    var sub := Deleted(f, v);
    var rest := t[1..];
    var x := Deleted(rest, Obj(p));
    assert Kept(t[0], Obj(p)) == [t[0]];
    assert Deleted(t, Obj(p)) == [t[0]] + x;
    IndexOfAppend(p, (k, v), k);
    assert Kept(t[0], Obj(p + [(k, v)])) == if sub == [] then [] else [(k, Obj(sub))];
    DeletedOther(rest, p, (k, v));
    assert Deleted(t, Obj(p + [(k, v)])) == Kept(t[0], Obj(p + [(k, v)])) + x;
    DeletedKeys(rest, Obj(p), k);
    PutConsHead(t[0], x, Obj(sub));
    RemoveCons((k, Obj(sub)), x, k);
  }

  /** The case where a later target entry holds the key, given the claim for the rest. */
  lemma DeletedObjStepLater(t: Fields, p: Fields, k: string, v: Json, f: Fields)
    requires t != [] && t[0].0 != k && HasKey(t[1..], k)
    requires !HasKey(p, k) && v.Obj?
    requires Trimmed(Deleted(t[1..], Obj(p)), k, Deleted(f, v)) == Deleted(t[1..], Obj(p + [(k, v)]))
    ensures Trimmed(Deleted(t, Obj(p)), k, Deleted(f, v)) == Deleted(t, Obj(p + [(k, v)]))
  {
    var kept := Kept(t[0], Obj(p));
    var x := Deleted(t[1..], Obj(p));
    KeptKey(t[0], Obj(p), k);
    assert HasKey(x, k) by {
      DeletedGetUntouched(t[1..], p, k);
    }
    calc {
      Trimmed(Deleted(t, Obj(p)), k, Deleted(f, v));
      Trimmed(kept + x, k, Deleted(f, v));
      { TrimmedConcat(kept, x, k, Deleted(f, v)); }
      kept + Trimmed(x, k, Deleted(f, v));
      kept + Deleted(t[1..], Obj(p + [(k, v)]));
      { KeptOther(t[0], p, (k, v)); }
      Deleted(t, Obj(p + [(k, v)]));
    }
  }

  /** After n iterations the loop's target is the reference applied to the first n spec entries. */
  lemma {:induction false} DeleteEntriesTree(t: Fields, spec: Json, n: nat, segments: Path)
    requires spec.Obj? && n <= |spec.fields|
    requires WellFormed(Obj(t)) && WellFormed(spec)
    ensures DeleteEntries(t, spec, n, segments).tree == Deleted(t, Obj(spec.fields[..n]))
    decreases spec, 1, n
  {
    if n == 0 {
      DeletedOnEmptySpec(t);
    } else {
      var j := n - 1;
      DeleteEntriesTree(t, spec, j, segments);
      DeleteEntriesTreeStep(t, spec, j, n, segments);
    }
  }

  /** One more iteration keeps the loop's target equal to the reference. */
  lemma {:induction false} DeleteEntriesTreeStep(t: Fields, spec: Json, j: nat, n: nat, segments: Path)
    requires spec.Obj? && j == n - 1 && 0 < n <= |spec.fields|
    requires WellFormed(Obj(t)) && WellFormed(spec)
    requires DeleteEntries(t, spec, j, segments).tree == Deleted(t, Obj(spec.fields[..j]))
    ensures DeleteEntries(t, spec, n, segments).tree == Deleted(t, Obj(spec.fields[..n]))
    decreases spec, 0, n
  {
    DeleteEntriesNext(t, spec, j, n, segments);
    var p := spec.fields[..j];
    var k, v := spec.fields[j].0, spec.fields[j].1;
    var before := DeleteEntries(t, spec, j, segments).tree;
    assert spec.fields[..n] == p + [(k, v)];
    KeyNotEarlier(spec.fields, j);
    DeletedGetUntouched(t, p, k);
    assert ObjectAt(before, k) == ObjectAt(t, k);
    if v.Null? {
      DeletedNullStep(t, p, k);
    } else if v.Obj? && ObjectAt(t, k).Some? {
      var f := ObjectAt(t, k).value;
      WellFormedAt(t, k);
      assert WellFormed(v);
      DeleteEntriesTree(f, v, |v.fields|, segments + [k]);
      assert v.fields[..|v.fields|] == v.fields;
      DeleteEntryTrimmed(before, k, v, segments, f);
      DeletedObjStep(t, p, k, v, f);
    } else {
      DeletedNoopStep(t, p, k, v);
    }
  }

  /** One iteration over an object slot is the write-back of the nested delete. */
  lemma DeleteEntryTrimmed(before: Fields, k: string, v: Json, segments: Path, f: Fields)
    requires v.Obj? && ObjectAt(before, k) == Some(f)
    ensures DeleteEntry(before, k, v, segments).tree
         == Trimmed(before, k, DeleteEntries(f, v, |v.fields|, segments + [k]).tree)
  {
    var sub := DeleteEntries(f, v, |v.fields|, segments + [k]).tree;
    assert HasKey(Put(before, k, Obj(sub)), k);
  }

  /** applyPackageDeleteSpec leaves exactly the reference tree. */
  lemma DeleteMatchesReference(t: Fields, spec: Fields)
    requires WellFormed(Obj(t)) && WellFormed(Obj(spec))
    ensures Delete(t, spec).tree == Deleted(t, Obj(spec))
  {
    DeleteEntriesTree(t, Obj(spec), |spec|, []);
    assert spec[..|spec|] == spec;
  }

  // ---------------------------------------------------------------------
  // Properties of the reference
  // ---------------------------------------------------------------------

  /** The value the reference leaves under key k, by the spec's entry for k. */
  lemma {:induction false} DeletedGet(t: Fields, spec: Json, k: string)
    requires spec.Obj? && UniqueKeys(t)
    ensures
      var i := IndexOf(spec.fields, k);
      Get(Deleted(t, spec), k) ==
        if i < 0 || !HasKey(t, k) then Get(t, k)
        else if spec.fields[i].1.Null? then None
        else if spec.fields[i].1.Obj? && Get(t, k).value.Obj? then
          var sub := Deleted(Get(t, k).value.fields, spec.fields[i].1);
          if sub == [] then None else Some(Obj(sub))
        else Get(t, k)
    decreases |t|
  {
    if t != [] {
      var rest := t[1..];
      assert t == [t[0]] + rest;
      UniqueCons(t[0], rest);
      GetCons(t[0], rest, k);
      HasKeyCons(t[0], rest, k);
      GetConcat(Kept(t[0], spec), Deleted(rest, spec), k);
      if t[0].0 == k {
        DeletedKeys(rest, spec, k);
        GetCons(t[0], [], k);
        var kept := Kept(t[0], spec);
        if kept != [] {
          GetCons(kept[0], [], k);
          assert kept == [kept[0]];
        }
      } else {
        HasKeyCons(t[0], [], k);
        DeletedGet(rest, spec, k);
      }
    }
  }

  lemma {:induction false} DeletedConcat(a: Fields, b: Fields, spec: Json)
    requires spec.Obj?
    ensures Deleted(a + b, spec) == Deleted(a, spec) + Deleted(b, spec)
    decreases |a|
  {
    if a != [] {
      assert (a + b)[1..] == a[1..] + b;
      DeletedConcat(a[1..], b, spec);
    } else {
      assert a + b == b;
    }
  }

  /** Deleting again with the same spec leaves the reference tree as it is. */
  lemma {:induction false} DeletedIdempotent(t: Fields, spec: Json)
    requires spec.Obj?
    ensures Deleted(Deleted(t, spec), spec) == Deleted(t, spec)
    decreases spec, |t|
  {
    if t != [] {
      var kept := Kept(t[0], spec);
      DeletedConcat(kept, Deleted(t[1..], spec), spec);
      KeptIdempotent(t[0], spec);
      DeletedIdempotent(t[1..], spec);
    }
  }

  lemma {:induction false} KeptIdempotent(e: (string, Json), spec: Json)
    requires spec.Obj?
    ensures Deleted(Kept(e, spec), spec) == Kept(e, spec)
    decreases spec, 0
  {
    var kept := Kept(e, spec);
    var i := IndexOf(spec.fields, e.0);
    if kept != [] {
      assert kept == [kept[0]] && kept[0].0 == e.0;
      assert Deleted(kept, spec) == Kept(kept[0], spec) + Deleted([], spec);
      if 0 <= i && spec.fields[i].1.Obj? && e.1.Obj? {
        DeletedIdempotent(e.1.fields, spec.fields[i].1);
      }
    }
  }

  /** The reference keeps keys distinct at every level. */
  lemma {:induction false} DeletedWellFormed(t: Fields, spec: Json)
    requires spec.Obj? && WellFormed(Obj(t))
    ensures WellFormed(Obj(Deleted(t, spec)))
    decreases spec, |t|
  {
    if t != [] {
      var rest := t[1..];
      assert t == [t[0]] + rest;
      WellFormedCons(t[0], rest);
      DeletedWellFormed(rest, spec);
      var kept := Kept(t[0], spec);
      var x := Deleted(rest, spec);
      if kept != [] {
        assert kept == [kept[0]] && kept[0].0 == t[0].0;
        DeletedKeys(rest, spec, t[0].0);
        var i := IndexOf(spec.fields, t[0].0);
        if 0 <= i && spec.fields[i].1.Obj? && t[0].1.Obj? {
          DeletedWellFormed(t[0].1.fields, spec.fields[i].1);
        }
        WellFormedCons(kept[0], x);
      }
    }
  }

  /** r is t with some object keys removed, at any depth; nothing added, no value altered. */
  predicate PrunedFrom(r: Json, t: Json)
    decreases r
  {
    r == t ||
    (r.Obj? && t.Obj? &&
     forall i :: 0 <= i < |r.fields| ==>
       HasKey(t.fields, r.fields[i].0) && PrunedFrom(r.fields[i].1, Get(t.fields, r.fields[i].0).value))
  }

  lemma {:induction false} DeletedPruned(t: Fields, spec: Json)
    requires spec.Obj? && WellFormed(Obj(t))
    ensures PrunedFrom(Obj(Deleted(t, spec)), Obj(t))
    decreases spec, |t|
  {
    if t != [] {
      var rest := t[1..];
      assert t == [t[0]] + rest;
      WellFormedCons(t[0], rest);
      DeletedPruned(rest, spec);
      var kept := Kept(t[0], spec);
      var x := Deleted(rest, spec);
      var r := kept + x;
      forall j | 0 <= j < |r|
        ensures HasKey(t, r[j].0) && PrunedFrom(r[j].1, Get(t, r[j].0).value)
      {
        HasKeyCons(t[0], rest, r[j].0);
        GetCons(t[0], rest, r[j].0);
        if j < |kept| {
          assert r[j] == kept[0] && kept[0].0 == t[0].0;
          var i := IndexOf(spec.fields, t[0].0);
          if 0 <= i && spec.fields[i].1.Obj? && t[0].1.Obj? {
            DeletedPruned(t[0].1.fields, spec.fields[i].1);
          }
        } else {
          var e := x[j - |kept|];
          assert r[j] == e;
          if Obj(x) == Obj(rest) {
            assert e == rest[j - |kept|];
            assert Get(rest, e.0) == Some(e.1);
          }
          assert HasKey(rest, e.0);
          assert e.0 != t[0].0;
        }
      }
    }
  }

  // ---------------------------------------------------------------------
  // Properties of applyPackageDeleteSpec
  // ---------------------------------------------------------------------

  /** A target the reference leaves unchanged goes through the loop unchanged, with an empty report. */
  lemma {:induction false} DeleteSettled(t: Fields, spec: Json, n: nat, segments: Path)
    requires spec.Obj? && n <= |spec.fields|
    requires WellFormed(Obj(t)) && WellFormed(spec) && Deleted(t, spec) == t
    ensures DeleteEntries(t, spec, n, segments) == Deletion(t, [])
    decreases spec, n
  {
    if n > 0 {
      var j := n - 1;
      DeleteSettled(t, spec, j, segments);
      DeleteEntriesNext(t, spec, j, n, segments);
      var k, v := spec.fields[j].0, spec.fields[j].1;
      IndexOfIs(spec.fields, k, j);
      DeletedGet(t, spec, k);
      if v.Obj? && ObjectAt(t, k).Some? {
        var f := ObjectAt(t, k).value;
        WellFormedAt(t, k);
        DeleteSettled(f, v, |v.fields|, segments + [k]);
        PutSame(t, k, Obj(f));
      }
    }
  }

  /** Applying the same delete spec twice: the second pass changes nothing and reports nothing. */
  lemma DeleteIdempotent(t: Fields, spec: Fields)
    requires WellFormed(Obj(t)) && WellFormed(Obj(spec))
    ensures Delete(Delete(t, spec).tree, spec) == Deletion(Delete(t, spec).tree, [])
  {
    var once := Delete(t, spec).tree;
    DeleteMatchesReference(t, spec);
    DeletedWellFormed(t, Obj(spec));
    DeletedIdempotent(t, Obj(spec));
    DeleteSettled(once, Obj(spec), |spec|, []);
  }

  /** What a delete leaves under each key, stated with the engine itself for the nested case. */
  lemma DeleteKeyCases(t: Fields, spec: Fields, k: string)
    requires WellFormed(Obj(t)) && WellFormed(Obj(spec))
    ensures
      var after := Get(Delete(t, spec).tree, k);
      var i := IndexOf(spec, k);
      && (i < 0 ==> after == Get(t, k))
      && (0 <= i && spec[i].1.Null? ==> after == None)
      && (0 <= i && spec[i].1.Obj? && ObjectAt(t, k).Some? ==>
            var sub := Delete(ObjectAt(t, k).value, spec[i].1.fields).tree;
            after == if sub == [] then None else Some(Obj(sub)))
      && (0 <= i && !spec[i].1.Null? && !(spec[i].1.Obj? && ObjectAt(t, k).Some?) ==> after == Get(t, k))
  {
    DeleteMatchesReference(t, spec);
    DeletedGet(t, Obj(spec), k);
    var i := IndexOf(spec, k);
    if 0 <= i && spec[i].1.Obj? && ObjectAt(t, k).Some? {
      var f := ObjectAt(t, k).value;
      WellFormedAt(t, k);
      assert WellFormed(spec[i].1);
      DeleteMatchesReference(f, spec[i].1.fields);
    }
  }

  /** Every key the spec marks with null is gone afterwards, present before or not. */
  lemma DeleteRemovesNullKeys(t: Fields, spec: Fields, k: string)
    requires WellFormed(Obj(t)) && WellFormed(Obj(spec))
    requires Get(spec, k) == Some(Null)
    ensures !HasKey(Delete(t, spec).tree, k)
  {
    DeleteKeyCases(t, spec, k);
  }

  /** Delete only removes keys, at any depth: it adds nothing and alters no value it keeps. */
  lemma DeleteOnlyRemoves(t: Fields, spec: Fields)
    requires WellFormed(Obj(t)) && WellFormed(Obj(spec))
    ensures PrunedFrom(Obj(Delete(t, spec).tree), Obj(t))
    ensures WellFormed(Obj(Delete(t, spec).tree))
  {
    DeleteMatchesReference(t, spec);
    DeletedPruned(t, Obj(spec));
    DeletedWellFormed(t, Obj(spec));
  }

  // ---------------------------------------------------------------------
  // The removed-path report
  // ---------------------------------------------------------------------

  /** p is path itself or lies below it. */
  predicate AtOrBelow(p: Path, path: Path) {
    |path| <= |p| && p[..|path|] == path
  }

  /** p continues segments with one of the keys of fs. */
  predicate ExtendsBy(p: Path, segments: Path, fs: Fields) {
    |segments| < |p| && p[..|segments|] == segments && HasKey(fs, p[|segments|])
  }

  lemma AtOrBelowExtends(p: Path, segments: Path, key: string, fs: Fields)
    requires AtOrBelow(p, segments + [key]) && HasKey(fs, key)
    ensures ExtendsBy(p, segments, fs)
  {
    var path := segments + [key];
    assert p[..|segments|] == p[..|path|][..|segments|];
    assert p[|segments|] == p[..|path|][|segments|];
  }

  /** Every path one iteration reports lies at or under segments + [key]. */
  lemma {:induction false} DeleteEntryPaths(t: Fields, key: string, value: Json, segments: Path)
    ensures forall p <- DeleteEntry(t, key, value, segments).removed :: AtOrBelow(p, segments + [key])
    decreases value, 2
  {
    var path := segments + [key];
    assert path[..|path|] == path;
    if value.Obj? && ObjectAt(t, key).Some? {
      DeleteEntriesPaths(ObjectAt(t, key).value, value, |value.fields|, path);
    }
  }

  /** The report of the first n entries, given those of the first j = n - 1 and of entry j. */
  lemma PathsStep(a: seq<Path>, b: seq<Path>, segments: Path, fs: Fields, j: nat, n: nat)
    requires j == n - 1 && 0 < n <= |fs|
    requires forall p <- a :: ExtendsBy(p, segments, fs[..j])
    requires forall p <- b :: AtOrBelow(p, segments + [fs[j].0])
    ensures forall p <- a + b :: ExtendsBy(p, segments, fs[..n])
  {
    forall p <- a + b ensures ExtendsBy(p, segments, fs[..n]) {
      if p in a {
        HasKeyPrefixSnoc(fs, j, n, p[|segments|]);
      } else {
        KeyInOwnPrefix(fs, j, n);
        AtOrBelowExtends(p, segments, fs[j].0, fs[..n]);
      }
    }
  }

  /** Every path the first n iterations report extends segments by the key of one of those entries. */
  lemma {:induction false} DeleteEntriesPaths(t: Fields, spec: Json, n: nat, segments: Path)
    requires spec.Obj? && n <= |spec.fields|
    ensures forall p <- DeleteEntries(t, spec, n, segments).removed :: ExtendsBy(p, segments, spec.fields[..n])
    decreases spec, 1, n
  {
    if n > 0 {
      var j := n - 1;
      var before := DeleteEntries(t, spec, j, segments);
      DeleteEntriesPaths(t, spec, j, segments);
      DeleteEntriesNext(t, spec, j, n, segments);
      DeleteEntryPaths(before.tree, spec.fields[j].0, spec.fields[j].1, segments);
      PathsStep(before.removed, DeleteEntry(before.tree, spec.fields[j].0, spec.fields[j].1, segments).removed,
                segments, spec.fields, j, n);
    }
  }

  /** The iteration that handles null entry j reports its path exactly when the target held the key. */
  lemma NullPathReportedHere(t: Fields, spec: Json, segments: Path, j: nat, n: nat)
    requires spec.Obj? && j == n - 1 && 0 < n <= |spec.fields|
    requires WellFormed(Obj(t)) && WellFormed(spec) && spec.fields[j].1.Null?
    ensures (segments + [spec.fields[j].0]) in DeleteEntries(t, spec, n, segments).removed
        <==> HasKey(t, spec.fields[j].0)
  {
    var k := spec.fields[j].0;
    var path := segments + [k];
    var before := DeleteEntries(t, spec, j, segments);
    var step := DeleteEntry(before.tree, k, Null, segments);
    DeleteEntriesNext(t, spec, j, n, segments);
    DeleteEntriesPaths(t, spec, j, segments);
    KeyNotEarlier(spec.fields, j);
    assert path[|segments|] == k;
    forall p | p in before.removed ensures p != path {
      assert ExtendsBy(p, segments, spec.fields[..j]);
    }
    DeleteEntriesTree(t, spec, j, segments);
    DeletedGetUntouched(t, spec.fields[..j], k);
  }

  /** A later iteration, handling entry m, does not report the path of entry j. */
  lemma OwnPathNotReportedLater(t: Fields, spec: Json, m: nat, segments: Path, j: nat)
    requires spec.Obj? && m < |spec.fields| && j < m
    requires WellFormed(spec)
    ensures (segments + [spec.fields[j].0]) !in
      DeleteEntry(DeleteEntries(t, spec, m, segments).tree, spec.fields[m].0, spec.fields[m].1, segments).removed
  {
    var path := segments + [spec.fields[j].0];
    var kn := spec.fields[m].0;
    var below := segments + [kn];
    var before := DeleteEntries(t, spec, m, segments);
    var step := DeleteEntry(before.tree, kn, spec.fields[m].1, segments);
    DeleteEntryPaths(before.tree, kn, spec.fields[m].1, segments);
    assert spec.fields[j].0 != kn;
    assert path[|segments|] != below[|segments|];
    forall p | p in step.removed ensures p != path {
      assert p[|segments|] == p[..|below|][|segments|];
    }
  }

  /** A null entry's own path is reported exactly when the target held that key. */
  lemma {:induction false} NullPathReported(t: Fields, spec: Json, n: nat, segments: Path, j: nat)
    requires spec.Obj? && n <= |spec.fields| && j < n
    requires WellFormed(Obj(t)) && WellFormed(spec) && spec.fields[j].1.Null?
    ensures (segments + [spec.fields[j].0]) in DeleteEntries(t, spec, n, segments).removed
        <==> HasKey(t, spec.fields[j].0)
    decreases n
  {
    var m := n - 1;
    if m == j {
      NullPathReportedHere(t, spec, segments, j, n);
    } else {
      NullPathReported(t, spec, m, segments, j);
      OwnPathNotReportedLater(t, spec, m, segments, j);
      DeleteEntriesNext(t, spec, m, n, segments);
    }
  }

  /** applyPackageDeleteSpec reports a null-marked top-level key exactly when the target had it. */
  lemma DeleteReportsNullKeyIffPresent(t: Fields, spec: Fields, j: nat)
    requires WellFormed(Obj(t)) && WellFormed(Obj(spec))
    requires j < |spec| && spec[j].1.Null?
    ensures [spec[j].0] in Delete(t, spec).removed <==> HasKey(t, spec[j].0)
  {
    NullPathReported(t, Obj(spec), |spec|, [], j);
    assert [] + [spec[j].0] == [spec[j].0];
  }

  /** A spec value the loop passes over: not null, and not an object over an object slot. */
  predicate Inert(t: Fields, k: string, v: Json) {
    !v.Null? && !(v.Obj? && ObjectAt(t, k).Some?)
  }

  lemma AtOrBelowKey(p: Path, segments: Path, key: string)
    requires AtOrBelow(p, segments + [key])
    ensures |segments| < |p| && p[|segments|] == key
  {
    var path := segments + [key];
    assert p[|segments|] == p[..|path|][|segments|];
  }

  lemma NotAtOrBelowKey(p: Path, segments: Path, key: string)
    requires |segments| < |p| && p[|segments|] != key
    ensures !AtOrBelow(p, segments + [key])
  {
    var path := segments + [key];
    if |path| <= |p| {
      assert p[..|path|][|segments|] == p[|segments|];
      assert path[|segments|] == key;
    }
  }

  /** The iteration that handles inert entry j reports nothing, and earlier ones report nothing under its key. */
  lemma InertReportedHere(t: Fields, spec: Json, segments: Path, j: nat, n: nat)
    requires spec.Obj? && j == n - 1 && 0 < n <= |spec.fields|
    requires WellFormed(Obj(t)) && WellFormed(spec) && Inert(t, spec.fields[j].0, spec.fields[j].1)
    ensures forall p <- DeleteEntries(t, spec, n, segments).removed :: !AtOrBelow(p, segments + [spec.fields[j].0])
  {
    var k := spec.fields[j].0;
    var before := DeleteEntries(t, spec, j, segments);
    DeleteEntriesNext(t, spec, j, n, segments);
    KeyNotEarlier(spec.fields, j);
    assert ObjectAt(before.tree, k) == ObjectAt(t, k) by {
      DeleteEntriesTree(t, spec, j, segments);
      DeletedGetUntouched(t, spec.fields[..j], k);
    }
    assert DeleteEntry(before.tree, k, spec.fields[j].1, segments).removed == [];
    DeleteEntriesPaths(t, spec, j, segments);
    forall p <- before.removed ensures !AtOrBelow(p, segments + [k]) {
      assert ExtendsBy(p, segments, spec.fields[..j]);
      NotAtOrBelowKey(p, segments, k);
    }
  }

  /** The iteration handling entry m reports nothing under the key of another entry j. */
  lemma OtherEntryPaths(t: Fields, spec: Json, m: nat, segments: Path, j: nat)
    requires spec.Obj? && m < |spec.fields| && j < m
    requires WellFormed(spec)
    ensures forall p <- DeleteEntry(DeleteEntries(t, spec, m, segments).tree, spec.fields[m].0, spec.fields[m].1, segments).removed ::
      !AtOrBelow(p, segments + [spec.fields[j].0])
  {
    var km := spec.fields[m].0;
    var step := DeleteEntry(DeleteEntries(t, spec, m, segments).tree, km, spec.fields[m].1, segments);
    DeleteEntryPaths(DeleteEntries(t, spec, m, segments).tree, km, spec.fields[m].1, segments);
    DistinctKeys(spec.fields, j, m);
    forall p <- step.removed ensures !AtOrBelow(p, segments + [spec.fields[j].0]) {
      AtOrBelowKey(p, segments, km);
      NotAtOrBelowKey(p, segments, spec.fields[j].0);
    }
  }

  /** No iteration reports a path at or under the key of an inert entry. */
  lemma {:induction false} InertNotReported(t: Fields, spec: Json, n: nat, segments: Path, j: nat)
    requires spec.Obj? && n <= |spec.fields| && j < n
    requires WellFormed(Obj(t)) && WellFormed(spec) && Inert(t, spec.fields[j].0, spec.fields[j].1)
    ensures forall p <- DeleteEntries(t, spec, n, segments).removed :: !AtOrBelow(p, segments + [spec.fields[j].0])
    decreases n
  {
    var m := n - 1;
    if m == j {
      InertReportedHere(t, spec, segments, j, n);
    } else {
      InertNotReported(t, spec, m, segments, j);
      OtherEntryPaths(t, spec, m, segments, j);
      DeleteEntriesNext(t, spec, m, n, segments);
    }
  }

  /** A top-level entry the loop passes over leaves its key as it was and puts nothing in the report. */
  lemma DeleteInertEntry(t: Fields, spec: Fields, j: nat)
    requires WellFormed(Obj(t)) && WellFormed(Obj(spec))
    requires j < |spec| && Inert(t, spec[j].0, spec[j].1)
    ensures Get(Delete(t, spec).tree, spec[j].0) == Get(t, spec[j].0)
    ensures forall p <- Delete(t, spec).removed :: !AtOrBelow(p, [spec[j].0])
  {
    InertNotReported(t, Obj(spec), |spec|, [], j);
    assert [] + [spec[j].0] == [spec[j].0];
    DeleteKeyCases(t, spec, spec[j].0);
    assert IndexOf(spec, spec[j].0) == j by {
      forall m | 0 <= m < j ensures spec[m].0 != spec[j].0 {
        DistinctKeys(spec, m, j);
      }
    }
  }

  /** a lies strictly below b: b is a proper prefix of a. */
  predicate Below(a: Path, b: Path) {
    |b| < |a| && a[..|b|] == b
  }

  /** No path of r is listed after a path that lies below it. */
  predicate ChildrenFirst(r: seq<Path>) {
    forall i, j :: 0 <= i < |r| && 0 <= j < |r| && Below(r[i], r[j]) ==> i < j
  }

  lemma NotBelowWhenDiffer(a: Path, b: Path, m: nat)
    requires m < |a| && m < |b| && a[m] != b[m]
    ensures !Below(a, b)
  {
    if |b| < |a| {
      assert a[..|b|][m] == a[m];
    }
  }

  /** Two lists that each keep children first still do when nothing of the second lies below the first. */
  lemma ChildrenFirstConcat(a: seq<Path>, b: seq<Path>)
    requires ChildrenFirst(a) && ChildrenFirst(b)
    requires forall x, y :: x in a && y in b ==> !Below(y, x)
    ensures ChildrenFirst(a + b)
  {
    var r := a + b;
    forall i, j | 0 <= i < |r| && 0 <= j < |r| ensures Below(r[i], r[j]) ==> i < j {
      if i < |a| && j < |a| {
        assert r[i] == a[i] && r[j] == a[j];
      } else if |a| <= i && |a| <= j {
        assert r[i] == b[i - |a|] && r[j] == b[j - |a|];
      } else if j < |a| {
        assert r[j] == a[j] && r[i] == b[i - |a|];
        assert r[j] in a && r[i] in b;
      }
    }
  }

  /** One iteration reports every nested path before the path of the object that held it. */
  lemma {:induction false} DeleteEntryOrder(t: Fields, key: string, value: Json, segments: Path)
    requires WellFormed(value)
    ensures ChildrenFirst(DeleteEntry(t, key, value, segments).removed)
    decreases value, 2
  {
    var r := DeleteEntry(t, key, value, segments).removed;
    var path := segments + [key];
    if value.Obj? && ObjectAt(t, key).Some? {
      var nested := DeleteEntries(ObjectAt(t, key).value, value, |value.fields|, path).removed;
      DeleteEntriesOrder(ObjectAt(t, key).value, value, |value.fields|, path);
      DeleteEntriesPaths(ObjectAt(t, key).value, value, |value.fields|, path);
      if r != nested {
        assert r == nested + [path];
        forall x, y | x in nested && y in [path] ensures !Below(y, x) {
          assert |x| > |path|;
        }
        ChildrenFirstConcat(nested, [path]);
      }
    } else {
      assert r == [] || r == [path];
    }
  }

  /** Paths under different keys of the same object never lie below one another. */
  lemma SiblingsNotBelow(a: seq<Path>, b: seq<Path>, earlier: Fields, segments: Path, key: string)
    requires forall x <- a :: ExtendsBy(x, segments, earlier)
    requires forall y <- b :: AtOrBelow(y, segments + [key])
    requires !HasKey(earlier, key)
    ensures forall x, y :: x in a && y in b ==> !Below(y, x)
  {
    var below := segments + [key];
    assert below[|segments|] == key;
    forall x, y | x in a && y in b ensures !Below(y, x) {
      assert y[|segments|] == y[..|below|][|segments|];
      assert ExtendsBy(x, segments, earlier);
      NotBelowWhenDiffer(y, x, |segments|);
    }
  }

  /** The first n iterations report every path before the path of any object above it. */
  lemma {:induction false} DeleteEntriesOrder(t: Fields, spec: Json, n: nat, segments: Path)
    requires spec.Obj? && n <= |spec.fields| && WellFormed(spec)
    ensures ChildrenFirst(DeleteEntries(t, spec, n, segments).removed)
    decreases spec, 1, n
  {
    if n > 0 {
      var j := n - 1;
      var before := DeleteEntries(t, spec, j, segments);
      var kn, vn := spec.fields[j].0, spec.fields[j].1;
      var a := before.removed;
      var b := DeleteEntry(before.tree, kn, vn, segments).removed;
      DeleteEntriesNext(t, spec, j, n, segments);
      assert ChildrenFirst(a) by { DeleteEntriesOrder(t, spec, j, segments); }
      assert ChildrenFirst(b) by { DeleteEntryOrder(before.tree, kn, vn, segments); }
      assert forall x, y :: x in a && y in b ==> !Below(y, x) by {
        DeleteEntriesPaths(t, spec, j, segments);
        DeleteEntryPaths(before.tree, kn, vn, segments);
        KeyNotEarlier(spec.fields, j);
        SiblingsNotBelow(a, b, spec.fields[..j], segments, kn);
      }
      ChildrenFirstConcat(a, b);
    }
  }

  /** The position in fs of the spec entry a path at depth |segments| + 1 belongs to. */
  function EntryOf(fs: Fields, p: Path, depth: nat): int {
    if depth < |p| then IndexOf(fs, p[depth]) else -1
  }

  /** Paths are listed in the order of the spec entries they come from. */
  predicate InEntryOrder(r: seq<Path>, fs: Fields, depth: nat) {
    forall i, j :: 0 <= i < j < |r| ==> EntryOf(fs, r[i], depth) <= EntryOf(fs, r[j], depth)
  }

  lemma InEntryOrderConcat(a: seq<Path>, b: seq<Path>, fs: Fields, depth: nat)
    requires InEntryOrder(a, fs, depth) && InEntryOrder(b, fs, depth)
    requires forall x, y :: x in a && y in b ==> EntryOf(fs, x, depth) <= EntryOf(fs, y, depth)
    ensures InEntryOrder(a + b, fs, depth)
  {
    var r := a + b;
    forall i, j | 0 <= i < j < |r| ensures EntryOf(fs, r[i], depth) <= EntryOf(fs, r[j], depth) {
      if j < |a| {
        assert r[i] == a[i] && r[j] == a[j];
      } else if |a| <= i {
        assert r[i] == b[i - |a|] && r[j] == b[j - |a|];
      } else {
        assert r[i] == a[i] && r[j] == b[j - |a|];
        assert r[i] in a && r[j] in b;
      }
    }
  }

  /** The first n iterations report paths grouped by spec entry, in the order of the entries. */
  lemma {:induction false} DeleteEntriesEntryOrder(t: Fields, spec: Json, n: nat, segments: Path)
    requires spec.Obj? && n <= |spec.fields| && WellFormed(spec)
    ensures InEntryOrder(DeleteEntries(t, spec, n, segments).removed, spec.fields, |segments|)
    decreases n
  {
    if n > 0 {
      var j := n - 1;
      var before := DeleteEntries(t, spec, j, segments);
      var kn, vn := spec.fields[j].0, spec.fields[j].1;
      var a := before.removed;
      var b := DeleteEntry(before.tree, kn, vn, segments).removed;
      DeleteEntriesNext(t, spec, j, n, segments);
      DeleteEntriesEntryOrder(t, spec, j, segments);
      DeleteEntriesPaths(t, spec, j, segments);
      DeleteEntryPaths(before.tree, kn, vn, segments);
      IndexOfIs(spec.fields, kn, j);
      var below := segments + [kn];
      assert below[|segments|] == kn;
      forall y | y in b ensures EntryOf(spec.fields, y, |segments|) == j {
        assert y[|segments|] == y[..|below|][|segments|];
      }
      forall x | x in a ensures EntryOf(spec.fields, x, |segments|) < j {
        assert ExtendsBy(x, segments, spec.fields[..j]);
        IndexOfPrefix(spec.fields, j, x[|segments|]);
      }
      SameEntryInOrder(b, spec.fields, |segments|, j);
      InEntryOrderConcat(a, b, spec.fields, |segments|);
    }
  }

  lemma SameEntryInOrder(b: seq<Path>, fs: Fields, depth: nat, e: int)
    requires forall y :: y in b ==> EntryOf(fs, y, depth) == e
    ensures InEntryOrder(b, fs, depth)
  {
    forall i, j | 0 <= i < j < |b| ensures EntryOf(fs, b[i], depth) <= EntryOf(fs, b[j], depth) {
      assert b[i] in b && b[j] in b;
    }
  }

  /** applyPackageDeleteSpec lists a nested path before the path of any object above it that it removes,
      and groups the report by top-level spec entry in the spec's order. */
  lemma DeleteReportOrder(t: Fields, spec: Fields)
    requires WellFormed(Obj(spec))
    ensures ChildrenFirst(Delete(t, spec).removed)
    ensures InEntryOrder(Delete(t, spec).removed, spec, 0)
  {
    DeleteEntriesOrder(t, Obj(spec), |spec|, []);
    DeleteEntriesEntryOrder(t, Obj(spec), |spec|, []);
  }

  /** A nested object emptied by the delete is pruned and reported after its child. */
  lemma DeletePruneExample()
    ensures var d := Delete([("a", Obj([("b", Num("1"))]))], [("a", Obj([("b", Null)]))]);
      d.tree == [] && FormatAll(d.removed) == ["a.b", "a"]
  {
    var inner: Fields := [("b", Num("1"))];
    var t: Fields := [("a", Obj(inner))];
    var sub: Fields := [("b", Null)];
    var spec: Fields := [("a", Obj(sub))];
    PruneExampleInner();
    DeleteEntriesNext(t, Obj(spec), 0, 1, []);
    assert ObjectAt(t, "a") == Some(inner);
    var written := Put(t, "a", Obj([]));
    assert written == [("a", Obj([]))];
    assert written[0].0 == "a";
    assert Remove(written, "a") == [];
    assert HasKey(written, "a");
    assert [] + ["a"] == ["a"];
    assert DeleteEntry(t, "a", Obj(sub), []) == Deletion([], [["a", "b"], ["a"]]);
    PruneExampleFormat();
  }

  lemma PruneExampleInner()
    ensures DeleteEntries([("b", Num("1"))], Obj([("b", Null)]), 1, ["a"]) == Deletion([], [["a", "b"]])
  {
    var inner: Fields := [("b", Num("1"))];
    DeleteEntriesNext(inner, Obj([("b", Null)]), 0, 1, ["a"]);
    assert inner[0].0 == "b";
    assert Remove(inner, "b") == [];
    assert HasKey(inner, "b");
    assert ["a"] + ["b"] == ["a", "b"];
  }

  lemma PruneExampleFormat()
    ensures FormatAll([["a", "b"], ["a"]]) == ["a.b", "a"]
  {
    assert FormatJsonPath(["a", "b"]) == "a.b" by {
      assert ["a", "b"][..1] == ["a"];
      assert ["a"][..0] == [];
    }
    assert FormatJsonPath(["a"]) == "a" by {
      assert ["a"][..0] == [];
    }
  }

  // ---------------------------------------------------------------------
  // The report and the tree
  // ---------------------------------------------------------------------

  /** The value reached by following q down from the object fs; the empty path reaches fs itself. */
  function At(fs: Fields, q: Path): Option<Json>
    decreases |q|
  {
    if q == [] then Some(Obj(fs))
    else
      var v := Get(fs, q[0]);
      if |q| == 1 then v
      else if v.Some? && v.value.Obj? then At(v.value.fields, q[1..])
      else None
  }

  /** The part of p below depth d reaches a value in t and nothing in r. */
  predicate RemovedAt(t: Fields, r: Fields, p: Path, d: nat) {
    d < |p| && At(t, p[d..]).Some? && At(r, p[d..]).None?
  }

  lemma AtSameHead(a: Fields, b: Fields, q: Path)
    requires q != [] && Get(a, q[0]) == Get(b, q[0])
    ensures At(a, q) == At(b, q)
  {
  }

  lemma AtBelow(fs: Fields, k: string, sub: Fields, q: Path)
    requires Get(fs, k) == Some(Obj(sub)) && q != []
    ensures At(fs, [k] + q) == At(sub, q)
  {
    assert ([k] + q)[0] == k && ([k] + q)[1..] == q;
  }

  lemma AtGone(fs: Fields, k: string, q: Path)
    requires !HasKey(fs, k)
    ensures At(fs, [k] + q) == None
  {
    assert ([k] + q)[0] == k;
  }

  /** One iteration leaves every key other than its own as it was. */
  lemma DeleteEntryOtherKeys(before: Fields, key: string, value: Json, segments: Path, k: string)
    requires k != key
    ensures Get(DeleteEntry(before, key, value, segments).tree, k) == Get(before, k)
  {
  }

  /** The first n iterations leave every key that none of their entries names as it was. */
  lemma {:induction false} DeleteEntriesOtherKeys(t: Fields, spec: Json, n: nat, segments: Path, k: string)
    requires spec.Obj? && n <= |spec.fields| && !HasKey(spec.fields[..n], k)
    ensures Get(DeleteEntries(t, spec, n, segments).tree, k) == Get(t, k)
    decreases n
  {
    if n > 0 {
      var j := n - 1;
      HasKeyPrefixSnoc(spec.fields, j, n, k);
      DeleteEntriesOtherKeys(t, spec, j, segments, k);
      DeleteEntriesNext(t, spec, j, n, segments);
      DeleteEntryOtherKeys(DeleteEntries(t, spec, j, segments).tree, spec.fields[j].0, spec.fields[j].1, segments, k);
    }
  }

  /** A path removed inside the object at key is removed from the enclosing object too. */
  lemma LiftRemoved(before: Fields, after: Fields, key: string, f: Fields, g: Fields, p: Path, d: nat, d1: nat)
    requires d1 == d + 1 && d < |p| && p[d] == key && RemovedAt(f, g, p, d1)
    requires Get(before, key) == Some(Obj(f))
    requires !HasKey(after, key) || Get(after, key) == Some(Obj(g))
    ensures RemovedAt(before, after, p, d)
  {
    var q := p[d1..];
    assert p[d..] == [key] + q;
    AtBelow(before, key, f, q);
    if HasKey(after, key) {
      AtBelow(after, key, g, q);
    } else {
      AtGone(after, key, q);
    }
  }

  /** A path just removed at key itself. */
  lemma RemovedHere(before: Fields, after: Fields, path: Path, key: string, d: nat)
    requires |path| == d + 1 && path[d] == key && HasKey(before, key) && !HasKey(after, key)
    ensures RemovedAt(before, after, path, d)
  {
    assert path[d..] == [key];
  }

  /** Every path one iteration reports reached a value before it and reaches none after it. */
  lemma {:induction false} DeleteEntrySound(before: Fields, key: string, value: Json, segments: Path)
    requires WellFormed(value)
    ensures forall p <- DeleteEntry(before, key, value, segments).removed ::
      RemovedAt(before, DeleteEntry(before, key, value, segments).tree, p, |segments|)
    decreases value, 2
  {
    var d := |segments|;
    var path := segments + [key];
    var step := DeleteEntry(before, key, value, segments);
    if value.Null? {
      if HasKey(before, key) {
        RemovedHere(before, step.tree, path, key, d);
      }
    } else if value.Obj? && ObjectAt(before, key).Some? {
      DeleteEntrySoundObj(before, key, value, segments);
    }
  }

  /** The object case of DeleteEntrySound: nested paths, then the pruned slot. */
  lemma {:induction false} DeleteEntrySoundObj(before: Fields, key: string, value: Json, segments: Path)
    requires WellFormed(value) && value.Obj? && ObjectAt(before, key).Some?
    ensures forall p <- DeleteEntry(before, key, value, segments).removed ::
      RemovedAt(before, DeleteEntry(before, key, value, segments).tree, p, |segments|)
    decreases value, 1
  {
    var d := |segments|;
    var path := segments + [key];
    var step := DeleteEntry(before, key, value, segments);
    var f := ObjectAt(before, key).value;
    var nested := DeleteEntries(f, value, |value.fields|, path);
    assert |path| == d + 1;
    DeleteEntriesSound(f, value, |value.fields|, path);
    DeleteEntriesPaths(f, value, |value.fields|, path);
    forall p <- nested.removed ensures RemovedAt(before, step.tree, p, d) {
      assert ExtendsBy(p, path, value.fields);
      assert p[d] == p[..|path|][d];
      LiftRemoved(before, step.tree, key, f, nested.tree, p, d, |path|);
    }
    if !HasKey(step.tree, key) {
      RemovedHere(before, step.tree, path, key, d);
    }
  }

  /** A path reported earlier is not disturbed by an iteration for another key. */
  lemma SoundEarlier(t: Fields, mid: Fields, after: Fields, p: Path, d: nat)
    requires RemovedAt(t, mid, p, d) && Get(after, p[d]) == Get(mid, p[d])
    ensures RemovedAt(t, after, p, d)
  {
    AtSameHead(after, mid, p[d..]);
  }

  /** A path this iteration reports, under a key the earlier iterations left alone. */
  lemma SoundLater(t: Fields, mid: Fields, after: Fields, p: Path, d: nat)
    requires RemovedAt(mid, after, p, d) && Get(mid, p[d]) == Get(t, p[d])
    ensures RemovedAt(t, after, p, d)
  {
    AtSameHead(mid, t, p[d..]);
  }

  /** Every path the first n iterations report reached a value in the target and reaches none afterwards. */
  lemma {:induction false} DeleteEntriesSound(t: Fields, spec: Json, n: nat, segments: Path)
    requires spec.Obj? && n <= |spec.fields| && WellFormed(spec)
    ensures forall p <- DeleteEntries(t, spec, n, segments).removed ::
      RemovedAt(t, DeleteEntries(t, spec, n, segments).tree, p, |segments|)
    decreases spec, 1, n
  {
    if n > 0 {
      var d := |segments|;
      var j := n - 1;
      var k := spec.fields[j].0;
      var v := spec.fields[j].1;
      var before := DeleteEntries(t, spec, j, segments);
      var step := DeleteEntry(before.tree, k, v, segments);
      DeleteEntriesNext(t, spec, j, n, segments);
      DeleteEntriesSound(t, spec, j, segments);
      DeleteEntriesPaths(t, spec, j, segments);
      DeleteEntrySound(before.tree, k, v, segments);
      DeleteEntryPaths(before.tree, k, v, segments);
      KeyNotEarlier(spec.fields, j);
      DeleteEntriesOtherKeys(t, spec, j, segments, k);
      forall p <- before.removed ensures RemovedAt(t, step.tree, p, d) {
        assert ExtendsBy(p, segments, spec.fields[..j]);
        DeleteEntryOtherKeys(before.tree, k, v, segments, p[d]);
        SoundEarlier(t, before.tree, step.tree, p, d);
      }
      forall p <- step.removed ensures RemovedAt(t, step.tree, p, d) {
        AtOrBelowKey(p, segments, k);
        SoundLater(t, before.tree, step.tree, p, d);
      }
    }
  }

  /** Every path applyPackageDeleteSpec reports names a value the target had and the result no longer has. */
  lemma DeleteReportSound(t: Fields, spec: Fields)
    requires WellFormed(Obj(spec))
    ensures forall p <- Delete(t, spec).removed ::
      p != [] && At(t, p).Some? && At(Delete(t, spec).tree, p).None?
  {
    var root: Path := [];
    var r := DeleteEntries(t, Obj(spec), |spec|, root);
    assert r == Delete(t, spec);
    DeleteEntriesSound(t, Obj(spec), |spec|, root);
    forall p <- r.removed ensures p != [] && At(t, p).Some? && At(r.tree, p).None? {
      assert RemovedAt(t, r.tree, p, |root|);
      assert p[0..] == p;
    }
  }

  /** One iteration reports its own path exactly when it takes the key away. */
  lemma EntryReportsOwnPath(before: Fields, key: string, value: Json, segments: Path)
    ensures var step := DeleteEntry(before, key, value, segments);
      (segments + [key]) in step.removed <==> HasKey(before, key) && !HasKey(step.tree, key)
  {
    var path := segments + [key];
    if value.Obj? && ObjectAt(before, key).Some? {
      var f := ObjectAt(before, key).value;
      var nested := DeleteEntries(f, value, |value.fields|, path);
      DeleteEntriesPaths(f, value, |value.fields|, path);
      forall p <- nested.removed ensures p != path {
        assert ExtendsBy(p, path, value.fields);
      }
    }
  }

  /** The iteration for entry j reports its path exactly when it takes the key away. */
  lemma OwnPathReportedHere(t: Fields, spec: Json, segments: Path, j: nat, n: nat)
    requires spec.Obj? && j == n - 1 && 0 < n <= |spec.fields| && WellFormed(spec)
    ensures var r := DeleteEntries(t, spec, n, segments); var k := spec.fields[j].0;
      (segments + [k]) in r.removed <==> HasKey(t, k) && !HasKey(r.tree, k)
  {
    var k := spec.fields[j].0;
    var path := segments + [k];
    var before := DeleteEntries(t, spec, j, segments);
    DeleteEntriesNext(t, spec, j, n, segments);
    DeleteEntriesPaths(t, spec, j, segments);
    KeyNotEarlier(spec.fields, j);
    assert path[|segments|] == k;
    forall p | p in before.removed ensures p != path {
      assert ExtendsBy(p, segments, spec.fields[..j]);
    }
    DeleteEntriesOtherKeys(t, spec, j, segments, k);
    EntryReportsOwnPath(before.tree, k, spec.fields[j].1, segments);
  }

  /** The path of each spec entry is reported exactly when the key was in the target and is gone. */
  lemma {:induction false} OwnPathReported(t: Fields, spec: Json, n: nat, segments: Path, j: nat)
    requires spec.Obj? && n <= |spec.fields| && j < n && WellFormed(spec)
    ensures var r := DeleteEntries(t, spec, n, segments); var k := spec.fields[j].0;
      (segments + [k]) in r.removed <==> HasKey(t, k) && !HasKey(r.tree, k)
    decreases n
  {
    var m := n - 1;
    if m == j {
      OwnPathReportedHere(t, spec, segments, j, n);
    } else {
      var k := spec.fields[j].0;
      OwnPathReported(t, spec, m, segments, j);
      OwnPathNotReportedLater(t, spec, m, segments, j);
      DeleteEntriesNext(t, spec, m, n, segments);
      DistinctKeys(spec.fields, j, m);
      DeleteEntryOtherKeys(DeleteEntries(t, spec, m, segments).tree, spec.fields[m].0, spec.fields[m].1, segments, k);
    }
  }

  /** A top-level key is reported exactly when the target had it and the result does not. */
  lemma DeleteReportsRemovedKeys(t: Fields, spec: Fields, k: string)
    requires WellFormed(Obj(spec))
    ensures [k] in Delete(t, spec).removed <==> HasKey(t, k) && !HasKey(Delete(t, spec).tree, k)
  {
    var r := Delete(t, spec);
    assert [] + [k] == [k];
    if HasKey(spec, k) {
      OwnPathReported(t, Obj(spec), |spec|, [], IndexOf(spec, k));
    } else {
      assert spec[..|spec|] == spec;
      DeleteEntriesOtherKeys(t, Obj(spec), |spec|, [], k);
      DeleteEntriesPaths(t, Obj(spec), |spec|, []);
      forall p <- r.removed ensures p != [k] {
        assert ExtendsBy(p, [], spec);
      }
    }
  }

  /** A top-level object that the delete pruned away is reported. */
  lemma DeletePrunedReported(t: Fields, spec: Fields, k: string, sub: Fields)
    requires WellFormed(Obj(spec)) && Get(spec, k) == Some(Obj(sub)) && ObjectAt(t, k).Some?
    requires !HasKey(Delete(t, spec).tree, k)
    ensures [k] in Delete(t, spec).removed
  {
    DeleteReportsRemovedKeys(t, spec, k);
  }
}
