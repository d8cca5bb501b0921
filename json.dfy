/** JSON values as the manifest engine sees them once JSON.parse has run.

    An object is an ordered list of (key, value) entries: the order is the
    order in which Object.entries enumerates the keys, which decides the
    order of the removed-path report and where a newly assigned key lands.
 */
module Json {

  datatype Option<T> = None | Some(value: T)

  datatype Json =
    | Null
    | Bool(b: bool)
    | Num(literal: string)   // numbers are opaque leaves: the engine never computes with them
    | Str(s: string)
    | Arr(items: seq<Json>)  // arrays are opaque to the engine: replaced wholesale, never merged
    | Obj(fields: Fields)

  type Fields = seq<(string, Json)>

  /** isPlainObject: typeof value === 'object', not null and not an array. */
  predicate IsPlainObject(j: Json) {
    j.Obj?
  }

  /** isEmptyObject: the object has no own keys. */
  predicate IsEmptyObject(fs: Fields)
    ensures IsEmptyObject(fs) <==> forall k :: !HasKey(fs, k)
  {
    if fs != [] then assert HasKey(fs, fs[0].0); false else true
  }

  function Keys(fs: Fields): seq<string> {
    seq(|fs|, i requires 0 <= i < |fs| => fs[i].0)
  }

  /** Object.hasOwn(target, key) */
  predicate HasKey(fs: Fields, k: string) {
    exists i :: 0 <= i < |fs| && fs[i].0 == k
  }

  /** Every object a JSON parser builds has distinct keys. */
  predicate UniqueKeys(fs: Fields) {
    forall i, j :: 0 <= i < j < |fs| ==> fs[i].0 != fs[j].0
  }

  /** Distinct keys in every object reachable through object entries. */
  predicate WellFormed(j: Json) {
    match j
    case Obj(fs) => UniqueKeys(fs) && forall i :: 0 <= i < |fs| ==> WellFormed(fs[i].1)
    case _ => true
  }

  /** The position of the first entry with key k, or -1. */
  function IndexOf(fs: Fields, k: string): (i: int)
    ensures -1 <= i < |fs|
    ensures 0 <= i ==> fs[i].0 == k && forall j :: 0 <= j < i ==> fs[j].0 != k
    ensures i < 0 <==> !HasKey(fs, k)
  {
    if fs == [] then -1
    else if fs[0].0 == k then 0
    else
      var j := IndexOf(fs[1..], k);
      assert forall m :: 0 < m < |fs| ==> fs[m] == fs[1..][m - 1];
      if j < 0 then -1 else j + 1
  }

  /** target[key] read as an own property: None when the key is absent. */
  function Get(fs: Fields, k: string): (r: Option<Json>)
    ensures r.Some? <==> HasKey(fs, k)
    ensures forall i :: 0 <= i < |fs| && fs[i].0 == k && UniqueKeys(fs) ==> r == Some(fs[i].1)
  {
    var i := IndexOf(fs, k);
    if i < 0 then None else Some(fs[i].1)
  }

  /** The fields of the object stored at k, if the value there is a plain object. */
  function ObjectAt(fs: Fields, k: string): Option<Fields> {
    var v := Get(fs, k);
    if v.Some? && v.value.Obj? then Some(v.value.fields) else None
  }

  lemma HasKeyCons(e: (string, Json), rest: Fields, k: string)
    ensures HasKey([e] + rest, k) <==> e.0 == k || HasKey(rest, k)
  {
    if HasKey([e] + rest, k) && e.0 != k {
      var i :| 0 <= i < |[e] + rest| && ([e] + rest)[i].0 == k;
      assert rest[i - 1].0 == k;
    }
    if HasKey(rest, k) {
      var i :| 0 <= i < |rest| && rest[i].0 == k;
      assert ([e] + rest)[i + 1].0 == k;
    }
    if e.0 == k {
      assert ([e] + rest)[0].0 == k;
    }
  }

  /** delete target[key]: every entry with key k goes, the others keep their order. */
  function Remove(fs: Fields, k: string): (r: Fields)
    ensures !HasKey(r, k)
    ensures forall k' :: k' != k ==> (HasKey(r, k') <==> HasKey(fs, k'))
    ensures forall k' :: k' != k ==> Get(r, k') == Get(fs, k')
    ensures !HasKey(fs, k) ==> r == fs
    ensures |r| <= |fs|
  {
    if fs == [] then []
    else
      var rest := Remove(fs[1..], k);
      assert fs == [fs[0]] + fs[1..];
      assert forall k' :: Get(fs, k') == if fs[0].0 == k' then Some(fs[0].1) else Get(fs[1..], k') by {
        forall k' ensures Get(fs, k') == if fs[0].0 == k' then Some(fs[0].1) else Get(fs[1..], k') {
          GetCons(fs[0], fs[1..], k');
        }
      }
      assert forall k' :: HasKey(fs, k') <==> fs[0].0 == k' || HasKey(fs[1..], k') by {
        forall k' ensures HasKey(fs, k') <==> fs[0].0 == k' || HasKey(fs[1..], k') {
          HasKeyCons(fs[0], fs[1..], k');
        }
      }
      if fs[0].0 == k then rest
      else
        assert forall k' :: HasKey([fs[0]] + rest, k') <==> fs[0].0 == k' || HasKey(rest, k') by {
          forall k' ensures HasKey([fs[0]] + rest, k') <==> fs[0].0 == k' || HasKey(rest, k') {
            HasKeyCons(fs[0], rest, k');
          }
        }
        assert forall k' :: Get([fs[0]] + rest, k') == if fs[0].0 == k' then Some(fs[0].1) else Get(rest, k') by {
          forall k' ensures Get([fs[0]] + rest, k') == if fs[0].0 == k' then Some(fs[0].1) else Get(rest, k') {
            GetCons(fs[0], rest, k');
          }
        }
        [fs[0]] + rest
  }

  /** Every entry with key k gets value v; entries keep their positions. */
  function Replace(fs: Fields, k: string, v: Json): (r: Fields)
    ensures |r| == |fs|
    ensures forall i :: 0 <= i < |fs| ==> r[i] == if fs[i].0 == k then (k, v) else fs[i]
  {
    if fs == [] then []
    else [if fs[0].0 == k then (k, v) else fs[0]] + Replace(fs[1..], k, v)
  }

  /** target[key] = value: an existing key keeps its position, a new key is appended. */
  function Put(fs: Fields, k: string, v: Json): (r: Fields)
    ensures Get(r, k) == Some(v)
    ensures forall k' :: k' != k ==> Get(r, k') == Get(fs, k')
    decreases |fs|
  {
    if fs == [] then
      [(k, v)]
    else if fs[0].0 == k then
      PutHead(fs, k, v);
      [(k, v)] + Replace(fs[1..], k, v)
    else
      var tail := Put(fs[1..], k, v);
      PutBehind(fs, k, v, tail);
      [fs[0]] + tail
  }

  lemma KeysCons(e: (string, Json), rest: Fields)
    ensures Keys([e] + rest) == [e.0] + Keys(rest)
  {
  }

  /** Replacing a key's value changes no lookup of another key and no key position. */
  lemma {:induction false} ReplaceLookups(fs: Fields, k: string, v: Json)
    ensures forall k' :: k' != k ==> Get(Replace(fs, k, v), k') == Get(fs, k')
    ensures Keys(Replace(fs, k, v)) == Keys(fs)
    ensures HasKey(fs, k) ==> Get(Replace(fs, k, v), k) == Some(v)
    decreases |fs|
  {
    if fs != [] {
      var e := fs[0];
      var rest := fs[1..];
      var r := Replace(fs, k, v);
      var head := if e.0 == k then (k, v) else e;
      assert fs == [e] + rest;
      assert r == [head] + Replace(rest, k, v);
      ReplaceLookups(rest, k, v);
      KeysCons(head, Replace(rest, k, v));
      KeysCons(e, rest);
      HasKeyCons(e, rest, k);
      forall k' ensures Get(r, k') == if k' == head.0 then Some(head.1) else Get(Replace(rest, k, v), k') {
        GetCons(head, Replace(rest, k, v), k');
      }
      forall k' ensures Get(fs, k') == if k' == e.0 then Some(e.1) else Get(rest, k') {
        GetCons(e, rest, k');
      }
    }
  }

  /** Put's contract when the first entry holds the key. */
  lemma PutHead(fs: Fields, k: string, v: Json)
    requires fs != [] && fs[0].0 == k
    ensures var r := [(k, v)] + Replace(fs[1..], k, v);
      Get(r, k) == Some(v) &&
      (forall k' :: k' != k ==> Get(r, k') == Get(fs, k'))
  {
    var rest := fs[1..];
    var r := [(k, v)] + Replace(rest, k, v);
    assert fs == [fs[0]] + rest;
    ReplaceLookups(rest, k, v);
    GetCons((k, v), Replace(rest, k, v), k);
    forall k' | k' != k ensures Get(r, k') == Get(fs, k') {
      GetCons((k, v), Replace(rest, k, v), k');
      GetCons(fs[0], rest, k');
    }
  }

  /** Put's contract when the first entry holds another key, given the contract for the rest. */
  lemma PutBehind(fs: Fields, k: string, v: Json, tail: Fields)
    requires fs != [] && fs[0].0 != k
    requires Get(tail, k) == Some(v)
    requires forall k' :: k' != k ==> Get(tail, k') == Get(fs[1..], k')
    ensures var r := [fs[0]] + tail;
      Get(r, k) == Some(v) &&
      (forall k' :: k' != k ==> Get(r, k') == Get(fs, k'))
  {
    var e := fs[0];
    var rest := fs[1..];
    var r := [e] + tail;
    assert fs == [e] + rest;
    GetCons(e, tail, k);
    forall k' | k' != k ensures Get(r, k') == Get(fs, k') {
      GetCons(e, tail, k');
      GetCons(e, rest, k');
    }
  }

  /** The closed form of Put: replace every entry with the key if there is one, else append. */
  lemma {:induction false} PutDef(fs: Fields, k: string, v: Json)
    ensures Put(fs, k, v) == if HasKey(fs, k) then Replace(fs, k, v) else fs + [(k, v)]
    decreases |fs|
  {
    if fs != [] {
      var e := fs[0];
      var rest := fs[1..];
      assert fs == [e] + rest;
      HasKeyCons(e, rest, k);
      if e.0 != k {
        PutDef(rest, k, v);
        if !HasKey(rest, k) {
          assert [e] + (rest + [(k, v)]) == fs + [(k, v)];
        }
      }
    }
  }

  /** An existing key keeps its position; a new key is appended. */
  lemma PutKeys(fs: Fields, k: string, v: Json)
    ensures Keys(Put(fs, k, v)) == if HasKey(fs, k) then Keys(fs) else Keys(fs) + [k]
  {
    PutDef(fs, k, v);
    if HasKey(fs, k) {
      ReplaceLookups(fs, k, v);
    } else {
      KeysSnoc(fs, (k, v));
    }
  }

  lemma KeysSnoc(fs: Fields, e: (string, Json))
    ensures Keys(fs + [e]) == Keys(fs) + [e.0]
  {
  }

  lemma ReplaceTwice(fs: Fields, k: string, v: Json, w: Json)
    ensures Replace(Replace(fs, k, v), k, w) == Replace(fs, k, w)
  {
    var once := Replace(fs, k, v);
    assert forall i :: 0 <= i < |fs| ==> once[i].0 == fs[i].0;
  }

  /** Assigning the same key twice leaves only the second value. */
  lemma {:induction false} PutTwice(fs: Fields, k: string, v: Json, w: Json)
    ensures Put(Put(fs, k, v), k, w) == Put(fs, k, w)
    decreases |fs|
  {
    if fs == [] {
      assert [(k, v)][1..] == [];
    } else if fs[0].0 == k {
      var rest := fs[1..];
      var once := [(k, v)] + Replace(rest, k, v);
      assert once[1..] == Replace(rest, k, v);
      ReplaceTwice(rest, k, v, w);
    } else {
      var once := [fs[0]] + Put(fs[1..], k, v);
      assert once[1..] == Put(fs[1..], k, v);
      PutTwice(fs[1..], k, v, w);
    }
  }

  lemma IndexOfIs(fs: Fields, k: string, i: int)
    requires 0 <= i < |fs| && fs[i].0 == k
    requires forall j :: 0 <= j < i ==> fs[j].0 != k
    ensures IndexOf(fs, k) == i
  {
    assert HasKey(fs, k);
  }

  /** Looking a key up after one entry has been appended. */
  lemma IndexOfAppend(fs: Fields, e: (string, Json), k: string)
    ensures IndexOf(fs + [e], k) ==
      if HasKey(fs, k) then IndexOf(fs, k) else if e.0 == k then |fs| else -1
  {
    var r := fs + [e];
    if HasKey(fs, k) {
      var i := IndexOf(fs, k);
      IndexOfIs(r, k, i);
    } else if e.0 == k {
      IndexOfIs(r, k, |fs|);
    }
  }

  lemma GetCons(e: (string, Json), rest: Fields, k: string)
    ensures Get([e] + rest, k) == if e.0 == k then Some(e.1) else Get(rest, k)
  {
    assert ([e] + rest)[1..] == rest;
  }

  lemma UniqueCons(e: (string, Json), rest: Fields)
    ensures UniqueKeys([e] + rest) <==> !HasKey(rest, e.0) && UniqueKeys(rest)
  {
    var fs := [e] + rest;
    assert forall i :: 0 <= i < |rest| ==> fs[i + 1] == rest[i];
    if UniqueKeys(fs) {
      forall i | 0 <= i < |rest| ensures rest[i].0 != e.0 {
        assert fs[0].0 != fs[i + 1].0;
      }
      forall i, j | 0 <= i < j < |rest| ensures rest[i].0 != rest[j].0 {
        assert fs[i + 1] == rest[i] && fs[j + 1] == rest[j];
      }
    }
    if !HasKey(rest, e.0) && UniqueKeys(rest) {
      forall i, j | 0 <= i < j < |fs| ensures fs[i].0 != fs[j].0 {
        if i == 0 {
          assert fs[j] == rest[j - 1];
        } else {
          assert fs[i] == rest[i - 1] && fs[j] == rest[j - 1];
        }
      }
    }
  }

  lemma WellFormedCons(e: (string, Json), rest: Fields)
    ensures WellFormed(Obj([e] + rest)) <==>
      !HasKey(rest, e.0) && WellFormed(e.1) && WellFormed(Obj(rest))
  {
    UniqueCons(e, rest);
    ChildrenCons(e, rest, [e] + rest);
  }

  /** The values of e :: rest are well-formed exactly when e's value and those of rest are. */
  lemma ChildrenCons(e: (string, Json), rest: Fields, fs: Fields)
    requires fs == [e] + rest
    ensures (forall i :: 0 <= i < |fs| ==> WellFormed(fs[i].1)) <==>
      WellFormed(e.1) && forall i :: 0 <= i < |rest| ==> WellFormed(rest[i].1)
  {
    assert fs[0] == e;
    assert forall i :: 0 <= i < |rest| ==> fs[i + 1] == rest[i];
    if WellFormed(e.1) && forall i :: 0 <= i < |rest| ==> WellFormed(rest[i].1) {
      forall i | 0 <= i < |fs| ensures WellFormed(fs[i].1) {
        if i > 0 { assert fs[i] == rest[i - 1]; }
      }
    }
  }

  /** The object stored under a key of a well-formed object is well-formed. */
  lemma WellFormedAt(fs: Fields, k: string)
    requires WellFormed(Obj(fs)) && HasKey(fs, k)
    ensures WellFormed(Get(fs, k).value)
  {
    var i := IndexOf(fs, k);
    assert Get(fs, k).value == fs[i].1;
  }

  lemma RemoveCons(e: (string, Json), rest: Fields, k: string)
    ensures Remove([e] + rest, k) == if e.0 == k then Remove(rest, k) else [e] + Remove(rest, k)
  {
    assert ([e] + rest)[1..] == rest;
  }

  lemma ReplaceAbsent(fs: Fields, k: string, v: Json)
    requires !HasKey(fs, k)
    ensures Replace(fs, k, v) == fs
  {
    var r := Replace(fs, k, v);
    assert forall i :: 0 <= i < |fs| ==> fs[i].0 != k;
  }

  /** Assigning the first entry's key, when no later entry holds it, rewrites that entry only. */
  lemma PutConsHead(e: (string, Json), rest: Fields, v: Json)
    requires !HasKey(rest, e.0)
    ensures Put([e] + rest, e.0, v) == [(e.0, v)] + rest
  {
    assert ([e] + rest)[1..] == rest;
    ReplaceAbsent(rest, e.0, v);
  }

  /** Assigning the value a key already has changes nothing. */
  lemma PutSame(fs: Fields, k: string, v: Json)
    requires UniqueKeys(fs) && Get(fs, k) == Some(v)
    ensures Put(fs, k, v) == fs
  {
    PutDef(fs, k, v);
    var r := Replace(fs, k, v);
    forall i | 0 <= i < |fs| ensures r[i] == fs[i] {
      if fs[i].0 == k {
        assert fs[i].1 == v;
      }
    }
  }

  lemma HasKeyConcat(a: Fields, b: Fields, k: string)
    ensures HasKey(a + b, k) <==> HasKey(a, k) || HasKey(b, k)
  {
    if HasKey(a + b, k) {
      var i :| 0 <= i < |a + b| && (a + b)[i].0 == k;
      if i >= |a| { assert b[i - |a|].0 == k; }
    }
    if HasKey(b, k) {
      var i :| 0 <= i < |b| && b[i].0 == k;
      assert (a + b)[|a| + i].0 == k;
    }
    if HasKey(a, k) {
      var i :| 0 <= i < |a| && a[i].0 == k;
      assert (a + b)[i].0 == k;
    }
  }

  lemma GetConcat(a: Fields, b: Fields, k: string)
    ensures Get(a + b, k) == if HasKey(a, k) then Get(a, k) else Get(b, k)
  {
    if HasKey(a, k) {
      IndexOfIs(a + b, k, IndexOf(a, k));
    } else if HasKey(b, k) {
      IndexOfIs(a + b, k, |a| + IndexOf(b, k));
    } else {
      HasKeyConcat(a, b, k);
    }
  }

  lemma {:induction false} RemoveConcat(a: Fields, b: Fields, k: string)
    ensures Remove(a + b, k) == Remove(a, k) + Remove(b, k)
  {
    if a != [] {
      assert (a + b)[1..] == a[1..] + b;
      RemoveConcat(a[1..], b, k);
    } else {
      assert a + b == b;
    }
  }

  lemma ConcatAssoc<T>(x: seq<T>, y: seq<T>, z: seq<T>)
    ensures x + (y + z) == (x + y) + z
  {
  }

  /** Assigning a key that only the second part holds leaves the first part alone. */
  lemma {:induction false} PutConcatRight(a: Fields, b: Fields, k: string, v: Json)
    requires !HasKey(a, k) && HasKey(b, k)
    ensures Put(a + b, k, v) == a + Put(b, k, v)
    decreases |a|
  {
    if a == [] {
      assert a + b == b;
    } else {
      assert a[0].0 != k by {
        HasKeyCons(a[0], a[1..], k);
        assert a == [a[0]] + a[1..];
      }
      assert !HasKey(a[1..], k) by {
        HasKeyCons(a[0], a[1..], k);
        assert a == [a[0]] + a[1..];
      }
      assert Put(a + b, k, v) == [a[0]] + Put(a[1..] + b, k, v) by {
        assert (a + b)[0] == a[0];
        assert (a + b)[1..] == a[1..] + b;
      }
      PutConcatRight(a[1..], b, k, v);
      ConcatAssoc([a[0]], a[1..], Put(b, k, v));
      assert [a[0]] + a[1..] == a;
    }
  }

  lemma ReplaceUnique(fs: Fields, k: string, v: Json)
    requires UniqueKeys(fs)
    ensures UniqueKeys(Replace(fs, k, v))
  {
    var r := Replace(fs, k, v);
    assert forall i :: 0 <= i < |fs| ==> r[i].0 == fs[i].0;
  }

  lemma AppendUnique(fs: Fields, k: string, v: Json)
    requires UniqueKeys(fs) && !HasKey(fs, k)
    ensures UniqueKeys(fs + [(k, v)])
  {
    var r := fs + [(k, v)];
    assert forall i :: 0 <= i < |fs| ==> r[i] == fs[i];
    assert r[|fs|].0 == k;
  }

  /** Assigning a well-formed value keeps an object well-formed. */
  lemma PutWellFormed(fs: Fields, k: string, v: Json)
    requires WellFormed(Obj(fs)) && WellFormed(v)
    ensures WellFormed(Obj(Put(fs, k, v)))
  {
    PutDef(fs, k, v);
    if HasKey(fs, k) {
      ReplaceWellFormed(fs, k, v);
    } else {
      AppendWellFormed(fs, k, v);
    }
  }

  lemma ReplaceWellFormed(fs: Fields, k: string, v: Json)
    requires WellFormed(Obj(fs)) && WellFormed(v)
    ensures WellFormed(Obj(Replace(fs, k, v)))
  {
    ReplaceUnique(fs, k, v);
    var r := Replace(fs, k, v);
    assert forall i :: 0 <= i < |fs| ==> r[i] == if fs[i].0 == k then (k, v) else fs[i];
  }

  lemma AppendWellFormed(fs: Fields, k: string, v: Json)
    requires WellFormed(Obj(fs)) && WellFormed(v) && !HasKey(fs, k)
    ensures WellFormed(Obj(fs + [(k, v)]))
  {
    AppendUnique(fs, k, v);
    var r := fs + [(k, v)];
    assert forall i :: 0 <= i < |fs| ==> r[i] == fs[i];
    assert r[|fs|] == (k, v);
  }

  // ---------------------------------------------------------------------
  // Prefixes of an entry list
  // ---------------------------------------------------------------------

  /** Two entries of an object with distinct keys have different keys. */
  lemma DistinctKeys(fs: Fields, i: nat, j: nat)
    requires UniqueKeys(fs) && i < j < |fs|
    ensures fs[i].0 != fs[j].0
  {
  }

  /** A key among the first m entries is among the first n for m <= n. */
  lemma HasKeyPrefixGrows(fs: Fields, m: nat, n: nat, k: string)
    requires m <= n <= |fs| && HasKey(fs[..m], k)
    ensures HasKey(fs[..n], k)
  {
    var w :| 0 <= w < m && fs[..m][w].0 == k;
    assert fs[..n][w].0 == k;
  }

  /** Entry j's key is among the first j + 1 keys. */
  lemma KeyInOwnPrefix(fs: Fields, j: nat, n: nat)
    requires n == j + 1 && n <= |fs|
    ensures HasKey(fs[..n], fs[j].0)
  {
    assert fs[..n][j].0 == fs[j].0;
  }

  /** The key of entry j is not among the first j keys when keys are distinct. */
  lemma KeyNotEarlier(fs: Fields, j: nat)
    requires UniqueKeys(fs) && j < |fs|
    ensures !HasKey(fs[..j], fs[j].0)
  {
    forall m | 0 <= m < j ensures fs[..j][m].0 != fs[j].0 {
      assert fs[m].0 != fs[j].0;
    }
  }

  /** The keys of the first n entries are those of the first n - 1 and the key of entry n - 1. */
  lemma HasKeyPrefixSnoc(fs: Fields, j: nat, n: nat, k: string)
    requires j == n - 1 && 0 < n <= |fs|
    ensures HasKey(fs[..n], k) <==> HasKey(fs[..j], k) || fs[j].0 == k
  {
    assert fs[..n] == fs[..j] + [fs[j]];
    HasKeyConcat(fs[..j], [fs[j]], k);
    HasKeyCons(fs[j], [], k);
  }

  /** A key found in the first m entries has its first position there. */
  lemma IndexOfPrefix(fs: Fields, m: nat, k: string)
    requires m <= |fs| && HasKey(fs[..m], k)
    ensures 0 <= IndexOf(fs, k) < m
  {
    var w :| 0 <= w < m && fs[..m][w].0 == k;
    assert fs[w].0 == k;
  }
}
