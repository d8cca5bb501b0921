/** The package.json merge/delete engine (src/services/packageJson.ts).

    Both engines walk the entries of a spec object in order and edit the
    target object in place. Here the target is a field list: each method
    returns the edited list, and a nested object that the source edits in
    place is written back into its slot with Put once the recursive call
    returns.

    DeleteEntries and MergeEntries give the state after the first n spec
    entries have been processed, which is exactly what each loop has done
    after n iterations; the methods are proved against them.
 */
module PackageJson {
  import opened Json

  /** A path as the list of keys leading to it from the root of the call. */
  type Path = seq<string>

  /** What a delete leaves behind: the edited object and the removed paths, in order. */
  datatype Deletion = Deletion(tree: Fields, removed: seq<Path>)

  // ---------------------------------------------------------------------
  // Path formatting (formatJsonPath)
  // ---------------------------------------------------------------------

  predicate IsIdentifierStart(c: char) {
    ('A' <= c <= 'Z') || ('a' <= c <= 'z') || c == '_' || c == '$'
  }

  predicate IsIdentifierPart(c: char) {
    IsIdentifierStart(c) || ('0' <= c <= '9')
  }

  /** The test /^[A-Za-z_$][A-Za-z0-9_$]*$/ */
  predicate IsIdentifier(s: string) {
    |s| > 0 && IsIdentifierStart(s[0]) && forall i :: 1 <= i < |s| ==> IsIdentifierPart(s[i])
  }

  function HexDigit(d: nat): char
    requires d < 16
  {
    if d < 10 then ('0' as int + d) as char else ('a' as int + d - 10) as char
  }

  /** How JSON.stringify writes one character inside a string literal. */
  function EscapeChar(c: char): string {
    if c == '"' then "\\\""
    else if c == '\\' then "\\\\"
    else if c as int == 8 then "\\b"
    else if c as int == 12 then "\\f"
    else if c == '\n' then "\\n"
    else if c == '\r' then "\\r"
    else if c == '\t' then "\\t"
    else if (c as int) < 32 then "\\u00" + [HexDigit(c as int / 16), HexDigit(c as int % 16)]
    else [c]
  }

  function Escape(s: string): string {
    if s == [] then "" else EscapeChar(s[0]) + Escape(s[1..])
  }

  /** JSON.stringify(segment) for a string segment. */
  function Quote(s: string): string {
    "\"" + Escape(s) + "\""
  }

  /** The text one segment contributes at position index. */
  function FormatSegment(segment: string, index: nat): string {
    if IsIdentifier(segment) then
      if index == 0 then segment else "." + segment
    else
      "[" + Quote(segment) + "]"
  }

  /** formatJsonPath: every segment formatted at its index, joined with ''. */
  function FormatJsonPath(segments: Path): (r: string)
    ensures |r| >= |segments|
    ensures r == "" <==> segments == []
  {
    if segments == [] then ""
    else FormatJsonPath(segments[..|segments| - 1]) + FormatSegment(segments[|segments| - 1], |segments| - 1)
  }

  /** The report the source returns: every removed path, formatted. */
  function FormatAll(paths: seq<Path>): seq<string> {
    seq(|paths|, i requires 0 <= i < |paths| => FormatJsonPath(paths[i]))
  }

  lemma FormatAllAppend(a: seq<Path>, b: seq<Path>)
    ensures FormatAll(a + b) == FormatAll(a) + FormatAll(b)
  {
  }

  // ---------------------------------------------------------------------
  // Delete (applyDeleteRecursively)
  // ---------------------------------------------------------------------

  /** The target and report after the loop has handled the first n entries of spec. */
  function DeleteEntries(target: Fields, spec: Json, n: nat, segments: Path): Deletion
    requires spec.Obj? && n <= |spec.fields|
    decreases spec, n
  {
    if n == 0 then Deletion(target, [])
    else
      var before := DeleteEntries(target, spec, n - 1, segments);
      var step := DeleteEntry(before.tree, spec.fields[n - 1].0, spec.fields[n - 1].1, segments);
      Deletion(step.tree, before.removed + step.removed)
  }

  /** One iteration of the loop, for the spec entry (key, value). */
  function DeleteEntry(target: Fields, key: string, value: Json, segments: Path): Deletion
    decreases value
  {
    var path := segments + [key];
    if value.Null? then
      if HasKey(target, key) then Deletion(Remove(target, key), [path])
      else Deletion(target, [])
    else if value.Obj? && ObjectAt(target, key).Some? then
      var nested := DeleteEntries(ObjectAt(target, key).value, value, |value.fields|, path);
      var written := Put(target, key, Obj(nested.tree));
      if HasKey(written, key) && IsEmptyObject(nested.tree) then
        Deletion(Remove(written, key), nested.removed + [path])
      else
        Deletion(written, nested.removed)
    else
      Deletion(target, [])
  }

  /** applyPackageDeleteSpec */
  function Delete(target: Fields, spec: Fields): Deletion {
    DeleteEntries(target, Obj(spec), |spec|, [])
  }

  /** The fold takes one more spec entry: entry i is handled after the first i. */
  lemma DeleteEntriesNext(target: Fields, spec: Json, i: nat, n: nat, segments: Path)
    requires spec.Obj? && i == n - 1 && 0 < n <= |spec.fields|
    ensures DeleteEntries(target, spec, n, segments).tree
         == DeleteEntry(DeleteEntries(target, spec, i, segments).tree, spec.fields[i].0, spec.fields[i].1, segments).tree
    ensures DeleteEntries(target, spec, n, segments).removed
         == DeleteEntries(target, spec, i, segments).removed
          + DeleteEntry(DeleteEntries(target, spec, i, segments).tree, spec.fields[i].0, spec.fields[i].1, segments).removed
  {
  }

  method ApplyDeleteRecursively(target: Fields, spec: Json, segments: Path)
    returns (result: Fields, removedPaths: seq<string>)
    requires spec.Obj?
    ensures result == DeleteEntries(target, spec, |spec.fields|, segments).tree
    ensures removedPaths == FormatAll(DeleteEntries(target, spec, |spec.fields|, segments).removed)
    decreases spec, 0
  {
    result, removedPaths := target, [];
    var i := 0;
    while i < |spec.fields|
      invariant 0 <= i <= |spec.fields|
      invariant result == DeleteEntries(target, spec, i, segments).tree
      invariant removedPaths == FormatAll(DeleteEntries(target, spec, i, segments).removed)
    {
      var next := i + 1;
      DeleteEntriesNext(target, spec, i, next, segments);
      var tree, removed := DeleteEntryFrom(result, spec.fields[i].0, spec.fields[i].1, segments);
      FormatAllAppend(DeleteEntries(target, spec, i, segments).removed,
                      DeleteEntry(result, spec.fields[i].0, spec.fields[i].1, segments).removed);
      result, removedPaths := tree, removedPaths + removed;
      i := next;
    }
  }

  /** The body of the loop in applyDeleteRecursively, for the spec entry (key, value). */
  method DeleteEntryFrom(target: Fields, key: string, value: Json, segments: Path)
    returns (result: Fields, removedPaths: seq<string>)
    ensures result == DeleteEntry(target, key, value, segments).tree
    ensures removedPaths == FormatAll(DeleteEntry(target, key, value, segments).removed)
    decreases value, 1
  {
    var pathSegments := segments + [key];
    var currentPath := FormatJsonPath(pathSegments);
    result, removedPaths := target, [];
    if value.Null? {
      if HasKey(result, key) {
        result := Remove(result, key);
        removedPaths := [currentPath];
      }
    } else if IsPlainObject(value) && ObjectAt(result, key).Some? {
      var nestedTree, nestedRemoved := ApplyDeleteRecursively(ObjectAt(result, key).value, value, pathSegments);
      removedPaths := nestedRemoved;
      result := Put(result, key, Obj(nestedTree));
      var targetHasKey := HasKey(result, key);
      if targetHasKey && IsEmptyObject(nestedTree) {
        result := Remove(result, key);
        FormatAllAppend(DeleteEntries(ObjectAt(target, key).value, value, |value.fields|, pathSegments).removed, [pathSegments]);
        removedPaths := removedPaths + [currentPath];
      }
    }
  }

  /** applyPackageDeleteSpec: the edited manifest and the formatted report. */
  method ApplyPackageDeleteSpec(target: Fields, spec: Fields) returns (result: Fields, removedPaths: seq<string>)
    ensures result == Delete(target, spec).tree
    ensures removedPaths == FormatAll(Delete(target, spec).removed)
  {
    result, removedPaths := ApplyDeleteRecursively(target, Obj(spec), []);
  }

  // ---------------------------------------------------------------------
  // Merge (applyMergeRecursively)
  // ---------------------------------------------------------------------

  /** The fields a plain-object spec value is merged into: the object at key, or {} otherwise. */
  function Slot(target: Fields, key: string): Fields {
    if ObjectAt(target, key).Some? then ObjectAt(target, key).value else []
  }

  /** The target after the loop has handled the first n entries of spec. */
  function MergeEntries(target: Fields, spec: Json, n: nat): Fields
    requires spec.Obj? && n <= |spec.fields|
    decreases spec, 0, n
  {
    if n == 0 then target
    else
      MergeStep(MergeEntries(target, spec, n - 1), spec.fields[n - 1])
  }

  /** One iteration of the merge loop: target[key] gets the merged value of the spec entry. */
  function MergeStep(before: Fields, entry: (string, Json)): Fields
    decreases entry.1, 2
  {
    Put(before, entry.0, MergedValue(before, entry.0, entry.1))
  }

  /** What one iteration assigns to target[key] for the spec entry (key, value). */
  function MergedValue(target: Fields, key: string, value: Json): Json
    decreases value, 1
  {
    if value.Obj? then Obj(MergeEntries(Slot(target, key), value, |value.fields|))
    else value
  }

  /** applyPackageMergeSpec */
  function Merge(target: Fields, spec: Fields): Fields {
    MergeEntries(target, Obj(spec), |spec|)
  }

  /** The fold takes one more spec entry: entry i is handled after the first i. */
  lemma MergeEntriesNext(target: Fields, spec: Json, i: nat, n: nat)
    requires spec.Obj? && i == n - 1 && 0 < n <= |spec.fields|
    ensures MergeEntries(target, spec, n) == MergeStep(MergeEntries(target, spec, i), spec.fields[i])
  {
  }

  /** A value that is not a plain object is stored as it is. */
  lemma ScalarStep(before: Fields, entry: (string, Json))
    requires !entry.1.Obj?
    ensures MergeStep(before, entry) == Put(before, entry.0, entry.1)
  {
  }

  /** The slot the loop merges into: the old object at key, or the {} just written there. */
  lemma CoercedSlot(before: Fields, key: string, coerced: Fields)
    requires coerced == if ObjectAt(before, key).Some? then before else Put(before, key, Obj([]))
    ensures ObjectAt(coerced, key) == Some(Slot(before, key))
  {
  }

  /** Writing the merged object back over the coerced slot is one merge step. */
  lemma WriteBack(before: Fields, entry: (string, Json), coerced: Fields, merged: Fields)
    requires entry.1.Obj?
    requires coerced == if ObjectAt(before, entry.0).Some? then before else Put(before, entry.0, Obj([]))
    requires merged == MergeEntries(Slot(before, entry.0), entry.1, |entry.1.fields|)
    ensures Put(coerced, entry.0, Obj(merged)) == MergeStep(before, entry)
  {
    var key := entry.0;
    if ObjectAt(before, key).None? {
      PutTwice(before, key, Obj([]), Obj(merged));
    }
  }

  method ApplyMergeRecursively(target: Fields, spec: Json) returns (result: Fields)
    requires spec.Obj?
    ensures result == MergeEntries(target, spec, |spec.fields|)
    decreases spec, 0
  {
    result := target;
    var i := 0;
    while i < |spec.fields|
      invariant 0 <= i <= |spec.fields|
      invariant result == MergeEntries(target, spec, i)
    {
      var next := i + 1;
      MergeEntriesNext(target, spec, i, next);
      result := MergeEntryInto(result, spec.fields[i]);
      i := next;
    }
  }

  /** The body of the merge loop for the spec entry (key, value). */
  method MergeEntryInto(target: Fields, entry: (string, Json)) returns (result: Fields)
    ensures result == MergeStep(target, entry)
    decreases entry.1, 1
  {
    var (key, value) := entry;
    if IsPlainObject(value) {
      result := target;
      if !(ObjectAt(result, key).Some?) {
        result := Put(result, key, Obj([]));
      }
      CoercedSlot(target, key, result);
      var merged := ApplyMergeRecursively(ObjectAt(result, key).value, value);
      WriteBack(target, entry, result, merged);
      result := Put(result, key, Obj(merged));
    } else {
      ScalarStep(target, entry);
      result := Put(target, key, value);
    }
  }

  /** applyPackageMergeSpec */
  method ApplyPackageMergeSpec(target: Fields, spec: Fields) returns (result: Fields)
    ensures result == Merge(target, spec)
  {
    result := ApplyMergeRecursively(target, Obj(spec));
  }
}
