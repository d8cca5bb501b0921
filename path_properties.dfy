/** Properties of formatJsonPath (src/services/packageJson.ts). */
module PathProperties {
  import opened PackageJson

  /** Segments joined with "." — how a path of plain identifiers reads. */
  function DotJoin(segments: Path): string {
    if segments == [] then ""
    else if |segments| == 1 then segments[0]
    else segments[0] + "." + DotJoin(segments[1..])
  }

  predicate AllIdentifiers(segments: Path) {
    forall i :: 0 <= i < |segments| ==> IsIdentifier(segments[i])
  }

  /** DotJoin of a path with one more segment at the end. */
  lemma {:induction false} DotJoinSnoc(segments: Path, s: string)
    requires segments != []
    ensures DotJoin(segments + [s]) == DotJoin(segments) + "." + s
    decreases |segments|
  {
    if |segments| > 1 {
      assert (segments + [s])[1..] == segments[1..] + [s];
      DotJoinSnoc(segments[1..], s);
    } else {
      assert (segments + [s])[1..] == [s];
    }
  }

  /** A path made only of identifiers is formatted as its segments joined with dots. */
  lemma {:induction false} FormatIdentifierPath(segments: Path)
    requires AllIdentifiers(segments)
    ensures FormatJsonPath(segments) == DotJoin(segments)
    decreases |segments|
  {
    if segments != [] {
      var init := segments[..|segments| - 1];
      var last := segments[|segments| - 1];
      assert segments == init + [last];
      FormatSnoc(init, last, segments, |init|);
      if init != [] {
        FormatIdentifierPath(init);
        DotJoinSnoc(init, last);
      }
    }
  }

  /** A segment that is not an identifier is written as a bracketed JSON string, wherever it stands. */
  lemma FormatNonIdentifierSegment(segments: Path, s: string)
    requires !IsIdentifier(s)
    ensures FormatJsonPath(segments + [s]) == FormatJsonPath(segments) + "[" + Quote(s) + "]"
  {
    FormatSnoc(segments, s, segments + [s], |segments|);
  }

  /** An identifier segment after the first is written with a leading dot, whatever precedes it. */
  lemma FormatIdentifierSegment(segments: Path, s: string)
    requires IsIdentifier(s) && segments != []
    ensures FormatJsonPath(segments + [s]) == FormatJsonPath(segments) + "." + s
  {
    FormatSnoc(segments, s, segments + [s], |segments|);
  }

  /** The last segment of a path is formatted at its own index after the rest. */
  lemma FormatSnoc(segments: Path, s: string, full: Path, n: nat)
    requires full == segments + [s] && n == |segments|
    ensures FormatJsonPath(full) == FormatJsonPath(segments) + FormatSegment(s, n)
  {
    assert full[..|full| - 1] == segments;
    assert full[|full| - 1] == s;
  }

  /** A bracketed first segment followed by an identifier: ["a b"].c */
  lemma FormatMixedExample()
    ensures FormatJsonPath(["a b", "c"]) == "[\"a b\"].c"
  {
    FormatQuotedHead();
    assert IsIdentifier("c");
    FormatIdentifierSegment(["a b"], "c");
    assert ["a b"] + ["c"] == ["a b", "c"];
  }

  lemma FormatQuotedHead()
    ensures FormatJsonPath(["a b"]) == "[\"a b\"]"
  {
    SpacedNotIdentifier();
    QuoteSpaced();
    FormatSnoc([], "a b", ["a b"], 0);
  }

  lemma SpacedNotIdentifier()
    ensures !IsIdentifier("a b")
  {
    assert !IsIdentifierPart("a b"[1]);
  }

  lemma QuoteSpaced()
    ensures Quote("a b") == "\"a b\""
  {
    EscapePlain("a b");
  }

  /** Escape writes every character other than a quote, a backslash and a control character as itself. */
  lemma {:induction false} EscapePlain(s: string)
    requires PlainText(s)
    ensures Escape(s) == s
    decreases |s|
  {
    if s != [] {
      EscapePlain(s[1..]);
      assert s == [s[0]] + s[1..];
    }
  }

  /** Characters JSON.stringify writes unchanged. */
  predicate PlainText(s: string) {
    forall i :: 0 <= i < |s| ==> s[i] != '"' && s[i] != '\\' && s[i] as int >= 32
  }

  lemma FormatSingleIdentifier(s: string)
    requires IsIdentifier(s)
    ensures FormatJsonPath([s]) == s
  {
    assert [s][..0] == [];
  }

  /** A child key that is not an identifier, such as a script name with a colon, is bracketed after its parent. */
  lemma FormatBracketedChild(parent: string, key: string)
    requires IsIdentifier(parent) && !IsIdentifier(key) && PlainText(key)
    ensures FormatJsonPath([parent, key]) == parent + "[\"" + key + "\"]"
  {
    assert [parent] + [key] == [parent, key];
    FormatSingleIdentifier(parent);
    FormatNonIdentifierSegment([parent], key);
    EscapePlain(key);
  }

  /** Identifier keys are joined with dots. */
  lemma FormatDottedExample()
    ensures FormatJsonPath(["scripts", "lint"]) == "scripts.lint"
  {
    assert AllIdentifiers(["scripts", "lint"]);
    FormatIdentifierPath(["scripts", "lint"]);
    assert ["scripts", "lint"][1..] == ["lint"];
  }
}
