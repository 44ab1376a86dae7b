/**
 * The input sanitiser `_cleanInputs` (API.php:135-146): it walks a request
 * parameter value, keeps every array and every key, and replaces each scalar
 * leaf `s` by `trim(strip_tags(s))`.
 */
module Sanitizer {
  import opened Wrappers
  import opened Php

  /** A request parameter as PHP hands it over: a string, or an array of named values. */
  datatype Value = Scalar(s: string) | Array(entries: map<string, Value>)

  /** What one leaf becomes: `trim(strip_tags(s))`. */
  function Clean(s: string): (r: string)
    ensures |r| <= |s|
    ensures r == [] || (!IsTrimChar(r[0]) && !IsTrimChar(r[|r| - 1]))
  {
    Trim(StripTags(s))
  }

  /** The value `_cleanInputs` returns for `v`, stated as a function. */
  function Sanitize(v: Value): (r: Value)
    ensures v.Scalar? ==> r.Scalar? && |r.s| <= |v.s|
    ensures v.Array? ==> r.Array? && r.entries.Keys == v.entries.Keys
  {
    match v
    case Scalar(s) => Scalar(Clean(s))
    case Array(m) => Array(SanitizeEntries(m))
  }

  /** Every entry of an array sanitised, under its own key. */
  function SanitizeEntries(m: map<string, Value>): (r: map<string, Value>)
    ensures r.Keys == m.Keys
    decreases Array(m), 0
  {
    map k | k in m :: Sanitize(m[k])
  }

  /** `a` and `b` have the same nesting: scalars against scalars, arrays with equal key sets. */
  predicate SameShape(a: Value, b: Value) {
    match a
    case Scalar(_) => b.Scalar?
    case Array(m) =>
      b.Array? && m.Keys == b.entries.Keys &&
      forall k :: k in m ==> SameShape(m[k], b.entries[k])
  }

  /** The scalar reached from `v` by following the keys in `path`, if there is one. */
  function LeafAt(v: Value, path: seq<string>): Option<string>
    decreases |path|
  {
    if path == [] then
      if v.Scalar? then Some(v.s) else None
    else if v.Array? && path[0] in v.entries then LeafAt(v.entries[path[0]], path[1..])
    else None
  }

  /** Sanitising keeps every key and the nesting of the whole value. */
  lemma {:induction false} SanitizeKeepsShape(v: Value)
    ensures SameShape(Sanitize(v), v)
  {
    match v
    case Scalar(_) =>
    case Array(m) =>
      forall k | k in m ensures SameShape(Sanitize(v).entries[k], m[k]) {
        assert Sanitize(v).entries[k] == Sanitize(m[k]);
        SanitizeKeepsShape(m[k]);
      }
  }

  /** The leaf at every path of the sanitised value is the cleaned leaf at that path of the input. */
  lemma {:induction false} SanitizeCleansLeaves(v: Value, path: seq<string>)
    ensures LeafAt(Sanitize(v), path) == match LeafAt(v, path)
                                         case None => None
                                         case Some(s) => Some(Clean(s))
    decreases |path|
  {
    if path != [] && v.Array? && path[0] in v.entries {
      SanitizeCleansLeaves(v.entries[path[0]], path[1..]);
    }
  }

  /** No leaf of a sanitised value starts or ends with a trim character. */
  lemma NoLeafHasEdgeWhitespace(v: Value, path: seq<string>)
    ensures match LeafAt(Sanitize(v), path)
            case None => true
            case Some(s) => s == [] || (!IsTrimChar(s[0]) && !IsTrimChar(s[|s| - 1]))
  {
    SanitizeCleansLeaves(v, path);
  }

  /**
   * Cleaning a cleaned leaf changes nothing, unless the cleaned leaf ends in
   * '<': then `strip_tags` reads that '<' as the start of a tag and drops it.
   */
  lemma CleanIdempotent(s: string)
    requires Clean(s) == [] || Clean(s)[|Clean(s)| - 1] != '<'
    ensures Clean(Clean(s)) == Clean(s)
  {
    var t := StripTags(s);
    var c := Clean(s);
    StripTagsLeavesPlainText(s, 0);
    TrimKeepsPlainText(t, c);
    StripTagsOfPlainText(c);
    TrimOfTrimmed(c);
    assert Clean(c) == Trim(StripTags(c));
  }

  /** Trimming plain text leaves plain text, unless the result ends in '<'. */
  lemma TrimKeepsPlainText(t: string, c: string)
    requires IsPlainText(t) && c == Trim(t)
    requires c == [] || c[|c| - 1] != '<'
    ensures IsPlainText(c)
  {
    var a := TrimIsSlice(t);
    SliceKeepsPlainText(t, a, c);
  }

  /** A slice of plain text is plain text, unless it ends in the '<' of a "< ". */
  lemma SliceKeepsPlainText(t: string, a: nat, c: string)
    requires IsPlainText(t) && a + |c| <= |t| && c == t[a..a + |c|]
    requires c == [] || c[|c| - 1] != '<'
    ensures IsPlainText(c)
  {
    forall i | 0 <= i < |c| && c[i] == '<' ensures i + 1 < |c| && IsSpace(c[i + 1]) {
      assert t[a + i] == '<';
      assert c[i + 1] == t[a + i + 1];
    }
    assert '\0' !in c by {
      forall i | 0 <= i < |c| ensures c[i] != '\0' {
        assert c[i] == t[a + i] && t[a + i] in t;
      }
    }
  }

  /** A '<' followed by a space is text to `strip_tags`. */
  lemma StripTagsKeepsSpacedOpener()
    ensures StripTags("x< ") == "x< "
  {
    assert StripTagsFrom(" ", 0) == " ";
    assert StripTagsFrom("< ", 0) == "< ";
  }

  /** A '<' at the end of the text opens a tag, so `strip_tags` drops it. */
  lemma StripTagsDropsFinalOpener()
    ensures StripTags("x<") == "x"
  {
    assert StripTagsFrom("<", 0) == [];
  }

  /** The exception to idempotence: "x< " cleans to "x<", which cleans to "x". */
  lemma CleanNotIdempotent()
    ensures Clean("x< ") == "x<"
    ensures Clean(Clean("x< ")) == "x"
  {
    StripTagsKeepsSpacedOpener();
    assert TrimLeft("x< ") == "x< ";
    assert TrimRight("x< ") == "x<";
    StripTagsDropsFinalOpener();
    assert TrimLeft("x") == "x";
    assert TrimRight("x") == "x";
  }

  /** No leaf of `v` ends in '<'. */
  predicate NoLeafEndsInOpen(v: Value) {
    match v
    case Scalar(s) => s == [] || s[|s| - 1] != '<'
    case Array(m) => forall k :: k in m ==> NoLeafEndsInOpen(m[k])
  }

  /** Sanitising twice is sanitising once, when no sanitised leaf ends in '<'. */
  lemma {:induction false} SanitizeIdempotent(v: Value)
    requires NoLeafEndsInOpen(Sanitize(v))
    ensures Sanitize(Sanitize(v)) == Sanitize(v)
  {
    match v
    case Scalar(s) =>
      CleanIdempotent(s);
    case Array(m) =>
      var once := SanitizeEntries(m);
      forall k | k in m ensures Sanitize(once[k]) == once[k] {
        assert NoLeafEndsInOpen(Sanitize(m[k]));
        SanitizeIdempotent(m[k]);
      }
      assert SanitizeEntries(once) == once;
  }

  /**
   * `_cleanInputs($data)`: an array is rebuilt key by key from its sanitised
   * entries; a scalar is cleaned.
   */
  method CleanInputs(data: Value) returns (clean: Value)
    ensures clean == Sanitize(data)
    decreases data
  {
    match data
    case Array(m) =>
      var pending := m.Keys;
      var acc: map<string, Value> := map[];
      while pending != {}
        invariant pending <= m.Keys
        invariant acc.Keys == m.Keys - pending
        invariant forall k :: k in acc ==> acc[k] == Sanitize(m[k])
        decreases pending
      {
        var k :| k in pending;
        var entry := CleanInputs(m[k]);
        acc := acc[k := entry];
        pending := pending - {k};
      }
      clean := Array(acc);
    case Scalar(s) =>
      clean := Scalar(Clean(s));
  }
}
