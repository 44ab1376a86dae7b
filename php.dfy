/**
 * The handful of PHP library functions API.php relies on, written out with the
 * behaviour that matters to the model: `rtrim($s, '/')`, `explode('/', $s)`
 * (with `implode` as its inverse), `trim`, `strip_tags`, `is_numeric`, the
 * truthiness of a string, and the decimal rendering of an integer.
 * PHP strings are byte strings; here each `char` stands for one byte.
 */
module Php {

  // ---------------------------------------------------------------------
  // rtrim($s, '/')

  /** `rtrim(s, '/')`: the longest prefix of `s` that does not end in '/'. */
  function RTrimSlashes(s: string): (r: string)
    ensures |r| <= |s| && r == s[..|r|]
    ensures r == [] || r[|r| - 1] != '/'
    ensures forall i :: |r| <= i < |s| ==> s[i] == '/'
    decreases |s|
  {
    if s == [] || s[|s| - 1] != '/' then s else RTrimSlashes(s[..|s| - 1])
  }

  /** Slashes appended to a path are all removed again by `rtrim`. */
  lemma {:induction false} RTrimSlashesAppended(s: string, extra: string)
    requires forall i :: 0 <= i < |extra| ==> extra[i] == '/'
    ensures RTrimSlashes(s + extra) == RTrimSlashes(s)
    decreases |extra|
  {
    if extra != [] {
      var shorter := extra[..|extra| - 1];
      assert (s + extra)[..|s + extra| - 1] == s + shorter;
      RTrimSlashesAppended(s, shorter);
    } else {
      assert s + extra == s;
    }
  }

  // ---------------------------------------------------------------------
  // explode($sep, $s) and implode($sep, $parts)

  /** `implode(sep, parts)`: the parts joined with `sep` between neighbours. */
  function Implode(sep: char, parts: seq<string>): string
    requires |parts| >= 1
  {
    if |parts| == 1 then parts[0] else parts[0] + [sep] + Implode(sep, parts[1..])
  }

  /**
   * `explode(sep, s)`: the pieces of `s` between occurrences of `sep`. There is
   * always at least one piece (`explode('/', '')` is `['']`), no piece holds
   * `sep`, and joining the pieces gives `s` back.
   */
  function Explode(sep: char, s: string): (r: seq<string>)
    ensures |r| >= 1
    ensures forall i :: 0 <= i < |r| ==> sep !in r[i]
    ensures Implode(sep, r) == s
    decreases |s|
  {
    if s == [] then [""]
    else
      var rest := Explode(sep, s[1..]);
      if s[0] == sep then
        assert Implode(sep, [""] + rest) == [sep] + Implode(sep, rest) by {
          assert ([""] + rest)[1..] == rest;
        }
        [""] + rest
      else
        var r := [[s[0]] + rest[0]] + rest[1..];
        assert Implode(sep, r) == [s[0]] + Implode(sep, rest) by {
          if |rest| > 1 {
            assert r[1..] == rest[1..];
          }
        }
        r
  }

  /** A piece free of `sep` explodes to itself. */
  lemma {:induction false} ExplodeSingle(sep: char, a: string)
    requires sep !in a
    ensures Explode(sep, a) == [a]
    decreases |a|
  {
    if a != [] {
      ExplodeSingle(sep, a[1..]);
      assert [a[0]] + a[1..] == a;
    }
  }

  /** A leading piece free of `sep`, then `sep`: the piece comes off first. */
  lemma {:induction false} ExplodeCons(sep: char, a: string, b: string)
    requires sep !in a
    ensures Explode(sep, a + [sep] + b) == [a] + Explode(sep, b)
    decreases |a|
  {
    if a == [] {
      assert a + [sep] + b == [sep] + b;
      assert ([sep] + b)[1..] == b;
    } else {
      var s := a + [sep] + b;
      assert s[0] == a[0];
      assert s[1..] == a[1..] + [sep] + b;
      ExplodeCons(sep, a[1..], b);
      assert [a[0]] + a[1..] == a;
    }
  }

  /** `explode` undoes `implode` when no part holds the separator. */
  lemma {:induction false} ExplodeImplode(sep: char, parts: seq<string>)
    requires |parts| >= 1
    requires forall i :: 0 <= i < |parts| ==> sep !in parts[i]
    ensures Explode(sep, Implode(sep, parts)) == parts
    decreases |parts|
  {
    if |parts| == 1 {
      ExplodeSingle(sep, parts[0]);
    } else {
      ExplodeImplode(sep, parts[1..]);
      ExplodeCons(sep, parts[0], Implode(sep, parts[1..]));
      assert [parts[0]] + parts[1..] == parts;
    }
  }

  // ---------------------------------------------------------------------
  // trim($s)

  /** The characters `trim` removes by default: " \t\n\r\0\x0B". */
  predicate IsTrimChar(c: char) {
    c == ' ' || c == '\t' || c == '\n' || c == '\r' || c == '\0' || c == '\U{000B}'
  }

  /** `ltrim(s)`: the longest suffix of `s` that does not start with a trim character. */
  function TrimLeft(s: string): (r: string)
    ensures |r| <= |s| && r == s[|s| - |r|..]
    ensures r == [] || !IsTrimChar(r[0])
    ensures forall i :: 0 <= i < |s| - |r| ==> IsTrimChar(s[i])
    decreases |s|
  {
    if s == [] || !IsTrimChar(s[0]) then s else TrimLeft(s[1..])
  }

  /** `rtrim(s)`: the longest prefix of `s` that does not end with a trim character. */
  function TrimRight(s: string): (r: string)
    ensures |r| <= |s| && r == s[..|r|]
    ensures r == [] || !IsTrimChar(r[|r| - 1])
    ensures forall i :: |r| <= i < |s| ==> IsTrimChar(s[i])
    decreases |s|
  {
    if s == [] || !IsTrimChar(s[|s| - 1]) then s else TrimRight(s[..|s| - 1])
  }

  /**
   * `trim(s)`: `s` without its leading and trailing trim characters. The result
   * is a contiguous slice of `s`, everything cut off on either side is a trim
   * character, and neither end of the result is one.
   */
  function Trim(s: string): (r: string)
    ensures r == [] || (!IsTrimChar(r[0]) && !IsTrimChar(r[|r| - 1]))
    ensures |r| <= |s|
  {
    var l := TrimLeft(s);
    var r := TrimRight(l);
    assert r == [] || r[0] == l[0];
    r
  }

  /**
   * What `trim` keeps is a contiguous slice of its input, starting after the
   * leading trim characters; everything cut off on either side is a trim character.
   */
  lemma TrimIsSlice(s: string) returns (a: nat)
    ensures a + |Trim(s)| <= |s| && Trim(s) == s[a..a + |Trim(s)|]
    ensures forall i :: 0 <= i < a || a + |Trim(s)| <= i < |s| ==> IsTrimChar(s[i])
  {
    var l := TrimLeft(s);
    a := |s| - |l|;
    var r := TrimRight(l);
    assert Trim(s) == r;
    assert l == s[a..];
    assert r == l[..|r|];
  }

  /** A string with no trim character at either end is its own trim. */
  lemma TrimOfTrimmed(s: string)
    requires s == [] || (!IsTrimChar(s[0]) && !IsTrimChar(s[|s| - 1]))
    ensures Trim(s) == s
  {
  }

  // ---------------------------------------------------------------------
  // strip_tags($s)

  /** C's `isspace`, which `strip_tags` consults: " \t\n\v\f\r". */
  predicate IsSpace(c: char) {
    c == ' ' || c == '\t' || c == '\n' || c == '\U{000B}' || c == '\U{000C}' || c == '\r'
  }

  /**
   * The core of `strip_tags` at nesting `level` (0: in text; k+1: inside a tag
   * with k further unclosed '<'). A '<' followed by a space character is
   * ordinary text; any other '<' (including one at the very end, which PHP
   * sees followed by the terminating NUL) opens a tag or nests one level
   * deeper. A '>' closes one level, and is ordinary text at level 0. A NUL
   * byte is dropped wherever it stands. Only characters seen at level 0 are
   * kept.
   */
  function StripTagsFrom(s: string, level: nat): (r: string)
    ensures |r| <= |s|
    decreases |s|
  {
    if s == [] then []
    else
      var c, rest := s[0], s[1..];
      if c == '<' && !(rest != [] && IsSpace(rest[0])) then
        StripTagsFrom(rest, level + 1)
      else if c == '>' && level > 0 then
        StripTagsFrom(rest, level - 1)
      else if c == '\0' then
        StripTagsFrom(rest, level)
      else
        (if level == 0 then [c] else []) + StripTagsFrom(rest, level)
  }

  /** `strip_tags(s)`. */
  function StripTags(s: string): (r: string)
    ensures |r| <= |s|
    ensures IsPlainText(r)
  {
    StripTagsLeavesPlainText(s, 0);
    StripTagsFrom(s, 0)
  }

  /** Every '<' in `t` is directly followed by a space character, so none opens a tag. */
  predicate NoTagOpener(t: string) {
    forall i :: 0 <= i < |t| && t[i] == '<' ==> i + 1 < |t| && IsSpace(t[i + 1])
  }

  /** `t` is plain text to `strip_tags`: it holds no NUL byte and no '<' that opens a tag. */
  predicate IsPlainText(t: string) {
    '\0' !in t && NoTagOpener(t)
  }

  /** The output of `strip_tags` is plain text. */
  lemma {:induction false} StripTagsLeavesPlainText(s: string, level: nat)
    ensures IsPlainText(StripTagsFrom(s, level))
    decreases |s|
  {
    if s != [] {
      var c, rest := s[0], s[1..];
      if c == '<' && !(rest != [] && IsSpace(rest[0])) {
        StripTagsLeavesPlainText(rest, level + 1);
      } else if c == '>' && level > 0 {
        StripTagsLeavesPlainText(rest, level - 1);
      } else if c == '\0' {
        StripTagsLeavesPlainText(rest, level);
      } else {
        StripTagsLeavesPlainText(rest, level);
        var tail := StripTagsFrom(rest, level);
        if level == 0 && c == '<' {
          // the space after this '<' is ordinary text and is kept next
          assert tail == [rest[0]] + StripTagsFrom(rest[1..], 0);
          assert ([c] + tail)[1] == rest[0];
        }
      }
    }
  }

  /** Plain text passes through `strip_tags` unchanged. */
  lemma {:induction false} StripTagsOfPlainText(t: string)
    requires IsPlainText(t)
    ensures StripTags(t) == t
    decreases |t|
  {
    if t != [] {
      assert NoTagOpener(t[1..]) by {
        forall i | 0 <= i < |t[1..]| && t[1..][i] == '<'
          ensures i + 1 < |t[1..]| && IsSpace(t[1..][i + 1])
        {
          assert t[i + 1] == '<';
        }
      }
      assert t[0] in t;
      StripTagsOfPlainText(t[1..]);
      assert [t[0]] + t[1..] == t;
    }
  }

  /** `strip_tags` drops a NUL byte even in text: "a\0b" becomes "ab". */
  lemma StripTagsDropsNul()
    ensures StripTags("a\0b") == "ab"
  {
    assert StripTagsFrom("b", 0) == "b";
    assert StripTagsFrom("\0b", 0) == "b";
  }

  // ---------------------------------------------------------------------
  // is_numeric($s)

  predicate IsDigit(c: char) {
    '0' <= c <= '9'
  }

  /** The space characters `is_numeric` accepts around a number: " \t\n\r\v\f". */
  predicate IsNumericSpace(c: char) {
    c == ' ' || c == '\t' || c == '\n' || c == '\r' || c == '\U{000B}' || c == '\U{000C}'
  }

  /** The index just past the run of digits that starts at `i`. */
  function SkipDigits(s: string, i: nat): (j: nat)
    requires i <= |s|
    ensures i <= j <= |s|
    ensures forall k :: i <= k < j ==> IsDigit(s[k])
    ensures j == |s| || !IsDigit(s[j])
    decreases |s| - i
  {
    if i < |s| && IsDigit(s[i]) then SkipDigits(s, i + 1) else i
  }

  /** The index just past the characters from `i` on that satisfy `IsNumericSpace`. */
  function SkipNumericSpace(s: string, i: nat): (j: nat)
    requires i <= |s|
    ensures i <= j <= |s|
    ensures forall k :: i <= k < j ==> IsNumericSpace(s[k])
    ensures j == |s| || !IsNumericSpace(s[j])
    decreases |s| - i
  {
    if i < |s| && IsNumericSpace(s[i]) then SkipNumericSpace(s, i + 1) else i
  }

  /**
   * A decimal number takes up `s[i..]`, up to trailing space: an optional sign,
   * digits with an optional '.' and fraction (at least one digit in all), an
   * optional exponent.
   */
  predicate NumberFrom(s: string, i: nat)
    requires i <= |s|
  {
    var a := if i < |s| && (s[i] == '+' || s[i] == '-') then i + 1 else i;
    var b := SkipDigits(s, a);
    var c := if b < |s| && s[b] == '.' then SkipDigits(s, b + 1) else b;
    var digits := (b - a) + (if c > b then c - b - 1 else 0);
    digits > 0 &&
    var end := SkipNumericSpace(s, c);
    end == |s| || ExponentThenSpace(s, c)
  }

  /** An exponent starts at `k` and only space follows it. */
  predicate ExponentThenSpace(s: string, k: nat)
    requires k <= |s|
  {
    k < |s| && (s[k] == 'e' || s[k] == 'E') &&
    var m := if k + 1 < |s| && (s[k + 1] == '+' || s[k + 1] == '-') then k + 2 else k + 1;
    m <= |s| &&
    var n := SkipDigits(s, m);
    n > m && SkipNumericSpace(s, n) == |s|
  }

  /**
   * `is_numeric(s)` (PHP 8): optional leading space, a decimal number, optional
   * trailing space. A numeric string is never empty.
   */
  predicate IsNumeric(s: string)
    ensures IsNumeric(s) ==> s != []
  {
    NumberFrom(s, SkipNumericSpace(s, 0))
  }

  /** Space around a number is allowed. */
  lemma NumericWithSpace()
    ensures IsNumeric(" 42 ")
  {
    var s := " 42 ";
    assert SkipNumericSpace(s, 0) == 1;
    assert SkipDigits(s, 1) == 3;
    assert SkipNumericSpace(s, 3) == 4;
  }

  /** A sign and a fraction are allowed. */
  lemma NumericSignedFraction()
    ensures IsNumeric("-1.5")
  {
    var s := "-1.5";
    assert SkipNumericSpace(s, 0) == 0;
    assert SkipDigits(s, 1) == 2;
    assert SkipDigits(s, 3) == 4;
  }

  /** Digits on one side of the point suffice: ".5" and "1." are both numbers. */
  lemma NumericBarePoint()
    ensures IsNumeric(".5")
    ensures IsNumeric("1.")
  {
    assert SkipNumericSpace(".5", 0) == 0;
    assert SkipDigits(".5", 0) == 0;
    assert SkipDigits(".5", 1) == 2;
    assert SkipNumericSpace("1.", 0) == 0;
    assert SkipDigits("1.", 0) == 1;
    assert SkipDigits("1.", 2) == 2;
  }

  /** An exponent with a sign is allowed. */
  lemma NumericExponent()
    ensures IsNumeric("2e-3")
  {
    var s := "2e-3";
    assert SkipNumericSpace(s, 0) == 0;
    assert SkipDigits(s, 0) == 1;
    assert SkipNumericSpace(s, 1) == 1;
    assert SkipDigits(s, 3) == 4;
    assert SkipNumericSpace(s, 4) == 4;
  }

  /** A point alone has no digit, and letters are no number. */
  lemma NotNumericWithoutDigits()
    ensures !IsNumeric(".")
    ensures !IsNumeric("abc")
  {
    assert SkipNumericSpace(".", 0) == 0;
    assert SkipDigits(".", 0) == 0;
    assert SkipDigits(".", 1) == 1;
    assert SkipNumericSpace("abc", 0) == 0;
    assert SkipDigits("abc", 0) == 0;
  }

  /** An exponent needs digits. */
  lemma NotNumericDanglingExponent()
    ensures !IsNumeric("1e")
  {
    var s := "1e";
    assert SkipNumericSpace(s, 0) == 0;
    assert SkipDigits(s, 0) == 1;
    assert SkipNumericSpace(s, 1) == 1;
    assert SkipDigits(s, 2) == 2;
  }

  /** Hexadecimal is not numeric in PHP 7 and later. */
  lemma NotNumericHex()
    ensures !IsNumeric("0x1A")
  {
    var s := "0x1A";
    assert SkipNumericSpace(s, 0) == 0;
    assert SkipDigits(s, 0) == 1;
    assert SkipNumericSpace(s, 1) == 1;
  }

  /** Space inside a number ends it: "1 2" is two numbers, not one. */
  lemma NotNumericTwoNumbers()
    ensures !IsNumeric("1 2")
  {
    var s := "1 2";
    assert SkipNumericSpace(s, 0) == 0;
    assert SkipDigits(s, 0) == 1;
    assert SkipNumericSpace(s, 1) == 2;
  }

  /** A non-empty run of decimal digits is numeric. */
  lemma DigitsAreNumeric(s: string)
    requires s != []
    requires forall i :: 0 <= i < |s| ==> IsDigit(s[i])
    ensures IsNumeric(s)
  {
    assert SkipNumericSpace(s, 0) == 0;
    DigitRunToEnd(s, 0);
  }

  lemma {:induction false} DigitRunToEnd(s: string, i: nat)
    requires i <= |s|
    requires forall k :: i <= k < |s| ==> IsDigit(s[k])
    ensures SkipDigits(s, i) == |s|
    decreases |s| - i
  {
    if i < |s| {
      DigitRunToEnd(s, i + 1);
    }
  }

  // ---------------------------------------------------------------------
  // truthiness and integer rendering

  /** A PHP string is falsy exactly when it is "" or "0". */
  predicate Truthy(s: string)
    ensures Truthy(s) ==> s != []
    ensures |s| >= 2 ==> Truthy(s)
  {
    s != "" && s != "0"
  }

  function DigitChar(d: nat): char
    requires d < 10
  {
    ('0' as int + d) as char
  }

  /** The decimal digits of `n`, most significant first, no leading zero. */
  function NatToDecimal(n: nat): (r: string)
    ensures r != []
    ensures forall i :: 0 <= i < |r| ==> IsDigit(r[i])
    ensures |r| > 1 ==> r[0] != '0'
  {
    if n < 10 then [DigitChar(n)] else NatToDecimal(n / 10) + [DigitChar(n % 10)]
  }

  /** The value of a string of decimal digits. */
  function DecimalValue(s: string): nat
    requires forall i :: 0 <= i < |s| ==> IsDigit(s[i])
  {
    if s == [] then 0
    else
      var last := s[|s| - 1];
      assert IsDigit(last);
      10 * DecimalValue(s[..|s| - 1]) + (last as int - '0' as int)
  }

  /** Reading back the decimal rendering gives the number. */
  lemma {:induction false} DecimalRoundTrip(n: nat)
    ensures DecimalValue(NatToDecimal(n)) == n
  {
    if n >= 10 {
      DecimalRoundTrip(n / 10);
      var r := NatToDecimal(n);
      assert r[..|r| - 1] == NatToDecimal(n / 10);
    }
  }

  /** PHP's string form of an integer: a '-' for negatives, then the digits. */
  function IntToString(n: int): (r: string)
    ensures r != []
    ensures n >= 0 ==> (forall i :: 0 <= i < |r| ==> IsDigit(r[i])) && DecimalValue(r) == n
    ensures n >= 0 && |r| > 1 ==> r[0] != '0'
    ensures n < 0 ==> r[0] == '-' && (forall i :: 1 <= i < |r| ==> IsDigit(r[i])) && DecimalValue(r[1..]) == -n
    ensures n < 0 ==> |r| > 1 && (|r| > 2 ==> r[1] != '0')
  {
    DecimalRoundTrip(if n < 0 then -n else n);
    if n < 0 then
      var d := NatToDecimal(-n);
      assert ("-" + d)[1..] == d;
      "-" + d
    else NatToDecimal(n)
  }
}
