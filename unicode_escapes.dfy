/**
 * The post-pass of `_response` (API.php:127-129): after `json_encode`, every
 * backslash-`u`-four-hex-digit escape (section 7 of RFC 8259) is replaced by
 * the UTF-8 encoding (section 3 of RFC 3629) of its 16-bit value, read as
 * UCS-2 big-endian. The text is a PHP byte string: each `char` is one byte.
 */
module UnicodeEscapes {
  import opened Wrappers

  // ---------------------------------------------------------------------
  // hexadecimal digits

  predicate IsHexDigit(c: char) {
    '0' <= c <= '9' || 'a' <= c <= 'f' || 'A' <= c <= 'F'
  }

  function HexDigitValue(c: char): (v: nat)
    requires IsHexDigit(c)
    ensures v < 16
  {
    if '0' <= c <= '9' then c as int - '0' as int
    else if 'a' <= c <= 'f' then c as int - 'a' as int + 10
    else c as int - 'A' as int + 10
  }

  /** The lower-case hex digit `json_encode` writes for `d`. */
  function HexDigit(d: nat): (c: char)
    requires d < 16
    ensures IsHexDigit(c) && HexDigitValue(c) == d
  {
    if d < 10 then ('0' as int + d) as char else ('a' as int + d - 10) as char
  }

  predicate IsHex4(h: string) {
    |h| == 4 && forall i :: 0 <= i < 4 ==> IsHexDigit(h[i])
  }

  /** `pack('H*', h)` read as one UCS-2 big-endian unit: the 16-bit value of four hex digits. */
  function HexValue(h: string): (v: nat)
    requires IsHex4(h)
    ensures v < 0x1_0000
  {
    4096 * HexDigitValue(h[0]) + 256 * HexDigitValue(h[1]) + 16 * HexDigitValue(h[2]) + HexDigitValue(h[3])
  }

  /** The four lower-case hex digits of a 16-bit value, as `json_encode` writes them. */
  function Hex4(v: nat): (h: string)
    requires v < 0x1_0000
    ensures IsHex4(h) && HexValue(h) == v
  {
    var a, b, c, d := v / 4096, v / 256 % 16, v / 16 % 16, v % 16;
    assert v / 256 == 16 * a + b;
    assert v / 16 == 16 * (v / 256) + c;
    assert v == 16 * (v / 16) + d;
    [HexDigit(a), HexDigit(b), HexDigit(c), HexDigit(d)]
  }

  // ---------------------------------------------------------------------
  // UTF-8

  /** `c` is a continuation byte, 10xxxxxx. */
  predicate IsContinuation(c: char) {
    0x80 <= c as int < 0xC0
  }

  /**
   * The UTF-8 bytes of a 16-bit value: one byte below 0x80, two below 0x800,
   * three otherwise.
   */
  function Utf8(v: nat): (b: string)
    requires v < 0x1_0000
    ensures |b| == if v < 0x80 then 1 else if v < 0x800 then 2 else 3
    ensures forall i :: 0 <= i < |b| ==> b[i] as int < 0x100
  {
    if v < 0x80 then [v as char]
    else if v < 0x800 then [(0xC0 + v / 64) as char, (0x80 + v % 64) as char]
    else [(0xE0 + v / 4096) as char, (0x80 + v / 64 % 64) as char, (0x80 + v % 64) as char]
  }

  /** The value of one complete, shortest-form UTF-8 sequence of at most three bytes. */
  function Utf8Decode(b: string): Option<nat> {
    if |b| == 1 && b[0] as int < 0x80 then Some(b[0] as int)
    else if |b| == 2 && 0xC0 <= b[0] as int < 0xE0 && IsContinuation(b[1]) then
      var v := (b[0] as int - 0xC0) * 64 + (b[1] as int - 0x80);
      if v >= 0x80 then Some(v) else None
    else if |b| == 3 && 0xE0 <= b[0] as int < 0xF0 && IsContinuation(b[1]) && IsContinuation(b[2]) then
      var v := (b[0] as int - 0xE0) * 4096 + (b[1] as int - 0x80) * 64 + (b[2] as int - 0x80);
      if v >= 0x800 then Some(v) else None
    else None
  }

  /** Decoding the UTF-8 bytes of a value gives the value back. */
  lemma Utf8RoundTrip(v: nat)
    requires v < 0x1_0000
    ensures Utf8Decode(Utf8(v)) == Some(v)
  {
    var b := Utf8(v);
    if v < 0x80 {
    } else if v < 0x800 {
      assert b[0] as int == 0xC0 + v / 64 && b[1] as int == 0x80 + v % 64;
    } else {
      assert b[0] as int == 0xE0 + v / 4096;
      assert b[1] as int == 0x80 + v / 64 % 64;
      assert b[2] as int == 0x80 + v % 64;
      assert (v / 4096) * 4096 + (v / 64 % 64) * 64 + v % 64 == v;
    }
  }

  // ---------------------------------------------------------------------
  // the post-pass

  /** `s` starts with backslash, `u` and four hex digits. */
  predicate StartsWithEscape(s: string) {
    |s| >= 6 && s[0] == '\\' && s[1] == 'u' && IsHex4(s[2..6])
  }

  /** The bytes one escape at the start of `s` stands for. */
  function EscapeImage(s: string): string
    requires StartsWithEscape(s)
  {
    Utf8(HexValue(s[2..6]))
  }

  /**
   * The post-pass AS WRITTEN: `preg_replace_callback` with the pattern
   * backslash-u-hex4, matched left to right without overlap. A backslash that
   * is itself escaped (the second byte of a `\\` pair) still starts a match.
   */
  function RegexUnescape(s: string): (r: string)
    ensures |r| <= |s|
    decreases |s|
  {
    if s == [] then []
    else if StartsWithEscape(s) then EscapeImage(s) + RegexUnescape(s[6..])
    else [s[0]] + RegexUnescape(s[1..])
  }

  /**
   * The post-pass as evidently intended: it reads the JSON text escape by
   * escape, decodes each backslash-u-hex4 escape and copies every other
   * two-byte escape (`\\`, `\"`, `\n`, ...) and every other byte unchanged.
   */
  function JsonUnescape(s: string): (r: string)
    ensures |r| <= |s|
    decreases |s|
  {
    if s == [] then []
    else if StartsWithEscape(s) then EscapeImage(s) + JsonUnescape(s[6..])
    else if s[0] == '\\' && |s| >= 2 then s[..2] + JsonUnescape(s[2..])
    else [s[0]] + JsonUnescape(s[1..])
  }

  /** Text in which no escape starts anywhere. */
  predicate NoEscape(s: string) {
    forall i :: 0 <= i < |s| ==> !StartsWithEscape(s[i..])
  }

  /** Every suffix of text without escapes is without escapes. */
  lemma NoEscapeSuffix(s: string, k: nat)
    requires NoEscape(s) && k <= |s|
    ensures NoEscape(s[k..])
  {
    forall i | 0 <= i < |s[k..]| ensures !StartsWithEscape(s[k..][i..]) {
      assert s[k..][i..] == s[i + k..];
    }
  }

  /** Text that holds no escape comes out of either post-pass unchanged. */
  lemma NoEscapeUnchanged(s: string)
    requires NoEscape(s)
    ensures RegexUnescape(s) == s
    ensures JsonUnescape(s) == s
  {
    NoEscapeRegexUnchanged(s);
    NoEscapeJsonUnchanged(s);
  }

  lemma {:induction false} NoEscapeRegexUnchanged(s: string)
    requires NoEscape(s)
    ensures RegexUnescape(s) == s
    decreases |s|
  {
    if s != [] {
      assert !StartsWithEscape(s[0..]) && s[0..] == s;
      NoEscapeSuffix(s, 1);
      NoEscapeRegexUnchanged(s[1..]);
      assert [s[0]] + s[1..] == s;
    }
  }

  lemma {:induction false} NoEscapeJsonUnchanged(s: string)
    requires NoEscape(s)
    ensures JsonUnescape(s) == s
    decreases |s|
  {
    if s != [] {
      assert !StartsWithEscape(s[0..]) && s[0..] == s;
      if s[0] == '\\' && |s| >= 2 {
        NoEscapeSuffix(s, 2);
        NoEscapeJsonUnchanged(s[2..]);
        assert s[..2] + s[2..] == s;
      } else {
        NoEscapeSuffix(s, 1);
        NoEscapeJsonUnchanged(s[1..]);
        assert [s[0]] + s[1..] == s;
      }
    }
  }

  /** No escaped backslash: no two backslashes stand side by side. */
  predicate NoDoubleBackslash(s: string) {
    forall i :: 0 <= i < |s| - 1 && s[i] == '\\' ==> s[i + 1] != '\\'
  }

  /** On text without a `\\` pair, the as-written post-pass agrees with the intended one. */
  lemma {:induction false} RegexAgreesWithoutDoubleBackslash(s: string)
    requires NoDoubleBackslash(s)
    ensures RegexUnescape(s) == JsonUnescape(s)
    decreases |s|
  {
    if s != [] {
      if StartsWithEscape(s) {
        assert NoDoubleBackslash(s[6..]) by {
          forall i | 0 <= i < |s[6..]| - 1 && s[6..][i] == '\\' ensures s[6..][i + 1] != '\\' {
            assert s[i + 6] == '\\';
          }
        }
        RegexAgreesWithoutDoubleBackslash(s[6..]);
      } else if s[0] == '\\' && |s| >= 2 {
        assert s[1] != '\\';
        assert NoDoubleBackslash(s[2..]) by {
          forall i | 0 <= i < |s[2..]| - 1 && s[2..][i] == '\\' ensures s[2..][i + 1] != '\\' {
            assert s[i + 2] == '\\';
          }
        }
        RegexAgreesWithoutDoubleBackslash(s[2..]);
        var t := s[1..];
        assert !StartsWithEscape(t);
        assert t[1..] == s[2..];
        assert RegexUnescape(t) == [s[1]] + RegexUnescape(s[2..]);
        assert s[..2] == [s[0]] + [s[1]];
      } else {
        assert NoDoubleBackslash(s[1..]) by {
          forall i | 0 <= i < |s[1..]| - 1 && s[1..][i] == '\\' ensures s[1..][i + 1] != '\\' {
            assert s[i + 1] == '\\';
          }
        }
        RegexAgreesWithoutDoubleBackslash(s[1..]);
      }
    }
  }

  /** The escape at offset `i` of `s` is decoded, and the scan goes on after it. */
  lemma EscapeStep(s: string, i: nat)
    requires i + 6 <= |s| && s[i] == '\\' && s[i + 1] == 'u' && IsHex4(s[i + 2..i + 6])
    ensures JsonUnescape(s[i..]) == Utf8(HexValue(s[i + 2..i + 6])) + JsonUnescape(s[i + 6..])
  {
    var rest := s[i..];
    assert rest[2..6] == s[i + 2..i + 6];
    assert rest[6..] == s[i + 6..];
  }

  /** Any other two-byte escape at offset `i` is copied whole. */
  lemma PairStep(s: string, i: nat)
    requires i + 1 < |s| && s[i] == '\\'
    requires !(i + 6 <= |s| && s[i + 1] == 'u' && IsHex4(s[i + 2..i + 6]))
    ensures JsonUnescape(s[i..]) == s[i..i + 2] + JsonUnescape(s[i + 2..])
  {
    var rest := s[i..];
    assert !StartsWithEscape(rest) by {
      if |rest| >= 6 { assert rest[2..6] == s[i + 2..i + 6]; }
    }
    assert rest[2..] == s[i + 2..] && rest[..2] == s[i..i + 2];
  }

  /** Any other byte at offset `i` is copied. */
  lemma ByteStep(s: string, i: nat)
    requires i < |s| && !(s[i] == '\\' && i + 1 < |s|)
    ensures JsonUnescape(s[i..]) == [s[i]] + JsonUnescape(s[i + 1..])
  {
    var rest := s[i..];
    assert rest[1..] == s[i + 1..];
  }

  /** The as-written post-pass decodes the escape at offset `i` and goes on after it. */
  lemma RegexEscapeStep(s: string, i: nat)
    requires i + 6 <= |s| && s[i] == '\\' && s[i + 1] == 'u' && IsHex4(s[i + 2..i + 6])
    ensures RegexUnescape(s[i..]) == Utf8(HexValue(s[i + 2..i + 6])) + RegexUnescape(s[i + 6..])
  {
    var rest := s[i..];
    assert rest[2..6] == s[i + 2..i + 6];
    assert rest[6..] == s[i + 6..];
  }

  /** Where no escape starts, the as-written post-pass copies one byte, a backslash included. */
  lemma RegexByteStep(s: string, i: nat)
    requires i < |s| && !(i + 6 <= |s| && s[i] == '\\' && s[i + 1] == 'u' && IsHex4(s[i + 2..i + 6]))
    ensures RegexUnescape(s[i..]) == [s[i]] + RegexUnescape(s[i + 1..])
  {
    var rest := s[i..];
    assert !StartsWithEscape(rest) by {
      if |rest| >= 6 { assert rest[2..6] == s[i + 2..i + 6]; }
    }
    assert rest[1..] == s[i + 1..];
  }

  /**
   * The post-pass of `_response` as the code performs it: `preg_replace_callback`
   * scans the encoded text left to right, replaces each match of
   * backslash-u-hex4 by its UTF-8 bytes and copies every other byte, so a
   * backslash that ends an escaped `\\` pair can still start a match.
   */
  method ReplaceUnicodeEscapes(s: string) returns (r: string)
    ensures r == RegexUnescape(s)
  {
    r := [];
    var i := 0;
    while i < |s|
      invariant 0 <= i <= |s|
      invariant r + RegexUnescape(s[i..]) == RegexUnescape(s)
      decreases |s| - i
    {
      var piece: string, width: nat;
      if i + 6 <= |s| && s[i] == '\\' && s[i + 1] == 'u' && IsHex4(s[i + 2..i + 6]) {
        RegexEscapeStep(s, i);
        piece, width := Utf8(HexValue(s[i + 2..i + 6])), 6;
      } else {
        RegexByteStep(s, i);
        piece, width := [s[i]], 1;
      }
      ghost var tail := RegexUnescape(s[i + width..]);
      assert RegexUnescape(s[i..]) == piece + tail;
      ConcatAssoc(r, piece, tail);
      r := r + piece;
      i := i + width;
    }
    assert s[i..] == [];
  }

  /**
   * The corrected post-pass as a left-to-right scan: it reads the encoded text
   * escape by escape, so the second backslash of a `\\` pair is copied and
   * never starts a match.
   */
  method DecodeUnicodeEscapes(s: string) returns (r: string)
    ensures r == JsonUnescape(s)
  {
    r := [];
    var i := 0;
    while i < |s|
      invariant 0 <= i <= |s|
      invariant r + JsonUnescape(s[i..]) == JsonUnescape(s)
      decreases |s| - i
    {
      var piece: string, width: nat;
      if i + 6 <= |s| && s[i] == '\\' && s[i + 1] == 'u' && IsHex4(s[i + 2..i + 6]) {
        EscapeStep(s, i);
        piece, width := Utf8(HexValue(s[i + 2..i + 6])), 6;
      } else if s[i] == '\\' && i + 1 < |s| {
        PairStep(s, i);
        piece, width := s[i..i + 2], 2;
      } else {
        ByteStep(s, i);
        piece, width := [s[i]], 1;
      }
      ghost var tail := JsonUnescape(s[i + width..]);
      assert JsonUnescape(s[i..]) == piece + tail;
      ConcatAssoc(r, piece, tail);
      r := r + piece;
      i := i + width;
    }
    assert s[i..] == [];
  }

  // ---------------------------------------------------------------------
  // what the post-pass is for: undoing json_encode's escaping of non-ASCII text

  /**
   * The characters of a PHP string the property speaks of: 16-bit code points
   * from U+0020 up, surrogates excluded.
   */
  predicate IsTextChar(c: nat) {
    0x20 <= c < 0x1_0000 && !(0xD800 <= c < 0xE000)
  }

  /**
   * How `json_encode` with JSON_UNESCAPED_SLASHES writes one such character
   * inside a string: quote and backslash escaped, other ASCII as itself,
   * anything else as a backslash-u escape with lower-case hex.
   */
  function EncodeChar(c: nat): string
    requires IsTextChar(c)
  {
    if c == 0x22 then "\\\""
    else if c == 0x5C then "\\\\"
    else if c < 0x80 then [c as char]
    else "\\u" + Hex4(c)
  }

  /** How the same character reads with non-ASCII text left as UTF-8 bytes. */
  function LiteralChar(c: nat): string
    requires IsTextChar(c)
  {
    if c == 0x22 then "\\\""
    else if c == 0x5C then "\\\\"
    else if c < 0x80 then [c as char]
    else Utf8(c)
  }

  function EncodeChars(t: seq<nat>): string
    requires forall i :: 0 <= i < |t| ==> IsTextChar(t[i])
  {
    if t == [] then [] else EncodeChar(t[0]) + EncodeChars(t[1..])
  }

  function LiteralChars(t: seq<nat>): string
    requires forall i :: 0 <= i < |t| ==> IsTextChar(t[i])
  {
    if t == [] then [] else LiteralChar(t[0]) + LiteralChars(t[1..])
  }

  /** `json_encode` of the string `t`. */
  function EncodeString(t: seq<nat>): (r: string)
    requires forall i :: 0 <= i < |t| ==> IsTextChar(t[i])
    ensures |r| >= 2 && r[0] == '"' && r[|r| - 1] == '"'
  {
    "\"" + EncodeChars(t) + "\""
  }

  /** `json_encode` writes pure ASCII: every non-ASCII character is escaped. */
  lemma {:induction false} EncodeCharsIsAscii(t: seq<nat>)
    requires forall i :: 0 <= i < |t| ==> IsTextChar(t[i])
    ensures forall i :: 0 <= i < |EncodeChars(t)| ==> EncodeChars(t)[i] as int < 0x80
    decreases |t|
  {
    if t != [] {
      EncodeCharsIsAscii(t[1..]);
      var head, tail := EncodeChar(t[0]), EncodeChars(t[1..]);
      assert forall i :: 0 <= i < |head| ==> head[i] as int < 0x80;
      assert EncodeChars(t) == head + tail;
    }
  }

  /** The JSON string for `t` with its non-ASCII characters written as UTF-8. */
  function LiteralString(t: seq<nat>): string
    requires forall i :: 0 <= i < |t| ==> IsTextChar(t[i])
  {
    "\"" + LiteralChars(t) + "\""
  }

  /** The intended post-pass turns one encoded character into its literal form. */
  lemma UnescapeOneChar(c: nat, rest: string, s: string)
    requires IsTextChar(c) && s == EncodeChar(c) + rest
    ensures JsonUnescape(s) == LiteralChar(c) + JsonUnescape(rest)
  {
    if c == 0x22 || c == 0x5C {
      assert s[..2] == EncodeChar(c) && s[2..] == rest;
      assert !StartsWithEscape(s);
    } else if c < 0x80 {
      assert s[0] == c as char && s[1..] == rest;
    } else {
      assert s[2..6] == Hex4(c) && s[6..] == rest;
      assert StartsWithEscape(s);
    }
  }

  /** Concatenation is associative. */
  lemma ConcatAssoc(a: string, b: string, c: string)
    ensures a + (b + c) == (a + b) + c
  {
  }

  /** Encoding the first character of `t` in front adds that character's literal form in front. */
  lemma UnescapeFirstChar(t: seq<nat>, rest: string)
    requires t != [] && forall i :: 0 <= i < |t| ==> IsTextChar(t[i])
    ensures JsonUnescape(EncodeChars(t) + rest) == LiteralChar(t[0]) + JsonUnescape(EncodeChars(t[1..]) + rest)
  {
    var x, y := EncodeChar(t[0]), EncodeChars(t[1..]);
    assert EncodeChars(t) + rest == x + (y + rest);
    UnescapeOneChar(t[0], y + rest, EncodeChars(t) + rest);
  }

  /** The intended post-pass turns encoded characters into their literal forms, whatever text follows. */
  lemma {:induction false} UnescapeChars(t: seq<nat>, rest: string)
    requires forall i :: 0 <= i < |t| ==> IsTextChar(t[i])
    ensures JsonUnescape(EncodeChars(t) + rest) == LiteralChars(t) + JsonUnescape(rest)
    decreases |t|
  {
    if t == [] {
      assert EncodeChars(t) + rest == rest && LiteralChars(t) == [];
    } else {
      UnescapeChars(t[1..], rest);
      UnescapeFirstChar(t, rest);
      assert LiteralChars(t) == LiteralChar(t[0]) + LiteralChars(t[1..]);
      ConcatAssoc(LiteralChar(t[0]), LiteralChars(t[1..]), JsonUnescape(rest));
    }
  }

  /**
   * The intended post-pass undoes exactly the escaping of non-ASCII text:
   * applied to `json_encode` of any string, it yields the same JSON string with
   * those characters as UTF-8 and every other escape intact.
   */
  lemma IntendedPostPassUndoesUnicodeEscaping(t: seq<nat>)
    requires forall i :: 0 <= i < |t| ==> IsTextChar(t[i])
    ensures JsonUnescape(EncodeString(t)) == LiteralString(t)
  {
    var body := EncodeChars(t) + "\"";
    assert EncodeString(t) == "\"" + body;
    assert ("\"" + body)[1..] == body;
    UnescapeChars(t, "\"");
    assert JsonUnescape("\"") == "\"";
  }

  /** Every backslash in `s` is followed by a byte, and that byte is not a backslash. */
  predicate SingleBackslashes(s: string) {
    forall i :: 0 <= i < |s| && s[i] == '\\' ==> i + 1 < |s| && s[i + 1] != '\\'
  }

  /** Joining two texts with single backslashes gives one with single backslashes. */
  lemma SingleBackslashesConcat(a: string, b: string)
    requires SingleBackslashes(a) && SingleBackslashes(b)
    ensures SingleBackslashes(a + b)
  {
    var s := a + b;
    forall i | 0 <= i < |s| && s[i] == '\\' ensures i + 1 < |s| && s[i + 1] != '\\' {
      if i < |a| {
        assert a[i] == '\\';
        assert s[i + 1] == a[i + 1];
      } else {
        assert b[i - |a|] == '\\';
        assert s[i + 1] == b[i + 1 - |a|];
      }
    }
  }

  /** `json_encode` of any character but the backslash writes no backslash pair and no final backslash. */
  lemma EncodeCharSingleBackslashes(c: nat)
    requires IsTextChar(c) && c != 0x5C
    ensures SingleBackslashes(EncodeChar(c))
  {
    if c != 0x22 && c >= 0x80 {
      var h := Hex4(c);
      var e := EncodeChar(c);
      assert e == "\\u" + h;
      assert forall k :: 2 <= k < |e| ==> e[k] == h[k - 2] && e[k] != '\\';
    }
  }

  lemma {:induction false} EncodeCharsSingleBackslashes(t: seq<nat>)
    requires forall i :: 0 <= i < |t| ==> IsTextChar(t[i]) && t[i] != 0x5C
    ensures SingleBackslashes(EncodeChars(t))
    decreases |t|
  {
    if t != [] {
      EncodeCharsSingleBackslashes(t[1..]);
      EncodeCharSingleBackslashes(t[0]);
      SingleBackslashesConcat(EncodeChar(t[0]), EncodeChars(t[1..]));
    }
  }

  /**
   * For text without a backslash the post-pass as written does what it is
   * for: applied to `json_encode` of the string, it yields the same JSON
   * string with the non-ASCII characters as UTF-8.
   */
  lemma RegexPostPassUndoesEscapingWithoutBackslash(t: seq<nat>)
    requires forall i :: 0 <= i < |t| ==> IsTextChar(t[i]) && t[i] != 0x5C
    ensures RegexUnescape(EncodeString(t)) == LiteralString(t)
  {
    var body := EncodeChars(t);
    EncodeCharsSingleBackslashes(t);
    SingleBackslashesConcat("\"", body);
    SingleBackslashesConcat("\"" + body, "\"");
    assert NoDoubleBackslash(EncodeString(t));
    RegexAgreesWithoutDoubleBackslash(EncodeString(t));
    IntendedPostPassUndoesUnicodeEscaping(t);
  }

  /** A byte other than backslash is copied by the as-written post-pass. */
  lemma RegexCopiesByte(c: char, rest: string)
    requires c != '\\'
    ensures RegexUnescape([c] + rest) == [c] + RegexUnescape(rest)
  {
    assert ([c] + rest)[1..] == rest;
  }

  /** A backslash not followed by `u` is copied by the as-written post-pass. */
  lemma RegexCopiesBackslash(rest: string)
    requires rest != [] && rest[0] != 'u'
    ensures RegexUnescape(['\\'] + rest) == ['\\'] + RegexUnescape(rest)
  {
    assert (['\\'] + rest)[1..] == rest;
  }

  /** A backslash-u-hex4 escape is decoded by the as-written post-pass. */
  lemma RegexDecodesEscape(h: string, rest: string)
    requires IsHex4(h)
    ensures RegexUnescape("\\u" + h + rest) == Utf8(HexValue(h)) + RegexUnescape(rest)
  {
    var s := "\\u" + h + rest;
    assert s[2..6] == h && s[6..] == rest;
  }

  /** Encoding and the literal form both work character by character. */
  lemma EncodeCharsCons(c: nat, t: seq<nat>)
    requires IsTextChar(c) && forall i :: 0 <= i < |t| ==> IsTextChar(t[i])
    ensures EncodeChars([c] + t) == EncodeChar(c) + EncodeChars(t)
    ensures LiteralChars([c] + t) == LiteralChar(c) + LiteralChars(t)
  {
    assert ([c] + t)[1..] == t;
  }

  /** Printable ASCII text without quote and backslash is written as itself, encoded or literal. */
  lemma {:induction false} EncodePlainAscii(t: seq<nat>)
    requires forall i :: 0 <= i < |t| ==> 0x20 <= t[i] < 0x80 && t[i] != 0x22 && t[i] != 0x5C
    ensures forall i :: 0 <= i < |t| ==> IsTextChar(t[i])
    ensures EncodeChars(t) == LiteralChars(t) == seq(|t|, i requires 0 <= i < |t| => t[i] as char)
  {
    if t != [] {
      var tail := t[1..];
      EncodePlainAscii(tail);
      assert t == [t[0]] + tail;
      EncodeCharsCons(t[0], tail);
      var chars := seq(|t|, i requires 0 <= i < |t| => t[i] as char);
      assert chars == [t[0] as char] + seq(|tail|, i requires 0 <= i < |tail| => tail[i] as char);
    }
  }

  /** The PHP string `\u0041`: a backslash, then the five ASCII characters of `u0041`. */
  const BackslashU0041: seq<nat> := [0x5C, 0x75, 0x30, 0x30, 0x34, 0x31]

  /** `json_encode` writes it as "\\u0041", and that text has no Unicode escape to undo. */
  lemma EncodeBackslashU0041()
    ensures forall i :: 0 <= i < |BackslashU0041| ==> IsTextChar(BackslashU0041[i])
    ensures EncodeString(BackslashU0041) == "\"\\\\u0041\""
    ensures LiteralString(BackslashU0041) == EncodeString(BackslashU0041)
  {
    var u: seq<nat> := [0x75, 0x30, 0x30, 0x34, 0x31];
    assert BackslashU0041 == [0x5C] + u;
    EncodePlainAscii(u);
    assert EncodeChars(u) == LiteralChars(u) == "u0041";
    EncodeCharsCons(0x5C, u);
    var body := EncodeChars(BackslashU0041);
    assert body == LiteralChars(BackslashU0041) == "\\\\u0041";
  }

  /** The as-written post-pass decodes the `u0041` behind the escaped backslash. */
  lemma RegexDecodesAfterEscapedBackslash()
    ensures RegexUnescape("\"\\\\u0041\"") == "\"\\A\""
  {
    var enc := "\"\\\\u0041\"";
    RegexCopiesByte('"', []);
    assert HexValue("0041") == 0x41;
    RegexDecodesEscape("0041", "\"");
    assert "\\u" + "0041" + "\"" == enc[2..];
    RegexCopiesBackslash(enc[2..]);
    assert ['\\'] + enc[2..] == enc[1..];
    RegexCopiesByte('"', enc[1..]);
    assert ['"'] + enc[1..] == enc;
  }

  /**
   * So the as-written post-pass breaks the promise the intended one keeps:
   * for the PHP string `\u0041` it turns the JSON text "\\u0041" into "\A",
   * which no longer spells that string (and is not valid JSON).
   */
  lemma RegexPostPassCorruptsEscapedBackslash()
    ensures forall i :: 0 <= i < |BackslashU0041| ==> IsTextChar(BackslashU0041[i])
    ensures RegexUnescape(EncodeString(BackslashU0041)) == "\"\\A\""
    ensures RegexUnescape(EncodeString(BackslashU0041)) != LiteralString(BackslashU0041)
    ensures JsonUnescape(EncodeString(BackslashU0041)) == LiteralString(BackslashU0041)
  {
    EncodeBackslashU0041();
    RegexDecodesAfterEscapedBackslash();
    IntendedPostPassUndoesUnicodeEscaping(BackslashU0041);
    assert |"\"\\A\""| != |LiteralString(BackslashU0041)|;
  }

  /** "é" written as a JSON string with its character as UTF-8: the bytes C3 A9 between quotes. */
  lemma AccentLiteral()
    ensures LiteralString([0xE9]) == "\"\U{C3}\U{A9}\""
  {
    assert [0xE9] == [0xE9] + [];
    EncodeCharsCons(0xE9, []);
    assert Utf8(0xE9) == "\U{C3}\U{A9}";
  }

  /** "é" goes through `json_encode` as "\u00e9" and comes out of the post-pass as written as the bytes C3 A9. */
  lemma AccentExample()
    ensures RegexUnescape(EncodeString([0xE9])) == "\"\U{C3}\U{A9}\""
  {
    RegexPostPassUndoesEscapingWithoutBackslash([0xE9]);
    AccentLiteral();
  }
}
