/** Rust strings as sequences of scalar values: UTF-8 bytes, trimming and ASCII case. */
module Text {
  import opened Common

  //
  // UTF-8, section 3 of RFC 3629.
  //

  function Utf8Char(c: char): (b: bytes)
    ensures 1 <= |b| <= 4
  {
    var n := c as int;
    if n < 0x80 then [n]
    else if n < 0x800 then [0xC0 + n / 64, 0x80 + n % 64]
    else if n < 0x1_0000 then [0xE0 + n / 4096, 0x80 + n / 64 % 64, 0x80 + n % 64]
    else [0xF0 + n / 262144, 0x80 + n / 4096 % 64, 0x80 + n / 64 % 64, 0x80 + n % 64]
  }

  /** `as_bytes`. */
  function Utf8(s: string): bytes {
    if s == "" then [] else Utf8Char(s[0]) + Utf8(s[1..])
  }

  /** `str::len`, which counts bytes. */
  function ByteLen(s: string): nat { |Utf8(s)| }

  /** The first byte of a character announces its length. */
  lemma LengthFromLeadByte(c: char)
    ensures var n := Utf8Char(c)[0];
            |Utf8Char(c)| == if n < 0x80 then 1 else if n < 0xE0 then 2 else if n < 0xF0 then 3 else 4
  {
  }

  /** Reads one encoded character. */
  function CodePoint(b: seq<int>): int
    requires 1 <= |b| <= 4
  {
    if |b| == 1 then b[0]
    else if |b| == 2 then (b[0] - 0xC0) * 64 + (b[1] - 0x80)
    else if |b| == 3 then (b[0] - 0xE0) * 4096 + (b[1] - 0x80) * 64 + (b[2] - 0x80)
    else (b[0] - 0xF0) * 262144 + (b[1] - 0x80) * 4096 + (b[2] - 0x80) * 64 + (b[3] - 0x80)
  }

  lemma SixBitDigits(n: nat)
    ensures n == n / 64 * 64 + n % 64
    ensures n / 64 == n / 4096 * 64 + n / 64 % 64
    ensures n / 4096 == n / 262144 * 64 + n / 4096 % 64
  {
    assert n / 4096 == n / 64 / 64;
    assert n / 262144 == n / 4096 / 64;
  }

  lemma CodePointOfUtf8(c: char)
    ensures CodePoint(Utf8Char(c)) == c as int
  {
    SixBitDigits(c as int);
  }

  /** Two strings with the same bytes are the same string. */
  lemma {:induction false} Utf8Injective(s: string, t: string)
    requires Utf8(s) == Utf8(t)
    ensures s == t
  {
    hide Utf8Char, CodePoint;
    if s == "" || t == "" {
    } else {
      LengthFromLeadByte(s[0]);
      LengthFromLeadByte(t[0]);
      var b := Utf8(s);
      assert b[0] == Utf8Char(s[0])[0] && b[0] == Utf8Char(t[0])[0];
      var k := |Utf8Char(s[0])|;
      assert b[..k] == Utf8Char(s[0]) && b[..k] == Utf8Char(t[0]);
      assert b[k..] == Utf8(s[1..]) && b[k..] == Utf8(t[1..]);
      CodePointOfUtf8(s[0]);
      CodePointOfUtf8(t[0]);
      Utf8Injective(s[1..], t[1..]);
      assert s == [s[0]] + s[1..] && t == [t[0]] + t[1..];
    }
  }

  predicate IsAscii(s: string) { forall i :: 0 <= i < |s| ==> s[i] as int < 0x80 }

  lemma {:induction false} ByteLenOfAscii(s: string)
    requires IsAscii(s)
    ensures ByteLen(s) == |s|
  {
    if s != "" { ByteLenOfAscii(s[1..]); }
  }

  /** The bytes of a byte-string literal, one per character. */
  function ByteString(s: string): (b: bytes)
    ensures |b| == |s| && forall i :: 0 <= i < |s| && s[i] as int < 256 ==> b[i] == s[i] as int
  {
    seq(|s|, i requires 0 <= i < |s| => if s[i] as int < 256 then s[i] as int else 0)
  }

  //
  // Trimming.
  //

  /** `char::is_whitespace`: the White_Space property. */
  predicate IsWhitespace(c: char) {
    var n := c as int;
    || 0x09 <= n <= 0x0D || n == 0x20 || n == 0x85 || n == 0xA0 || n == 0x1680 || 0x2000 <= n <= 0x200A
    || n == 0x2028 || n == 0x2029 || n == 0x202F || n == 0x205F || n == 0x3000
  }

  /** The twenty-five code points, one by one. */
  lemma WhitespaceByCodePoint(c: char)
    ensures IsWhitespace(c) <==>
              c as int in [0x09, 0x0A, 0x0B, 0x0C, 0x0D, 0x20, 0x85, 0xA0, 0x1680, 0x2000, 0x2001, 0x2002, 0x2003, 0x2004,
                           0x2005, 0x2006, 0x2007, 0x2008, 0x2009, 0x200A, 0x2028, 0x2029, 0x202F, 0x205F, 0x3000]
  {
  }

  predicate IsBlank(s: string) { forall i :: 0 <= i < |s| ==> IsWhitespace(s[i]) }

  function TrimStart(s: string): string {
    if s != "" && IsWhitespace(s[0]) then TrimStart(s[1..]) else s
  }

  function TrimEnd(s: string): string {
    if s != "" && IsWhitespace(s[|s| - 1]) then TrimEnd(s[..|s| - 1]) else s
  }

  /** `str::trim`. */
  function Trim(s: string): string { TrimEnd(TrimStart(s)) }

  /** Text with no whitespace at either end. */
  predicate IsTrimmed(s: string) {
    s == "" || (!IsWhitespace(s[0]) && !IsWhitespace(s[|s| - 1]))
  }

  lemma {:induction false} TrimStartSplits(s: string) returns (left: string)
    ensures IsBlank(left) && s == left + TrimStart(s)
    ensures TrimStart(s) == "" || !IsWhitespace(TrimStart(s)[0])
  {
    if s != "" && IsWhitespace(s[0]) {
      var rest := TrimStartSplits(s[1..]);
      left := [s[0]] + rest;
    } else {
      left := "";
    }
  }

  lemma {:induction false} TrimEndSplits(s: string) returns (right: string)
    ensures IsBlank(right) && s == TrimEnd(s) + right
    ensures TrimEnd(s) == "" || !IsWhitespace(TrimEnd(s)[|TrimEnd(s)| - 1])
  {
    if s != "" && IsWhitespace(s[|s| - 1]) {
      var rest := TrimEndSplits(s[..|s| - 1]);
      right := rest + [s[|s| - 1]];
    } else {
      right := "";
    }
  }

  /** Trimming removes exactly the blank ends. */
  lemma TrimSplits(s: string) returns (left: string, right: string)
    ensures IsBlank(left) && IsBlank(right) && s == left + Trim(s) + right && IsTrimmed(Trim(s))
  {
    left := TrimStartSplits(s);
    right := TrimEndSplits(TrimStart(s));
    assert Trim(s) != "" ==> Trim(s)[0] == TrimStart(s)[0];
  }

  lemma TrimOfTrimmed(s: string)
    ensures IsTrimmed(Trim(s))
    ensures Trim(s) == s <==> IsTrimmed(s)
    ensures Trim(s) == "" <==> IsBlank(s)
  {
    var left, right := TrimSplits(s);
    assert Trim(s) != "" ==> Trim(s)[0] == s[|left|];
  }

  /** `value.contains(['\r', '\n'])`. */
  predicate HasLineBreak(s: string) { '\r' in s || '\n' in s }

  /** Text that is not blank and stays on one line. */
  predicate IsContextValue(value: string) { !IsBlank(value) && !HasLineBreak(value) }

  //
  // ASCII case.
  //

  function LowerChar(c: char): char {
    if 'A' <= c <= 'Z' then ((c as int) + 32) as char else c
  }

  /** `to_ascii_lowercase`. */
  function Lower(s: string): (t: string)
    ensures |t| == |s|
    ensures forall i :: 0 <= i < |s| ==> t[i] == LowerChar(s[i])
  {
    seq(|s|, i requires 0 <= i < |s| => LowerChar(s[i]))
  }

  /** `eq_ignore_ascii_case`. */
  predicate SameIgnoringCase(s: string, t: string) { Lower(s) == Lower(t) }

  /** The same character, or one ASCII letter in its two cases. */
  predicate SameLetter(c: char, d: char) {
    || c == d
    || ('A' <= c <= 'Z' && d as int == c as int + 32)
    || ('A' <= d <= 'Z' && c as int == d as int + 32)
  }

  /** Two texts that differ at most in the case of ASCII letters. */
  predicate DifferOnlyInCase(s: string, t: string) {
    |s| == |t| && forall i :: 0 <= i < |s| ==> SameLetter(s[i], t[i])
  }

  lemma LowerCharMeans(c: char, d: char)
    ensures LowerChar(c) == LowerChar(d) <==> SameLetter(c, d)
  {
  }

  /** Comparing ignoring ASCII case is exactly comparing up to the case of ASCII letters. */
  lemma SameIgnoringCaseMeans(s: string, t: string)
    ensures SameIgnoringCase(s, t) <==> DifferOnlyInCase(s, t)
  {
    hide LowerChar, SameLetter;
    forall i | 0 <= i < |s| && |s| == |t| ensures LowerChar(s[i]) == LowerChar(t[i]) <==> SameLetter(s[i], t[i]) {
      LowerCharMeans(s[i], t[i]);
    }
    if SameIgnoringCase(s, t) {
      assert forall i :: 0 <= i < |s| ==> Lower(s)[i] == Lower(t)[i];
    }
  }
}
