/**
  * The strict standard Base64 alphabet of section 4 of RFC 4648: mandatory padding, and zero
  * trailing bits as section 3.5 asks. This is what `STANDARD.encode` and `STANDARD.decode` compute.
  */
module Base64 {
  import opened Common

  type sextet = x: int | 0 <= x < 64

  function Symbol(v: sextet): char {
    if v < 26 then 'A' + v as char
    else if v < 52 then 'a' + (v - 26) as char
    else if v < 62 then '0' + (v - 52) as char
    else if v == 62 then '+'
    else '/'
  }

  function Value(c: char): Option<sextet> {
    if 'A' <= c <= 'Z' then Some(c as int - 'A' as int)
    else if 'a' <= c <= 'z' then Some(c as int - 'a' as int + 26)
    else if '0' <= c <= '9' then Some(c as int - '0' as int + 52)
    else if c == '+' then Some(62)
    else if c == '/' then Some(63)
    else None
  }

  lemma ValueOfSymbol(v: sextet)
    ensures Value(Symbol(v)) == Some(v) && Symbol(v) != '='
  {
  }

  lemma SymbolOfValue(c: char)
    ensures Value(c).Some? ==> Symbol(Value(c).value) == c
  {
  }

  function Encode(b: bytes): string {
    if |b| == 0 then ""
    else if |b| == 1 then [Symbol(b[0] / 4), Symbol(b[0] % 4 * 16), '=', '=']
    else if |b| == 2 then [Symbol(b[0] / 4), Symbol(b[0] % 4 * 16 + b[1] / 16), Symbol(b[1] % 16 * 4), '=']
    else [Symbol(b[0] / 4), Symbol(b[0] % 4 * 16 + b[1] / 16), Symbol(b[1] % 16 * 4 + b[2] / 64), Symbol(b[2] % 64)]
         + Encode(b[3..])
  }

  function JoinFirst(u: sextet, v: sextet): byte { u * 4 + v / 16 }
  function JoinSecond(v: sextet, w: sextet): byte { v % 16 * 16 + w / 4 }
  function JoinThird(w: sextet, x: sextet): byte { w % 4 * 64 + x }

  /** The last quantum, `xx==` or `xxx=`, whose unused bits must be zero. */
  function DecodePadded(s: string): Option<bytes>
    requires |s| == 4 && s[3] == '='
  {
    var u, v, w := Value(s[0]), Value(s[1]), Value(s[2]);
    if u.None? || v.None? then None
    else if s[2] == '=' then
      if v.value % 16 == 0 then Some([JoinFirst(u.value, v.value)]) else None
    else if w.Some? && w.value % 4 == 0 then Some([JoinFirst(u.value, v.value), JoinSecond(v.value, w.value)])
    else None
  }

  function Decode(s: string): Option<bytes> {
    if |s| == 0 then Some([])
    else if |s| < 4 then None
    else if |s| == 4 && s[3] == '=' then DecodePadded(s)
    else
      var u, v, w, x := Value(s[0]), Value(s[1]), Value(s[2]), Value(s[3]);
      var rest := Decode(s[4..]);
      if u.None? || v.None? || w.None? || x.None? || rest.None? then None
      else Some([JoinFirst(u.value, v.value), JoinSecond(v.value, w.value), JoinThird(w.value, x.value)] + rest.value)
  }

  lemma JoinUndoesSplit(a: byte, b: byte, c: byte)
    ensures JoinFirst(a / 4, a % 4 * 16 + b / 16) == a
    ensures JoinSecond(a % 4 * 16 + b / 16, b % 16 * 4 + c / 64) == b
    ensures JoinThird(b % 16 * 4 + c / 64, c % 64) == c
  {
  }

  lemma SplitUndoesJoin(u: sextet, v: sextet, w: sextet, x: sextet)
    ensures var a, b, c := JoinFirst(u, v), JoinSecond(v, w), JoinThird(w, x);
            a / 4 == u && a % 4 * 16 + b / 16 == v && b % 16 * 4 + c / 64 == w && c % 64 == x
  {
  }

  lemma UnusedBitsAreZero(x: int)
    ensures x * 16 % 16 == 0 && x * 4 % 4 == 0
  {
  }

  lemma DecodeOneByte(a: byte)
    ensures Decode([Symbol(a / 4), Symbol(a % 4 * 16), '=', '=']) == Some([a])
  {
    hide Symbol, Value, JoinFirst;
    JoinUndoesSplit(a, 0, 0);
    UnusedBitsAreZero(a % 4);
    ValueOfSymbol(a / 4);
    ValueOfSymbol(a % 4 * 16);
  }

  lemma DecodeTwoBytes(a: byte, b: byte)
    ensures Decode([Symbol(a / 4), Symbol(a % 4 * 16 + b / 16), Symbol(b % 16 * 4), '=']) == Some([a, b])
  {
    hide Symbol, Value, JoinFirst, JoinSecond;
    JoinUndoesSplit(a, b, 0);
    UnusedBitsAreZero(b % 16);
    ValueOfSymbol(a / 4);
    ValueOfSymbol(a % 4 * 16 + b / 16);
    ValueOfSymbol(b % 16 * 4);
  }

  lemma DecodeGroup(a: byte, b: byte, c: byte, rest: string)
    requires Decode(rest).Some?
    ensures Decode([Symbol(a / 4), Symbol(a % 4 * 16 + b / 16), Symbol(b % 16 * 4 + c / 64), Symbol(c % 64)] + rest)
            == Some([a, b, c] + Decode(rest).value)
  {
    hide Symbol, Value, JoinFirst, JoinSecond, JoinThird;
    JoinUndoesSplit(a, b, c);
    ValueOfSymbol(a / 4);
    ValueOfSymbol(a % 4 * 16 + b / 16);
    ValueOfSymbol(b % 16 * 4 + c / 64);
    ValueOfSymbol(c % 64);
    var s := [Symbol(a / 4), Symbol(a % 4 * 16 + b / 16), Symbol(b % 16 * 4 + c / 64), Symbol(c % 64)] + rest;
    assert s[4..] == rest;
  }

  /** Decoding undoes encoding. */
  lemma {:induction false} DecodeEncode(b: bytes)
    ensures Decode(Encode(b)) == Some(b)
  {
    hide Symbol, Value, JoinFirst, JoinSecond, JoinThird;
    if |b| == 0 {
    } else if |b| == 1 {
      DecodeOneByte(b[0]);
      assert b == [b[0]];
    } else if |b| == 2 {
      DecodeTwoBytes(b[0], b[1]);
      assert b == [b[0], b[1]];
    } else {
      DecodeEncode(b[3..]);
      DecodeGroup(b[0], b[1], b[2], Encode(b[3..]));
      assert b == [b[0], b[1], b[2]] + b[3..];
    }
  }

  lemma DecodePaddedIsCanonical(s: string)
    requires |s| == 4 && s[3] == '=' && DecodePadded(s).Some?
    ensures Encode(DecodePadded(s).value) == s
  {
    var u, v := Value(s[0]).value, Value(s[1]).value;
    SymbolOfValue(s[0]);
    SymbolOfValue(s[1]);
    if s[2] == '=' {
      SplitUndoesJoin(u, v, 0, 0);
    } else {
      SymbolOfValue(s[2]);
      SplitUndoesJoin(u, v, Value(s[2]).value, 0);
    }
  }

  /** Only canonical text decodes: each byte string has exactly one accepted encoding. */
  lemma {:induction false} DecodeIsCanonical(s: string)
    requires Decode(s).Some?
    ensures Encode(Decode(s).value) == s
  {
    hide Symbol, Value, JoinFirst, JoinSecond, JoinThird, DecodePadded;
    if |s| == 0 {
    } else if |s| == 4 && s[3] == '=' {
      DecodePaddedIsCanonical(s);
    } else {
      SymbolOfValue(s[0]);
      SymbolOfValue(s[1]);
      SymbolOfValue(s[2]);
      SymbolOfValue(s[3]);
      SplitUndoesJoin(Value(s[0]).value, Value(s[1]).value, Value(s[2]).value, Value(s[3]).value);
      DecodeIsCanonical(s[4..]);
      var b := Decode(s).value;
      assert b[3..] == Decode(s[4..]).value;
      assert s == [s[0], s[1], s[2], s[3]] + s[4..];
    }
  }

  lemma {:induction false} EncodedLength(b: bytes)
    ensures |Encode(b)| == (|b| + 2) / 3 * 4
  {
    if |b| >= 3 {
      EncodedLength(b[3..]);
      assert (|b| + 2) / 3 == (|b[3..]| + 2) / 3 + 1;
    }
  }

  predicate IsBase64Char(c: char) { Value(c).Some? || c == '=' }

  lemma {:induction false} EncodedAlphabet(b: bytes)
    ensures forall i :: 0 <= i < |Encode(b)| ==> IsBase64Char(Encode(b)[i])
  {
    forall v: sextet ensures IsBase64Char(Symbol(v)) { ValueOfSymbol(v); }
    if |b| >= 3 { EncodedAlphabet(b[3..]); }
  }

  /** Three bytes and their four symbols are the same 24-bit number. */
  lemma GroupsKeepTheirValue(a: byte, b: byte, c: byte)
    ensures var s := Encode([a, b, c]);
            && |s| == 4 && (forall i :: 0 <= i < 4 ==> Value(s[i]).Some?)
            && ((Value(s[0]).value * 64 + Value(s[1]).value) * 64 + Value(s[2]).value) * 64 + Value(s[3]).value
               == (a * 256 + b) * 256 + c
  {
    hide Symbol, Value;
    ValueOfSymbol(a / 4);
    ValueOfSymbol(a % 4 * 16 + b / 16);
    ValueOfSymbol(b % 16 * 4 + c / 64);
    ValueOfSymbol(c % 64);
    assert [a, b, c][3..] == [];
  }

  /** The alphabet of table 1 of RFC 4648: capital letters, small letters and digits in order, then plus and slash. */
  lemma AlphabetInOrder(v: sextet)
    ensures Symbol(0) == 'A' && Symbol(26) == 'a' && Symbol(52) == '0' && Symbol(62) == '+' && Symbol(63) == '/'
    ensures v < 61 && v != 25 && v != 51 ==> Symbol(v + 1) as int == Symbol(v) as int + 1
  {
  }

  /** The padded vectors of section 10 of RFC 4648, for "f" and "fo". */
  lemma PaddedVectors()
    ensures Encode([102]) == "Zg==" && Encode([102, 111]) == "Zm8="
  {
  }
}
