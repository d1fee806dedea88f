/** Models of the PHP built-ins that the identicon builder and the string
    toolkit call: `empty`, `trim`, `hexdec`, `round`, `str_replace`,
    `array_reverse`, ASCII case mapping and the loose `==` on strings.
    Strings are sequences of single-byte characters. */
module Php {

  /** PHP's `null` (or `false`) next to a value. */
  datatype Option<T> = None | Some(value: T)

  function Min(a: int, b: int): int { if a <= b then a else b }
  function Max(a: int, b: int): int { if a <= b then b else a }

  /** `empty($s)` on a string: only "" and "0" are empty. */
  predicate IsEmptyString(s: string) { s == "" || s == "0" }

  /** The characters `trim` strips by default: " \t\n\r\0\x0B". */
  const TrimChars: set<char> := {' ', '\t', '\n', '\r', '\0', '\U{000B}'}

  /** `ltrim($s, $cs)`: drops the longest prefix made of characters of `cs`. */
  function LStrip(s: string, cs: set<char>): (r: string)
    ensures |r| <= |s| && r == s[|s| - |r|..]
    ensures forall i :: 0 <= i < |s| - |r| ==> s[i] in cs
    ensures r != [] ==> r[0] !in cs
    decreases |s|
  {
    if |s| > 0 && s[0] in cs then LStrip(s[1..], cs) else s
  }

  /** `rtrim($s, $cs)`: drops the longest suffix made of characters of `cs`. */
  function RStrip(s: string, cs: set<char>): (r: string)
    ensures |r| <= |s| && r == s[..|r|]
    ensures forall i :: |r| <= i < |s| ==> s[i] in cs
    ensures r != [] ==> r[|r| - 1] !in cs
    decreases |s|
  {
    if |s| > 0 && s[|s| - 1] in cs then RStrip(s[..|s| - 1], cs) else s
  }

  /** `trim($s)` with the default character list. */
  function Trim(s: string): string
  {
    RStrip(LStrip(s, TrimChars), TrimChars)
  }

  /** `r` occurs in `s` at offset `i`. */
  predicate InfixAt<T(==)>(r: seq<T>, s: seq<T>, i: int)
  {
    0 <= i && i + |r| <= |s| && s[i..i + |r|] == r
  }

  predicate IsInfix<T(==)>(r: seq<T>, s: seq<T>)
  {
    exists i :: 0 <= i <= |s| && InfixAt(r, s, i)
  }

  /** What `trim` promises: the result is the middle of `s` once a prefix and a
      suffix of trim characters are cut off, and it neither starts nor ends
      with one. */
  lemma TrimSpec(s: string)
    ensures var r := Trim(s);
      exists i ::
        && InfixAt(r, s, i)
        && (forall k :: 0 <= k < i ==> s[k] in TrimChars)
        && (forall k :: i + |r| <= k < |s| ==> s[k] in TrimChars)
    ensures Trim(s) != [] ==> Trim(s)[0] !in TrimChars && Trim(s)[|Trim(s)| - 1] !in TrimChars
  {
    var l := LStrip(s, TrimChars);
    var r := Trim(s);
    var i := |s| - |l|;
    assert r == l[..|r|];
    assert s[i..i + |r|] == l[..|r|];
    assert InfixAt(r, s, i);
    if r != [] {
      assert r[0] == l[0];
    }
  }

  /** Trimming twice is trimming once. */
  lemma TrimIdempotent(s: string)
    ensures Trim(Trim(s)) == Trim(s)
  {
    var r := Trim(s);
    TrimSpec(s);
    if r != [] {
      assert LStrip(r, TrimChars) == r;
      assert RStrip(r, TrimChars) == r;
    }
  }

  /** `str_replace($c, '', $s)` for a one-character search string. */
  function RemoveChar(s: string, c: char): (r: string)
    ensures |r| <= |s|
    ensures forall i :: 0 <= i < |r| ==> r[i] != c
    ensures c !in s ==> r == s
    ensures multiset(r) == multiset(s)[c := 0]
    decreases |s|
  {
    if s == [] then []
    else
      assert s == [s[0]] + s[1..];
      (if s[0] == c then [] else [s[0]]) + RemoveChar(s[1..], c)
  }

  /** Removal works piece by piece, so the other characters keep their order. */
  lemma {:induction false} RemoveCharAppend(x: string, y: string, c: char)
    ensures RemoveChar(x + y, c) == RemoveChar(x, c) + RemoveChar(y, c)
    decreases |x|
  {
    if x == [] {
      assert x + y == y;
    } else {
      assert (x + y)[1..] == x[1..] + y;
      RemoveCharAppend(x[1..], y, c);
    }
  }

  predicate IsHexDigit(c: char)
  {
    '0' <= c <= '9' || 'a' <= c <= 'f' || 'A' <= c <= 'F'
  }

  function HexValue(c: char): (v: int)
    requires IsHexDigit(c)
    ensures 0 <= v < 16
  {
    if '0' <= c <= '9' then c as int - '0' as int
    else if 'a' <= c <= 'f' then c as int - 'a' as int + 10
    else c as int - 'A' as int + 10
  }

  function Pow16(n: nat): (p: nat)
    ensures p >= 1
  {
    if n == 0 then 1 else 16 * Pow16(n - 1)
  }

  /** `hexdec($s)`: reads the hexadecimal digits of `s` left to right and
      silently skips every other character. */
  function HexDec(s: string): (r: nat)
    ensures r < Pow16(|s|)
    decreases |s|
  {
    if s == [] then 0
    else
      var init := HexDec(s[..|s| - 1]);
      var c := s[|s| - 1];
      if IsHexDigit(c) then init * 16 + HexValue(c) else init
  }

  /** One or two hexadecimal digits read as a number. */
  lemma HexDecDigits(a: char, b: char)
    ensures HexDec([a]) == (if IsHexDigit(a) then HexValue(a) else 0)
    ensures IsHexDigit(a) && IsHexDigit(b) ==> HexDec([a, b]) == 16 * HexValue(a) + HexValue(b)
  {
    assert [a, b][..1] == [a];
    assert [a][..0] == [];
  }

  /** `round($n / $d)` for integers: the nearest integer, halves rounded away
      from zero, as PHP's default rounding mode does. */
  function RoundQuotient(n: int, d: int): (r: int)
    requires d > 0
    ensures n >= 0 ==> 2 * d * r - d <= 2 * n < 2 * d * r + d
    ensures n < 0 ==> 2 * d * r - d < 2 * n <= 2 * d * r + d
  {
    if n >= 0 then (2 * n + d) / (2 * d) else -((-2 * n + d) / (2 * d))
  }

  /** `array_reverse`. */
  function Reversed<T>(s: seq<T>): (r: seq<T>)
    ensures |r| == |s|
    ensures forall i :: 0 <= i < |s| ==> r[i] == s[|s| - 1 - i]
    decreases |s|
  {
    if s == [] then [] else Reversed(s[1..]) + [s[0]]
  }

  lemma {:induction false} ReversedInvolution<T>(s: seq<T>)
    ensures Reversed(Reversed(s)) == s
  {
    var r := Reversed(Reversed(s));
    assert forall i :: 0 <= i < |s| ==> r[i] == s[i];
  }

  predicate IsUpper(c: char) { 'A' <= c <= 'Z' }
  predicate IsLower(c: char) { 'a' <= c <= 'z' }

  /** `strtolower` / `mb_strtolower` on one character, ASCII letters only. */
  function LowerChar(c: char): (r: char)
    ensures IsUpper(c) ==> r as int == c as int + 32
    ensures !IsUpper(c) ==> r == c
  {
    if IsUpper(c) then (c as int + 32) as char else c
  }

  /** `strtoupper` / `mb_strtoupper` on one character, ASCII letters only. */
  function UpperChar(c: char): (r: char)
    ensures IsLower(c) ==> r as int == c as int - 32
    ensures !IsLower(c) ==> r == c
  {
    if IsLower(c) then (c as int - 32) as char else c
  }

  function Lower(s: string): (r: string)
    ensures |r| == |s|
  {
    seq(|s|, i requires 0 <= i < |s| => LowerChar(s[i]))
  }

  function Upper(s: string): (r: string)
    ensures |r| == |s|
  {
    seq(|s|, i requires 0 <= i < |s| => UpperChar(s[i]))
  }

  /** The whitespace PHP 8 allows around a numeric string: " \t\n\r\v\f". */
  const NumericSpace: set<char> := {' ', '\t', '\n', '\r', '\U{000B}', '\U{000C}'}

  predicate IsDecimal(c: char) { '0' <= c <= '9' }

  function DecimalValue(ds: string): (v: nat)
    requires forall i :: 0 <= i < |ds| ==> IsDecimal(ds[i])
    decreases |ds|
  {
    if ds == [] then 0
    else
      assert IsDecimal(ds[|ds| - 1]);
      10 * DecimalValue(ds[..|ds| - 1]) + (ds[|ds| - 1] as int - '0' as int)
  }

  /** The value of a numeric string in integer notation (`  -42\n`), or None. */
  function IntegerNotation(s: string): Option<int>
  {
    SignedDecimal(RStrip(LStrip(s, NumericSpace), NumericSpace))
  }

  /** An optional sign followed by at least one decimal digit, or None. */
  function SignedDecimal(t: string): Option<int>
  {
    var neg := |t| > 0 && t[0] == '-';
    var digits := if |t| > 0 && (t[0] == '-' || t[0] == '+') then t[1..] else t;
    if digits != [] && forall i :: 0 <= i < |digits| ==> IsDecimal(digits[i]) then
      var v: int := DecimalValue(digits);
      Some(if neg then -v else v)
    else None
  }

  /** PHP's 64-bit `int` range. */
  predicate IsInt64(v: int) { -0x8000_0000_0000_0000 <= v < 0x8000_0000_0000_0000 }

  /** PHP's `$a == $b` on two strings: equal, or both integer strings whose
      value fits a 64-bit `int` and is the same. An integer string past the
      64-bit range equals only the same bytes: PHP 8 answers "not equal" when
      only one side overflows, and compares the bytes when both overflow to
      the same double. */
  predicate LooseEquals(a: string, b: string)
  {
    a == b ||
    (IntegerNotation(a).Some? && IsInt64(IntegerNotation(a).value) && IntegerNotation(a) == IntegerNotation(b))
  }

  /** A string whose integer value overflows 64 bits is loosely equal only
      to itself. */
  lemma LooseEqualsOverflow(a: string, b: string)
    requires IntegerNotation(a).Some? && !IsInt64(IntegerNotation(a).value)
    ensures LooseEquals(a, b) <==> a == b
  {
  }
}
