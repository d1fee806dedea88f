/** The string toolkit `Zest\Data\Str`: reversal, length, joining, case tests
    and the case swap, the Base64 test, sub-strings and slices, trimming and
    repetition. Characters stand for ASCII characters and case mapping is ASCII. */
module Str {
  import opened Php
  import opened Base64

  /** `mb_substr($s, $start, $length)` as PHP 8 computes it: a negative start
      counts from the end (and stops at 0), a start past the end gives "", a
      missing length runs to the end, and a negative length stops that many
      characters before the end. */
  function Substring(s: string, start: int, length: Option<int>): (r: string)
    ensures |r| <= |s|
  {
    var n := |s|;
    var from := if start < 0 then Max(0, n + start) else start;
    if from > n then ""
    else
      var len := match length
        case None => n - from
        case Some(l) => if l < 0 then Max(0, n - from + l) else l;
      s[from..Min(from + len, n)]
  }

  /** A sub-string is a piece of the string. */
  lemma SubstringInfix(s: string, start: int, length: Option<int>)
    ensures IsInfix(Substring(s, start, length), s)
  {
    var n := |s|;
    var from := if start < 0 then Max(0, n + start) else start;
    var r := Substring(s, start, length);
    if from > n {
      assert InfixAt(r, s, 0);
    } else {
      assert InfixAt(r, s, from);
    }
  }

  /** Within the string, a start and a length take exactly that piece. */
  lemma SubstringInRange(s: string, start: int, l: int)
    requires 0 <= start && 0 <= l && start + l <= |s|
    ensures Substring(s, start, Some(l)) == s[start..start + l]
    ensures Substring(s, start, None) == s[start..]
  {
  }

  /** A negative start counts from the end. */
  lemma SubstringFromEnd(s: string, k: int)
    requires 0 < k <= |s|
    ensures Substring(s, -k, None) == s[|s| - k..]
  {
  }

  /** `count($str)`: `mb_strlen` when mbstring is there; otherwise the fallback
      scan for the first NUL of `$str . "\0"` from index 1. The fallback does
      not end on "", so the string must not be empty then. */
  method Count(s: string, mbstring: bool) returns (n: int)
    requires !mbstring ==> |s| > 0
    ensures mbstring ==> n == |s|
    ensures !mbstring ==> 1 <= n <= |s|
    ensures !mbstring ==> forall k :: 1 <= k < n ==> s[k] != '\0'
    ensures !mbstring && n < |s| ==> s[n] == '\0'
    ensures !mbstring && (forall k :: 0 <= k < |s| ==> s[k] != '\0') ==> n == |s|
  {
    if mbstring {
      return |s|;
    }
    var i := 1;
    var t := s + "\0";
    while t[i] != '\0'
      invariant 1 <= i <= |s|
      invariant forall k :: 1 <= k < i ==> s[k] != '\0'
      decreases |s| - i
    {
      assert t[i] == s[i];
      i := i + 1;
    }
    return i;
  }

  /** A one-character sub-string is that character. */
  lemma SubstringOne(s: string, k: int)
    requires 0 <= k < |s|
    ensures Substring(s, k, Some(1)) == [s[k]]
  {
  }

  /** `reverse`: counts the characters, then appends `mb_substr($str, $i, 1)`
      for $i from the count minus one down to 0 (the post-decrement test).
      `mb_substr` is called on every path, so mbstring is taken as present. */
  method Reverse(s: string) returns (r: string)
    ensures r == Reversed(s)
  {
    r := "";
    var length := Count(s, true);
    var k := length;
    while k != 0
      invariant 0 <= k <= |s|
      invariant r == Reversed(s[k..])
    {
      k := k - 1;
      SubstringOne(s, k);
      assert s[k..][1..] == s[k + 1..];
      r := r + Substring(s, k, Some(1));
    }
    assert s[0..] == s;
  }

  /** `implode($g, $str)`: the pieces with `g` between neighbours. */
  function Concat(g: string, str: seq<string>): string
    decreases |str|
  {
    if |str| == 0 then ""
    else if |str| == 1 then str[0]
    else Concat(g, str[..|str| - 1]) + g + str[|str| - 1]
  }

  function TotalLength(str: seq<string>): nat
    decreases |str|
  {
    if str == [] then 0 else TotalLength(str[..|str| - 1]) + |str[|str| - 1]|
  }

  /** No pieces give "", one piece gives itself, and n pieces take their own
      characters and n - 1 separators. */
  lemma {:induction false} ConcatLength(g: string, str: seq<string>)
    ensures str == [] ==> Concat(g, str) == ""
    ensures |str| == 1 ==> Concat(g, str) == str[0]
    ensures |str| > 0 ==> |Concat(g, str)| == TotalLength(str) + (|str| - 1) * |g|
    decreases |str|
  {
    if |str| > 1 {
      var init := str[..|str| - 1];
      ConcatLength(g, init);
      assert init[..|init| - 1] == str[..|str| - 2];
      assert TotalLength(str) == TotalLength(init) + |str[|str| - 1]|;
    } else if |str| == 1 {
      assert str[..0] == [];
    }
  }

  /** `hasUpperCase`: lowering changes the string. */
  predicate HasUpperCase(s: string)
  {
    Lower(s) != s
  }

  /** `hasLowerCase`: raising changes the string. */
  predicate HasLowerCase(s: string)
  {
    Upper(s) != s
  }

  /** The case tests find an upper-case (or lower-case) letter. */
  lemma HasCaseSpec(s: string)
    ensures HasUpperCase(s) <==> exists i :: 0 <= i < |s| && IsUpper(s[i])
    ensures HasLowerCase(s) <==> exists i :: 0 <= i < |s| && IsLower(s[i])
  {
    if HasUpperCase(s) {
      var i :| 0 <= i < |s| && Lower(s)[i] != s[i];
    }
    if HasLowerCase(s) {
      var i :| 0 <= i < |s| && Upper(s)[i] != s[i];
    }
    if exists i :: 0 <= i < |s| && IsUpper(s[i]) {
      var i :| 0 <= i < |s| && IsUpper(s[i]);
      assert Lower(s)[i] != s[i];
    }
    if exists i :: 0 <= i < |s| && IsLower(s[i]) {
      var i :| 0 <= i < |s| && IsLower(s[i]);
      assert Upper(s)[i] != s[i];
    }
  }

  /** One character of `ConvertCase`: lowered when lowering changes it,
      otherwise raised; so letters swap case and the rest stay. */
  function SwapChar(c: char): (r: char)
    ensures IsUpper(c) ==> IsLower(r) && r as int == c as int + 32
    ensures IsLower(c) ==> IsUpper(r) && r as int == c as int - 32
    ensures !IsUpper(c) && !IsLower(c) ==> r == c
  {
    if LowerChar(c) != c then LowerChar(c) else UpperChar(c)
  }

  function SwapCase(s: string): (r: string)
    ensures |r| == |s|
  {
    seq(|s|, i requires 0 <= i < |s| => SwapChar(s[i]))
  }

  /** `ConvertCase`: splits the string into characters, overwrites each with
      its swapped case and joins them; without mbstring the string comes back
      unchanged. */
  method ConvertCase(s: string, mbstring: bool) returns (r: string)
    ensures r == if mbstring then SwapCase(s) else s
  {
    if !mbstring {
      return s;
    }
    var characters := new char[|s|](i requires 0 <= i < |s| => s[i]);
    for key := 0 to characters.Length
      invariant forall i :: 0 <= i < key ==> characters[i] == SwapChar(s[i])
      invariant forall i :: key <= i < characters.Length ==> characters[i] == s[i]
    {
      var character := characters[key];
      if LowerChar(character) != character {
        character := LowerChar(character);
      } else {
        character := UpperChar(character);
      }
      characters[key] := character;
    }
    r := characters[..];
  }

  lemma SwapCharInvolution(c: char)
    ensures SwapChar(SwapChar(c)) == c
  {
    if IsUpper(c) {
      assert SwapChar(c) as int == c as int + 32;
    } else if IsLower(c) {
      assert SwapChar(c) as int == c as int - 32;
    }
  }

  /** Swapping the case twice gives the string back. */
  lemma SwapCaseInvolution(s: string)
    ensures SwapCase(SwapCase(s)) == s
  {
    forall i | 0 <= i < |s|
      ensures SwapCase(SwapCase(s))[i] == s[i]
    {
      SwapCharInvolution(s[i]);
    }
  }

  /** The swapped string has an upper-case letter exactly when the original
      has a lower-case one, and the other way round. */
  lemma SwapCaseTests(s: string)
    ensures HasUpperCase(SwapCase(s)) <==> HasLowerCase(s)
    ensures HasLowerCase(SwapCase(s)) <==> HasUpperCase(s)
  {
    var t := SwapCase(s);
    HasCaseSpec(s);
    HasCaseSpec(t);
    if exists i :: 0 <= i < |s| && IsLower(s[i]) {
      var i :| 0 <= i < |s| && IsLower(s[i]);
      assert IsUpper(t[i]);
    }
    if exists i :: 0 <= i < |s| && IsUpper(s[i]) {
      var i :| 0 <= i < |s| && IsUpper(s[i]);
      assert IsLower(t[i]);
    }
    if exists i :: 0 <= i < |t| && IsUpper(t[i]) {
      var i :| 0 <= i < |t| && IsUpper(t[i]);
      assert IsLower(s[i]);
    }
    if exists i :: 0 <= i < |t| && IsLower(t[i]) {
      var i :| 0 <= i < |t| && IsLower(t[i]);
      assert IsUpper(s[i]);
    }
  }

  /** The character class `[a-zA-Z0-9\/\r\n+]` of the Base64 pattern. */
  predicate InClass(c: char)
  {
    IsAlphabetChar(c) || c == '\r' || c == '\n'
  }

  /** The number of '=' at the end of `t`. */
  function TrailingEquals(t: string): (k: nat)
    ensures k <= |t|
    ensures forall i :: |t| - k <= i < |t| ==> t[i] == '='
    ensures k < |t| ==> t[|t| - 1 - k] != '='
    decreases |t|
  {
    if t != [] && t[|t| - 1] == '=' then 1 + TrailingEquals(t[..|t| - 1]) else 0
  }

  /** `^[a-zA-Z0-9\/\r\n+]*={0,2}` up to the end of `t`: the class excludes
      '=', so the class run is everything before the trailing '=' signs. */
  predicate PatternBody(t: string)
  {
    var k := TrailingEquals(t);
    k <= 2 && forall i :: 0 <= i < |t| - k ==> InClass(t[i])
  }

  /** `preg_match('/^[a-zA-Z0-9\/\r\n+]*={0,2}$/', $s)`: `$` matches at the
      end or before a final newline. */
  predicate MatchesPattern(s: string)
  {
    PatternBody(s) || (|s| > 0 && s[|s| - 1] == '\n' && PatternBody(s[..|s| - 1]))
  }

  /** `isBase64` as written: the pattern, a strict decode, and the loose
      comparison `base64_encode($decoded) != $string`, with numeric strings in
      integer notation only (an exponent such as "\n1e10" is not read as a
      number here). */
  predicate IsBase64AsWritten(s: string)
  {
    MatchesPattern(s) &&
    match StrictDecode(s)
    case None => false
    case Some(d) => LooseEquals(Encode(d), s)
  }

  /** `isBase64` with a strict comparison of the re-encoded bytes. */
  predicate IsBase64(s: string)
  {
    MatchesPattern(s) &&
    match StrictDecode(s)
    case None => false
    case Some(d) => Encode(d) == s
  }

  /** Both versions turn away a string the pattern does not take: one with a
      character outside the class and '='. */
  lemma PatternRejects(s: string, i: int)
    requires 0 <= i < |s| && !InClass(s[i]) && s[i] != '='
    ensures !MatchesPattern(s) && !IsBase64(s) && !IsBase64AsWritten(s)
  {
    var k := TrailingEquals(s);
    assert i < |s| - k;
    if |s| > 0 && s[|s| - 1] == '\n' {
      var t := s[..|s| - 1];
      var k' := TrailingEquals(t);
      assert i < |t| - k';
      assert t[i] == s[i];
    }
  }

  /** '=' signs after a string that does not end in one are all counted. */
  lemma {:induction false} TrailingEqualsPadding(x: string, pad: string)
    requires x == [] || x[|x| - 1] != '='
    requires forall i :: 0 <= i < |pad| ==> pad[i] == '='
    ensures TrailingEquals(x + pad) == |pad|
    decreases |pad|
  {
    if pad != [] {
      var init := pad[..|pad| - 1];
      assert (x + pad)[..|x + pad| - 1] == x + init;
      TrailingEqualsPadding(x, init);
    } else {
      assert x + pad == x;
    }
  }

  /** Every Base64 encoding matches the pattern. */
  lemma EncodeMatches(b: seq<byte>)
    ensures PatternBody(Encode(b)) && MatchesPattern(Encode(b))
  {
    var x, pad := Chars(Sextets(b)), Padding(|b|);
    assert forall i :: 0 <= i < |pad| ==> pad[i] == '=';
    if x != [] {
      assert IsAlphabetChar(x[|x| - 1]);
    }
    TrailingEqualsPadding(x, pad);
    assert forall i :: 0 <= i < |x| ==> (x + pad)[i] == x[i];
  }

  /** `isBase64` accepts exactly the canonical encodings of section 4 of
      RFC 4648: the strings `base64_encode` can return. */
  lemma IsBase64Canonical(s: string)
    ensures IsBase64(s) <==> exists b: seq<byte> :: Encode(b) == s
  {
    if exists b: seq<byte> :: Encode(b) == s {
      var b: seq<byte> :| Encode(b) == s;
      EncodeMatches(b);
      DecodeEncode(b);
    }
  }

  /** The empty string is an encoding (of no bytes). */
  lemma IsBase64Empty()
    ensures IsBase64("") && IsBase64AsWritten("")
  {
    assert Encode([]) == "";
    assert StrictDecode("") == Some([]);
  }

  /** An encoding has no line breaks, so `\r` and `\n` are turned away by the
      re-encode check even though the pattern lets them through. */
  lemma IsBase64NoLineBreaks(s: string)
    requires IsBase64(s)
    ensures forall i :: 0 <= i < |s| ==> s[i] != '\r' && s[i] != '\n'
  {
    var d := StrictDecode(s).value;
    assert Encode(d) == s;
  }

  lemma NewlineExampleMatches()
    ensures MatchesPattern("\n1234")
  {
    assert TrailingEquals("\n1234") == 0;
  }

  /** One alphabet character at the front, before any '=', is read as its sextet. */
  lemma ScanAlphabetChar(c: char, rest: string, xs: seq<sextet>, v: sextet)
    requires ReverseTable(c) == Value(v)
    ensures Scan([c] + rest, Scanned(xs, 0)) == Scan(rest, Scanned(xs + [v], 0))
  {
    assert ([c] + rest)[0] == c;
    assert ([c] + rest)[1..] == rest;
  }

  lemma NewlineExampleDecodes()
    ensures StrictDecode("\n1234") == Some([215, 109, 248])
  {
    var e: seq<sextet> := [];
    assert "\n1234"[1..] == "1234";
    assert ReverseTable('\n') == Skip;
    ScanAlphabetChar('1', "234", e, 53);
    ScanAlphabetChar('2', "34", e + [53], 54);
    ScanAlphabetChar('3', "4", e + [53] + [54], 55);
    ScanAlphabetChar('4', "", e + [53] + [54] + [55], 56);
    assert e + [53] + [54] + [55] + [56] == [53, 54, 55, 56];
    var xs: seq<sextet> := [53, 54, 55, 56];
    assert Scan("\n1234", Scanned([], 0)) == Some(Scanned(xs, 0));
    assert xs[4..] == [];
    assert Pack(xs) == [215, 109, 248];
  }

  lemma NewlineExampleEncodes()
    ensures Encode([215, 109, 248]) == "1234"
  {
    var b: seq<byte> := [215, 109, 248];
    assert b[3..] == [];
    assert Sextets(b) == [53, 54, 55, 56];
  }

  lemma DecimalExample()
    ensures DecimalValue("1234") == 1234
  {
    assert "1234"[..3] == "123" && "123"[..2] == "12" && "12"[..1] == "1" && "1"[..0] == "";
  }

  lemma NoNumericSpaceExample()
    ensures LStrip("1234", NumericSpace) == "1234"
    ensures RStrip("1234", NumericSpace) == "1234"
  {
    assert '1' !in NumericSpace && '4' !in NumericSpace;
  }

  lemma IntegerExample()
    ensures SignedDecimal("1234") == Some(1234)
    ensures IntegerNotation("1234") == Some(1234)
  {
    DecimalExample();
    NoNumericSpaceExample();
    var t := "1234";
    assert t[0] != '-' && t[0] != '+';
    assert forall i :: 0 <= i < |t| ==> IsDecimal(t[i]);
  }

  lemma LeadingNewlineExample()
    ensures RStrip(LStrip("\n1234", NumericSpace), NumericSpace) == "1234"
  {
    assert '\n' in NumericSpace;
    assert "\n1234"[1..] == "1234";
    NoNumericSpaceExample();
  }

  lemma NewlineExampleNumeric()
    ensures LooseEquals("1234", "\n1234")
  {
    IntegerExample();
    LeadingNewlineExample();
    assert IntegerNotation("\n1234") == SignedDecimal("1234");
  }

  /** The loose `!=` lets a string through that is not an encoding: "\n1234"
      decodes (the newline is skipped) to bytes that re-encode as "1234", and
      "1234" == "\n1234" holds numerically. */
  lemma IsBase64AsWrittenAcceptsNewline()
    ensures IsBase64AsWritten("\n1234") && !IsBase64("\n1234")
  {
    NewlineExampleMatches();
    NewlineExampleDecodes();
    NewlineExampleEncodes();
    NewlineExampleNumeric();
  }

  /** `stripWhitespaces`: `trim`. */
  function StripWhitespaces(s: string): string
  {
    Trim(s)
  }

  /** The stripped string neither starts nor ends with a trim character,
      and stripping again changes nothing (`TrimSpec` says where it sits). */
  lemma StripWhitespacesSpec(s: string)
    ensures var r := StripWhitespaces(s);
      r != [] ==> r[0] !in TrimChars && r[|r| - 1] !in TrimChars
    ensures StripWhitespaces(StripWhitespaces(s)) == StripWhitespaces(s)
  {
    TrimSpec(s);
    TrimIdempotent(s);
  }

  /** The stripped string is a piece of `s`. */
  lemma StripWhitespacesInfix(s: string)
    ensures IsInfix(StripWhitespaces(s), s)
  {
    TrimSpec(s);
    var i :| InfixAt(Trim(s), s, i);
    assert InfixAt(StripWhitespaces(s), s, i);
  }

  /** `str_repeat($s, $k)` for k >= 0. */
  function Repeated(s: string, k: nat): (r: string)
    ensures |r| == |s| * k
    decreases k
  {
    if k == 0 then "" else Repeated(s, k - 1) + s
  }

  /** `repeat`: `str_repeat`, which refuses a negative count (None stands
      for the ValueError PHP 8 throws). */
  function Repeat(s: string, amount: int := 1): (r: Option<string>)
    ensures r.None? <==> amount < 0
    ensures r.Some? ==> |r.value| == |s| * amount
  {
    if amount < 0 then None else Some(Repeated(s, amount))
  }

  /** Without a count, `repeat` gives the string once. */
  lemma RepeatDefault(s: string)
    ensures Repeat(s) == Some(s)
  {
    assert "" + s == s;
  }

  /** Repeating a + b times is repeating a times, then b times. */
  lemma {:induction false} RepeatedAdd(s: string, a: nat, b: nat)
    ensures Repeated(s, a + b) == Repeated(s, a) + Repeated(s, b)
    decreases b
  {
    if b > 0 {
      RepeatedAdd(s, a, b - 1);
      assert Repeated(s, a) + Repeated(s, b - 1) + s == Repeated(s, a) + (Repeated(s, b - 1) + s);
    } else {
      assert Repeated(s, a) + "" == Repeated(s, a);
    }
  }

  /** `slice`: a negative start or length is shifted by the string length; a
      given length below the start gives `false` (None); otherwise
      `substring($s, $start, $length ?: null)`, so a length of 0 means "to
      the end". */
  function Slice(s: string, start: int, length: Option<int>): (r: Option<string>)
    ensures r.None? <==> (length.Some? &&
      (if length.value < 0 then length.value + |s| else length.value) < (if start < 0 then start + |s| else start))
  {
    var st := if start < 0 then start + |s| else start;
    var len := match length
      case None => None
      case Some(l) => Some(if l < 0 then l + |s| else l);
    if len.Some? && len.value < st then None
    else Some(Substring(s, st, if len == Some(0) then None else len))
  }

  /** Slicing from 0 with no length or a length of 0 gives the whole string. */
  lemma SliceWhole(s: string)
    ensures Slice(s, 0, None) == Some(s)
    ensures Slice(s, 0, Some(0)) == Some(s)
  {
    assert s[0..|s|] == s;
  }

  /** Within the string, the length counts characters from the start: a
      slice is the sub-string of that many characters. */
  lemma SliceInRange(s: string, start: int, l: int)
    requires 0 <= start <= l && 0 < l && start + l <= |s|
    ensures Slice(s, start, Some(l)) == Some(s[start..start + l])
  {
    SubstringInRange(s, start, l);
  }

  /** A length shorter than the start is refused even when the piece would
      fit: `slice("abcdef", 3, 2)` is `false`. */
  lemma SliceRefusesShortLength()
    ensures Slice("abcdef", 3, Some(2)) == None
  {
  }
}
