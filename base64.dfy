/** Base64 as in section 4 of RFC 4648: the encoder PHP's `base64_encode`
    implements, and the decoder PHP's `base64_decode($s, true)` (strict mode)
    implements, with its whitespace skipping and its padding checks. */
module Base64 {
  import opened Php

  type byte = x: int | 0 <= x < 256
  type sextet = x: int | 0 <= x < 64

  predicate IsAlphabetChar(c: char)
  {
    'A' <= c <= 'Z' || 'a' <= c <= 'z' || '0' <= c <= '9' || c == '+' || c == '/'
  }

  /** The Base64 alphabet (Table 1 of RFC 4648). */
  function Alphabet(v: sextet): (c: char)
    ensures IsAlphabetChar(c)
  {
    if v < 26 then ('A' as int + v) as char
    else if v < 52 then ('a' as int + (v - 26)) as char
    else if v < 62 then ('0' as int + (v - 52)) as char
    else if v == 62 then '+'
    else '/'
  }

  /** An entry of the decoder's reverse table. */
  datatype Entry = Value(v: sextet) | Skip | Bad

  /** The decoder's reverse table: the sextet of an alphabet character, Skip
      for the whitespace " \t\n\r" the decoder passes over, Bad for the rest. */
  function ReverseTable(c: char): (e: Entry)
    ensures e.Value? <==> IsAlphabetChar(c)
    ensures e.Skip? <==> c in {' ', '\t', '\n', '\r'}
  {
    if 'A' <= c <= 'Z' then Value(c as int - 'A' as int)
    else if 'a' <= c <= 'z' then Value(c as int - 'a' as int + 26)
    else if '0' <= c <= '9' then Value(c as int - '0' as int + 52)
    else if c == '+' then Value(62)
    else if c == '/' then Value(63)
    else if c == ' ' || c == '\t' || c == '\n' || c == '\r' then Skip
    else Bad
  }

  /** The table inverts the alphabet. */
  lemma AlphabetInverse(v: sextet)
    ensures ReverseTable(Alphabet(v)) == Value(v)
  {
  }

  /** The 6-bit groups of `b`: three bytes give four sextets, and a final one or
      two bytes give two or three, the missing low bits set to zero. */
  function Sextets(b: seq<byte>): (xs: seq<sextet>)
    ensures |xs| == 4 * (|b| / 3) + (if |b| % 3 == 0 then 0 else |b| % 3 + 1)
    decreases |b|
  {
    if |b| == 0 then []
    else if |b| == 1 then [b[0] / 4, (b[0] % 4) * 16]
    else if |b| == 2 then [b[0] / 4, (b[0] % 4) * 16 + b[1] / 16, (b[1] % 16) * 4]
    else [b[0] / 4, (b[0] % 4) * 16 + b[1] / 16, (b[1] % 16) * 4 + b[2] / 64, b[2] % 64] + Sextets(b[3..])
  }

  function Chars(xs: seq<sextet>): (s: string)
    ensures |s| == |xs|
  {
    seq(|xs|, i requires 0 <= i < |xs| => Alphabet(xs[i]))
  }

  /** The '=' characters that complete the last quantum. */
  function Padding(n: nat): string
  {
    if n % 3 == 1 then "==" else if n % 3 == 2 then "=" else ""
  }

  /** `base64_encode`. */
  function Encode(b: seq<byte>): (s: string)
    ensures |s| == 4 * ((|b| + 2) / 3)
    ensures forall i :: 0 <= i < |s| ==> IsAlphabetChar(s[i]) || s[i] == '='
  {
    Chars(Sextets(b)) + Padding(|b|)
  }

  /** What the decoder's main loop has gathered: the sextets read so far and
      the number of '=' seen. */
  datatype Scanned = Scanned(sextets: seq<sextet>, padding: nat)

  /** The main loop of the strict decoder: '=' is counted, whitespace is
      passed over, any other character outside the alphabet fails, and so
      does an alphabet character after a '='. */
  function Scan(s: string, acc: Scanned): Option<Scanned>
    decreases |s|
  {
    if s == [] then Some(acc)
    else if s[0] == '=' then Scan(s[1..], acc.(padding := acc.padding + 1))
    else match ReverseTable(s[0])
      case Skip => Scan(s[1..], acc)
      case Bad => None
      case Value(v) =>
        if acc.padding > 0 then None else Scan(s[1..], acc.(sextets := acc.sextets + [v]))
  }

  /** The bytes the decoder writes out: 24 bits for every four sextets, and 8
      or 16 bits for a final two or three; the leftover low bits are dropped. */
  function Pack(xs: seq<sextet>): seq<byte>
    decreases |xs|
  {
    if |xs| < 2 then []
    else
      var b0: byte := xs[0] as int * 4 + xs[1] as int / 16;
      if |xs| == 2 then [b0]
      else
        var b1: byte := (xs[1] as int % 16) * 16 + xs[2] as int / 4;
        if |xs| == 3 then [b0, b1]
        else
          var b2: byte := (xs[2] as int % 4) * 64 + xs[3] as int;
          [b0, b1, b2] + Pack(xs[4..])
  }

  /** `base64_decode($s, true)`: None stands for PHP's `false`. It fails on a
      last quantum of one sextet and on a padding that is present but is not
      "==" after two sextets or "=" after three; no padding at all is accepted. */
  function StrictDecode(s: string): Option<seq<byte>>
  {
    match Scan(s, Scanned([], 0))
    case None => None
    case Some(st) =>
      var i := |st.sextets|;
      if i % 4 == 1 then None
      else if st.padding > 0 && (st.padding > 2 || (i + st.padding) % 4 != 0) then None
      else Some(Pack(st.sextets))
  }

  /** Scanning encoded sextets followed by '=' signs reads the sextets back. */
  lemma {:induction false} ScanChars(xs: seq<sextet>, pad: string, acc: seq<sextet>)
    requires forall i :: 0 <= i < |pad| ==> pad[i] == '='
    ensures Scan(Chars(xs) + pad, Scanned(acc, 0)) == Some(Scanned(acc + xs, |pad|))
    decreases |xs| + |pad|
  {
    if xs != [] {
      AlphabetInverse(xs[0]);
      assert (Chars(xs) + pad)[0] == Alphabet(xs[0]);
      assert (Chars(xs) + pad)[1..] == Chars(xs[1..]) + pad;
      ScanChars(xs[1..], pad, acc + [xs[0]]);
      assert acc + [xs[0]] + xs[1..] == acc + xs;
    } else {
      assert Chars(xs) + pad == pad;
      assert acc + xs == acc;
      ScanPadding(pad, Scanned(acc, 0));
    }
  }

  lemma {:induction false} ScanPadding(pad: string, acc: Scanned)
    requires forall i :: 0 <= i < |pad| ==> pad[i] == '='
    ensures Scan(pad, acc) == Some(acc.(padding := acc.padding + |pad|))
    decreases |pad|
  {
    if pad != [] {
      ScanPadding(pad[1..], acc.(padding := acc.padding + 1));
    }
  }

  /** Decoding the sextets of `b` gives `b` back. */
  lemma {:induction false} PackSextets(b: seq<byte>)
    ensures Pack(Sextets(b)) == b
    decreases |b|
  {
    if |b| >= 3 {
      var xs := Sextets(b);
      PackSextets(b[3..]);
      assert xs[4..] == Sextets(b[3..]);
      assert Pack(xs)[..3] == b[..3];
      assert b == b[..3] + b[3..];
    }
  }

  /** The sextet count and the padding of an encoding pass the decoder's checks. */
  lemma QuantumFits(n: nat)
    ensures var k, p := 4 * (n / 3) + (if n % 3 == 0 then 0 else n % 3 + 1), |Padding(n)|;
      k % 4 != 1 && (p > 0 ==> p <= 2 && (k + p) % 4 == 0)
  {
  }

  /** The decoder's main loop reads an encoding back as its sextets and its padding. */
  lemma ScanEncode(b: seq<byte>)
    ensures Scan(Encode(b), Scanned([], 0)) == Some(Scanned(Sextets(b), |Padding(|b|)|))
  {
    var xs, pad := Sextets(b), Padding(|b|);
    assert forall i :: 0 <= i < |pad| ==> pad[i] == '=';
    ScanChars(xs, pad, []);
    assert [] + xs == xs;
  }

  /** Decoding inverts encoding: every byte string survives the round trip. */
  lemma DecodeEncode(b: seq<byte>)
    ensures StrictDecode(Encode(b)) == Some(b)
  {
    ScanEncode(b);
    QuantumFits(|b|);
    PackSextets(b);
  }
}
