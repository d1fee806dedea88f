# Zest Framework: identicon builder and string toolkit in Dafny

This project models two parts of the Zest Framework, a PHP framework.

**The identicon builder `Zest\Common\Identicon\Base`.** This is a chained-setter object.
- It takes a text, hashes it with `md5`, and walks the 32 hexadecimal characters of the digest.
- Each character becomes one bit (`round(hexdec(c) / 10)`).
- Position `i` writes its bit into row `i div block` of the table `$arrayOfSquare`, at the two columns the look-up `[[0,2],[1,4],[2,6],[3,8]]` gives for `i mod block`.
- The foreground colour is derived from the digest: take the digits captured by the non-overlapping matches of `(\d)\w`, reverse them, and multiply each by 16.
- The other setters take colours (`#rrggbb` or `#rgb`), a block count between 1 and 4, and an image size, from which the pixel ratio `round(size / 5)` is derived.

**The static string helpers of `Zest\Data\Str`:**
- `reverse` and `count`;
- `concat` (implode);
- the case tests `hasUpperCase` and `hasLowerCase`, and the case swap `ConvertCase`;
- the Base64 validity test `isBase64`;
- `substring` (`mb_substr`), `slice`, `stripWhitespaces` (`trim`) and `repeat` (`str_repeat`).

Files:
- `php.dfy`, module `Php`: the PHP built-ins both classes call. These are `empty` on strings, `trim`, `str_replace` of one character, `hexdec` (which skips non-hex characters), `round` of a quotient of integers (halves away from zero), `array_reverse`, ASCII case mapping, and the loose `==` on numeric strings in integer notation.
- `base64.dfy`, module `Base64`: `base64_encode` (section 4 of RFC 4648, with padding) and PHP's strict `base64_decode($s, true)`. The strict decoder skips `" \t\n\r"`, counts `=`, refuses an alphabet character after a `=`, and checks the padding. The round trip `StrictDecode(Encode(b)) == Some(b)` is proved.
- `identicon.dfy`, module `Identicon`:
  - the class `Base`, whose fields are those of the PHP class;
  - the specification function `Paint` of the table walk, with lemmas on it;
  - the loops of `convertHashToArrayOfBoolean` as the methods `FillTable` and `WriteRow`, proved equal to `Paint`.
- `str.dfy`, module `Str`:
  - the loops of `reverse`, `count` and `ConvertCase` as methods, proved against `Reversed`, an outright characterisation and `SwapCase` respectively;
  - the rest as functions, with lemmas.

Modelling notes:
- In the PHP code, the table is a nested array: `$arrayOfSquare[$r][$c]`. In the model it is one map from `(row, column)` pairs to bits (`Grid`).
  - The presence of row `r` (`isset($arrayOfSquare[$r])`) is `HasRow`.
  - The order `ksort` leaves a row in is `KSort`.
  - This flat representation holds the same cells and keeps the proofs about the walk small.
- `md5` is a parameter of `SetHashString`: a function the caller supplies, which returns a digest of 32 lower-case hexadecimal characters for every text whose trim is not `empty` (neither "" nor "0").
- A truthy `$alpha` of `convertColor` is a non-zero `alpha`. The setters always pass `false`, which is 0 here.
- `function_exists('mb_strlen')` and `function_exists('mb_strtolower')` become the boolean parameter `mbstring` of `Count` and `ConvertCase`. `Reverse` calls `Count` with mbstring present, since `reverse` calls `mb_substr` on every path and so needs mbstring anyway.
- `false` and `null` results are `None`.
- Characters are ASCII characters. `strlen` and `mb_strlen` agree on them, and case mapping is ASCII.
- The columns of a row are not symmetric. Remainder 0 writes columns 0 and 2, and remainder 2 then writes columns 2 and 6 of the same row, so the later write wins column 2. `Block3Rows` and `Block3NotMirrored` state the resulting layout for the default block count 3: column 0 holds the bit of position `3r`, and column 2 holds the bit of `3r+2`.

## Model

| member | source | states |
|---|---|---|
| Php.TrimSpec | src/Data/Str.php:207-210 | the result of `trim` is the piece of the string left after a prefix and a suffix made only of `" \t\n\r\0\x0B"` are cut off, and it neither starts nor ends with one of those characters |
| Php.TrimIdempotent | src/Data/Str.php:207-210 | trimming twice is trimming once |
| Php.LStrip | src/Data/Str.php:207-210 | the result is a suffix of the input, everything cut off is a trim character, and the result does not start with one |
| Php.RStrip | src/Data/Str.php:207-210 | the result is a prefix of the input, everything cut off is a trim character, and the result does not end with one |
| Php.RemoveChar | src/Common/Identicon/Base.php:118 | `str_replace('#', '', $hex)` leaves no '#', keeps every other character as many times as the input has it, and leaves a string without '#' as it is |
| Php.RemoveCharAppend | src/Common/Identicon/Base.php:118 | removal works piece by piece (the result for x + y is the result for x followed by the result for y), so the kept characters stay in order |
| Php.IsEmptyString | src/Common/Identicon/Base.php:61 | no contract; `empty` on a string holds exactly for "" and "0" |
| Php.Trim | src/Data/Str.php:209 | no contract; characterised by Php.TrimSpec and Php.TrimIdempotent |
| Php.LooseEquals | src/Data/Str.php:178 | no contract; the loose `==` on strings: the same bytes, or integer strings with the same value inside the 64-bit range; characterised by Php.LooseEqualsOverflow and Str.NewlineExampleNumeric |
| Php.LooseEqualsOverflow | src/Data/Str.php:178 | an integer string past the 64-bit range is loosely equal only to the same bytes |
| Php.HexDec | src/Common/Identicon/Base.php:119-121 | `hexdec` of n characters is below 16^n |
| Php.HexDecDigits | src/Common/Identicon/Base.php:119-121 | one hex digit reads as its value, and two digits read as 16 times the first plus the second |
| Php.RoundQuotient | src/Common/Identicon/Base.php:159 | the result is the integer nearest to n / d, with halves rounded away from zero (PHP's default rounding), for either sign of n |
| Php.Reversed | src/Data/Str.php:47-60 | the reversal has the same length, and position i holds the character at position length - 1 - i |
| Php.ReversedInvolution | src/Data/Str.php:47-60 | reversing twice gives the string back |
| Php.LowerChar | src/Data/Str.php:111-114 | an ASCII capital is lowered (code + 32), and every other character is left as it is |
| Php.UpperChar | src/Data/Str.php:124-127 | an ASCII small letter is raised (code - 32), and every other character is left as it is |
| Php.Lower | src/Data/Str.php:113 | `mb_strtolower` on the whole string, ASCII only: it keeps the length and applies LowerChar at every position |
| Php.Upper | src/Data/Str.php:126 | `mb_strtoupper` on the whole string, ASCII only: it keeps the length and applies UpperChar at every position |
| Base64.Alphabet | src/Data/Str.php:178 | every sextet is written as a character of the Base64 alphabet |
| Base64.ReverseTable | src/Data/Str.php:172 | the decoder reads exactly the alphabet characters as values and exactly `" \t\n\r"` as characters to skip |
| Base64.AlphabetInverse | src/Data/Str.php:172-178 | the decoder's table inverts the alphabet |
| Base64.Sextets | src/Data/Str.php:178 | n bytes give 4 sextets per full group of 3, plus 2 or 3 sextets for a final 1 or 2 bytes |
| Base64.Encode | src/Data/Str.php:178 | `base64_encode` of n bytes has length 4·ceil(n/3) and uses only alphabet characters and '=' |
| Base64.ScanChars | src/Data/Str.php:172 | the decoder's scan reads encoded sextets followed by '=' signs back as those sextets and the count of '=' |
| Base64.ScanPadding | src/Data/Str.php:172 | the scan counts a run of '=' signs |
| Base64.PackSextets | src/Data/Str.php:172 | packing the sextets of a byte string gives the bytes back |
| Base64.QuantumFits | src/Data/Str.php:172 | the sextet count and the padding of every encoding pass the strict decoder's checks |
| Base64.ScanEncode | src/Data/Str.php:172-178 | scanning an encoding gives its sextets and its padding |
| Base64.Scan | src/Data/Str.php:172 | no contract; the decoder's main loop (count '=', skip whitespace, refuse a bad character or data after padding), characterised by Base64.ScanChars, Base64.ScanPadding and Base64.ScanEncode |
| Base64.Pack | src/Data/Str.php:172 | no contract; the decoder's byte packing (24 bits per four sextets, 8 or 16 for a final two or three), characterised by Base64.PackSextets |
| Base64.StrictDecode | src/Data/Str.php:172 | no contract; `base64_decode($s, true)`, characterised by Base64.DecodeEncode and Str.IsBase64Canonical |
| Base64.DecodeEncode | src/Data/Str.php:172-178 | strict decoding inverts encoding on every byte string |
| Identicon.Channel | src/Common/Identicon/Base.php:119-121 | channel k, a value in 0..255, is the two digits at offset 2k of a 6-character string, or 17 × digit k of a 3-character string, or 0 for any other length |
| Identicon.ConvertColor | src/Common/Identicon/Base.php:116-128 | strips '#'. A 6-digit colour gives the three 2-digit values. A 3-digit colour gives 17 × each digit. Any other length gives 0s. There are always three channels, and a truthy alpha replaces channel 2 |
| Identicon.ConvertColorLong | src/Common/Identicon/Base.php:116-128 | "#ff8800" converts to [255, 136, 0] |
| Identicon.ConvertColorShort | src/Common/Identicon/Base.php:116-128 | "f80" converts to [255, 136, 0] |
| Identicon.ConvertColorShortAlpha | src/Common/Identicon/Base.php:116-128 | "f80" with alpha 7 converts to [255, 136, 7] |
| Identicon.ConvertColorOtherLength | src/Common/Identicon/Base.php:116-128 | "#ff88" (4 digits) converts to [0, 0, 0] |
| Identicon.ConvertHexaToBool | src/Common/Identicon/Base.php:157-160 | the bit is true exactly when the character is a hex digit of value 5 or more |
| Identicon.Columns | src/Common/Identicon/Base.php:173-179 | every remainder selects two columns |
| Identicon.SetCellCell | src/Common/Identicon/Base.php:180 | a cell assignment changes that cell and no other |
| Identicon.WriteColumnsCell | src/Common/Identicon/Base.php:179-181 | the inner loop sets exactly the listed columns of the row to the bit and leaves every other cell alone |
| Identicon.Paint | src/Common/Identicon/Base.php:170-181 | no contract; the table after the first n positions of the walk, characterised by Identicon.PaintCell, Identicon.PaintLastHit, Identicon.PaintUntouched, Identicon.PaintCells and Identicon.PaintRows |
| Identicon.PaintStep | src/Common/Identicon/Base.php:170-181 | one more position changes exactly the cells it writes |
| Identicon.RowOfDiv | src/Common/Identicon/Base.php:171-179 | the row and the remainder of a position are `(int) ($i / $block)` and `$i % $block` |
| Identicon.PaintNext | src/Common/Identicon/Base.php:170-181 | the walk over i + 1 positions is the walk over i followed by the writes of position i to row i div b at the columns of i mod b |
| Identicon.PaintCell | src/Common/Identicon/Base.php:170-181 | every cell of the table is the value its write history gives |
| Identicon.PaintLastHit | src/Common/Identicon/Base.php:170-181 | each cell holds the bit of the last position that wrote it |
| Identicon.PaintUntouched | src/Common/Identicon/Base.php:170-184 | a cell no position writes keeps its earlier value, because the table is never reset |
| Identicon.PaintCells | src/Common/Identicon/Base.php:170-181 | after the walk, the table holds exactly its earlier cells plus the cells some position writes |
| Identicon.RowsWritten | src/Common/Identicon/Base.php:170-181 | every row 0 .. (n-1) div b is written, at column 0, by position r·b |
| Identicon.PaintRows | src/Common/Identicon/Base.php:170-181 | the rows of the table are the earlier rows plus rows 0 .. (n-1) div b |
| Identicon.DigestRowCount | src/Common/Identicon/Base.php:170-171 | 32 positions need ceil(32 / b) rows |
| Identicon.DigestRows | src/Common/Identicon/Base.php:169-181 | a 32-character hash adds exactly the rows 0 .. ceil(32/b) - 1 |
| Identicon.PaintShape | src/Common/Identicon/Base.php:170-181 | a walk over at most 32 positions keeps rows in 0..31 and columns among 0, 1, 2, 3, 4, 6, 8 |
| Identicon.Block3Rows | src/Common/Identicon/Base.php:173-181 | with 3 blocks: columns 0, 1/4 and 2/6 of row r hold the bits of positions 3r, 3r+1 and 3r+2; in the last row, column 2 holds the bit of position 30 and column 6 keeps its old value |
| Identicon.Block3NotMirrored | src/Common/Identicon/Base.php:179-181 | columns 0 and 2 of a row differ whenever the bits of characters 0 and 2 differ |
| Identicon.EntriesIn | src/Common/Identicon/Base.php:183 | lists the row's entries for the given keys in ascending key order, exactly those entries |
| Identicon.KSort | src/Common/Identicon/Base.php:183 | `ksort` leaves the row with strictly ascending column keys and exactly the row's (column, bit) pairs |
| Identicon.MatchStarts | src/Common/Identicon/Base.php:185 | the matches of `(\d)\w` are found left to right, they do not overlap, and each one matches |
| Identicon.MatchCovered | src/Common/Identicon/Base.php:185 | no match is missed: every position where the pattern matches is the start or the second character of a reported match |
| Identicon.Captures | src/Common/Identicon/Base.php:185 | the captured group is the digit at each match start, in match order |
| Identicon.TimesSixteen | src/Common/Identicon/Base.php:186-188 | each captured digit d becomes 16·d |
| Identicon.DerivedColor | src/Common/Identicon/Base.php:185-188 | no contract; the colour derived from the hash, characterised by Identicon.DerivedColorSpec |
| Identicon.DerivedColorSpec | src/Common/Identicon/Base.php:185-188 | the colour has one channel per match, the last match first, each 16 × its digit, so in {0, 16, …, 144}, and for a 32-character digest at most 16 channels |
| Identicon.WriteRow | src/Common/Identicon/Base.php:179-181 | the inner loop writes the bit at every listed column of the row, which is the specification `WriteColumns` |
| Identicon.FillTable | src/Common/Identicon/Base.php:169-184 | the outer loop leaves the table the specification `Paint` describes for the whole hash |
| Identicon.Base.constructor | src/Common/Identicon/Base.php:19-49 | a new builder has block count 3, every optional field unset, and an empty table |
| Identicon.Base.SetColor | src/Common/Identicon/Base.php:59-66 | an empty argument ("" or "0") leaves the colour alone, and any other sets it to the converted colour |
| Identicon.Base.SetBgColor | src/Common/Identicon/Base.php:75-82 | as for SetColor, for the background colour |
| Identicon.Base.SetBlock | src/Common/Identicon/Base.php:91-96 | the block count changes only for a value between 1 and 4, and otherwise keeps its earlier value |
| Identicon.Base.GetBlock | src/Common/Identicon/Base.php:103-106 | returns the block count, which is always between 1 and 4 (3 by default) |
| Identicon.Base.GetColor | src/Common/Identicon/Base.php:135-138 | returns the foreground colour, with every channel in 0..255 |
| Identicon.Base.GetBgColor | src/Common/Identicon/Base.php:145-148 | returns the background colour, with every channel in 0..255 |
| Identicon.Base.ConvertHashToArrayOfBoolean | src/Common/Identicon/Base.php:167-191 | the table becomes the walk of the hash over the earlier table, and the foreground colour becomes the derived colour, overwriting any colour set before |
| Identicon.Base.GetArrayOfSquare | src/Common/Identicon/Base.php:198-201 | returns the table, with rows in 0..31 and the seven possible columns |
| Identicon.Base.GetHash | src/Common/Identicon/Base.php:208-211 | returns the hash, which once set is 32 lower-case hex characters |
| Identicon.Base.SetHashString | src/Common/Identicon/Base.php:220-228 | a text that trims to "" or "0" changes nothing and returns nothing. Otherwise the hash becomes md5 of the untrimmed text, the table is walked with it, the colour is derived from it, and `$this` is returned |
| Identicon.Base.SetSize | src/Common/Identicon/Base.php:237-245 | 0 changes nothing and returns nothing. Any other size is stored with the pixel ratio round(size / 5), and `$this` is returned |
| Identicon.Base.GetSize | src/Common/Identicon/Base.php:252-255 | returns the size, which is never 0 once set |
| Identicon.Base.GetPxRatio | src/Common/Identicon/Base.php:262-265 | the pixel ratio is set exactly when the size is, and is within 2/5 of a fifth of it |
| Identicon.PxRatioClosedForm | src/Common/Identicon/Base.php:241 | round(n / 5) is (n + 2) div 5, since a fifth is never a tie; e.g. 100 gives 20 |
| Str.Substring | src/Data/Str.php:195-198 | `mb_substr` never returns more characters than the string has |
| Str.SubstringInfix | src/Data/Str.php:195-198 | the result is always a contiguous piece of the string |
| Str.SubstringInRange | src/Data/Str.php:195-198 | inside the string, a start and a length take exactly those characters, and no length takes the rest |
| Str.SubstringFromEnd | src/Data/Str.php:195-198 | a negative start -k takes the last k characters |
| Str.SubstringOne | src/Data/Str.php:57 | `mb_substr($str, $i, 1)` is the character at i |
| Str.Count | src/Data/Str.php:87-101 | with mbstring, the character count. Without it, for a non-empty string: the position of the first NUL at index 1 or later, or the length when there is none, so a NUL-free string gives its length |
| Str.Reverse | src/Data/Str.php:47-60 | the loop over indices count-1 down to 0 builds the reversal of the string |
| Str.Concat | src/Data/Str.php:72-75 | no contract; `implode`, characterised by Str.ConcatLength |
| Str.ConcatLength | src/Data/Str.php:72-75 | no pieces join to "", one piece joins to itself, and n pieces join to their total length plus (n - 1) separators |
| Str.HasUpperCase | src/Data/Str.php:111-114 | no contract; characterised by Str.HasCaseSpec |
| Str.HasLowerCase | src/Data/Str.php:124-127 | no contract; characterised by Str.HasCaseSpec |
| Str.HasCaseSpec | src/Data/Str.php:111-127 | `hasUpperCase` holds exactly when some character is a capital, and `hasLowerCase` exactly when some character is a small letter |
| Str.SwapChar | src/Data/Str.php:139-149 | a capital becomes its small letter, a small letter becomes its capital, and anything else stays |
| Str.SwapCase | src/Data/Str.php:139-152 | the case swap keeps the length |
| Str.ConvertCase | src/Data/Str.php:137-155 | with mbstring, the loop overwrites each character with its swapped case, giving `SwapCase`; without mbstring, the string comes back unchanged |
| Str.SwapCaseInvolution | src/Data/Str.php:137-155 | swapping the case twice gives the string back |
| Str.SwapCaseTests | src/Data/Str.php:111-155 | the swapped string has a capital exactly when the original has a small letter, and the other way round |
| Str.TrailingEquals | src/Data/Str.php:167 | counts the run of '=' at the end, and no more |
| Str.MatchesPattern | src/Data/Str.php:167 | no contract; the pattern `^[a-zA-Z0-9\/\r\n+]*={0,2}$`, where `$` also matches before a final newline; characterised by Str.PatternRejects and Str.EncodeMatches |
| Str.IsBase64AsWritten | src/Data/Str.php:164-183 | no contract; `isBase64` as written, with the loose `!=`, for strings whose loose comparison is in integer notation (float notation is under "## Left out"); characterised by Str.PatternRejects, Str.IsBase64Empty and Str.IsBase64AsWrittenAcceptsNewline |
| Str.IsBase64 | src/Data/Str.php:164-183 | no contract; `isBase64` with a strict comparison; characterised by Str.IsBase64Canonical, Str.IsBase64NoLineBreaks and Str.PatternRejects |
| Str.PatternRejects | src/Data/Str.php:167-169 | a character outside `[a-zA-Z0-9/\r\n+]` and '=' fails the pattern, so neither version of `isBase64` accepts the string |
| Str.EncodeMatches | src/Data/Str.php:167 | every Base64 encoding matches the pattern |
| Str.IsBase64Canonical | src/Data/Str.php:164-183 | the corrected test accepts exactly the strings that are the Base64 encoding of some bytes |
| Str.IsBase64Empty | src/Data/Str.php:164-183 | the empty string is accepted |
| Str.IsBase64NoLineBreaks | src/Data/Str.php:178-180 | an accepted string holds no `\r` and no `\n` |
| Str.IsBase64AsWrittenAcceptsNewline | src/Data/Str.php:178 | the code as written accepts "\n1234", which is not an encoding; the corrected test rejects it |
| Str.StripWhitespaces | src/Data/Str.php:207-210 | no contract; `trim`, characterised by Str.StripWhitespacesSpec, Str.StripWhitespacesInfix and Php.TrimSpec |
| Str.StripWhitespacesSpec | src/Data/Str.php:207-210 | the stripped string neither starts nor ends with a trim character, and stripping is idempotent |
| Str.StripWhitespacesInfix | src/Data/Str.php:207-210 | the stripped string is a contiguous piece of the input |
| Str.Repeated | src/Data/Str.php:220-223 | k repetitions have length \|s\|·k |
| Str.Repeat | src/Data/Str.php:220-223 | a negative count is refused, and otherwise the result has length \|s\|·count |
| Str.RepeatDefault | src/Data/Str.php:220-223 | without a count (the default `$amount = 1`), the string comes back once |
| Str.RepeatedAdd | src/Data/Str.php:220-223 | repeating a + b times is repeating a times followed by b times |
| Str.Slice | src/Data/Str.php:234-248 | `false` exactly when a length is given and, after negative values are shifted by the length of the string, it is smaller than the start |
| Str.SliceWhole | src/Data/Str.php:234-248 | a start of 0 with no length, or with a length of 0, gives the whole string |
| Str.SliceInRange | src/Data/Str.php:234-248 | inside the string, with start ≤ length, the slice is the `length` characters from `start` |
| Str.SliceRefusesShortLength | src/Data/Str.php:243-245 | `slice("abcdef", 3, 2)` is `false` even though two characters from index 3 exist |

## Left out

- `md5` is not modelled. It is a function-typed parameter of `Identicon.Base.SetHashString`, and the caller guarantees that it returns 32 lower-case hex characters.
- `shuffle` (`str_shuffle`) is not modelled, because it is random.
- The encoding parameters and `encoding()` (`mb_internal_encoding`) are not modelled, because they depend on the environment. `reverse` drops the encoding anyway.
- Multibyte characters and full Unicode case mapping are not modelled. Characters are ASCII characters, and case mapping covers ASCII letters only. On a lone byte of 0x80 or more, which is not valid UTF-8, `ConvertCase`'s `preg_split(..., /u)` returns false and PHP 8's `implode` then throws a `TypeError`; that error path is not modelled.
- PHP's loose typing of arguments is not modelled.
  - `setBlock` and `setSize` take integers; float and numeric-string arguments are left out.
  - Colours are strings.
- Str.IsBase64AsWritten: digit strings with an 'e'/'E' exponent (optionally signed with '+') and a leading or trailing "\r"/"\n" (e.g. "\n1e10", which decodes to bytes that re-encode as "1e10") are accepted by PHP's loose `!=`, because both sides read as the same double, but rejected by the model, whose loose comparison knows only integer notation (see Php.LooseEquals).
- Php.LooseEquals: modelled only for numeric strings in integer notation, with PHP 8's 64-bit overflow rule. Float notation ("1e3", "1.0"), which PHP compares as doubles, is left out.
- Php.HexDec: reads hex digits and skips every other character, as `hexdec` does. Its switch to a float result beyond the integer range is left out, because it cannot occur for the strings of at most 6 characters it is given here.
- Identicon.Base.SetSize: `$size / 5` is a double in PHP when the division is not exact, so for \|size\| above 2^53 PHP's rounded pixel ratio can differ from the exact `RoundQuotient(n, 5)`, and PHP returns it as a float. The model uses exact integers.
- The unused `image` field and any rendering of the identicon are left out. The class has no code for them.
- Str.Count: the fallback path on the empty string is excluded by a precondition. That path reads out of range and never ends.
- Identicon.KSort: a map has no order, so `ksort` is modelled as the ordered view of a row rather than as a reordering in place. `FillTable` leaves the row's contents as they are at that step.
- Identicon.FillTable: the walk computes the new table on a local value, which `ConvertHashToArrayOfBoolean` then assigns to the field once. The PHP code writes the field cell by cell; the final state is the same.
- Identicon.Base.ConvertHashToArrayOfBoolean: it is private and requires the class invariant without the digest clause, with a hash of at most 32 characters. The only caller, `SetHashString`, supplies that.
- Identicon.Grid: the nested array `$arrayOfSquare[$r][$c]` is one map keyed by (row, column). A row exists exactly when it has some cell, and in the code rows are only created by writing a cell, so the two agree.
- Identicon.Base.constructor: the table starts as the empty map, whereas PHP's `$arrayOfSquare` starts as null, so `getArrayOfSquare()` returns null before any hash is set; the model returns an empty table there.
- Identicon.Base.SetHashString and Identicon.Base.SetSize return `chained` in place of `$this` or nothing.
- Str.Slice, Str.Substring: `strlen` and `mb_strlen` are the same on single-byte characters. On multibyte input, `slice`'s mix of the two is not modelled.
- Str.Repeat: PHP 8 throws a `ValueError` for a negative count. The model returns None instead.

## Findings

| source | as written | input that shows it | evidently intended | confidence | as-written member | corrected member |
|---|---|---|---|---|---|---|
| src/Data/Str.php:178 | the re-encoded string is compared with the loose `!=`, so a numeric string counts as equal to one that differs only in surrounding whitespace | "\n1234": the pattern lets it through, the strict decoder skips the newline, the bytes re-encode as "1234", and "1234" == "\n1234" holds numerically, so `isBase64` returns true | accept only canonical encodings, comparing with `!==` | not executed | Str.IsBase64AsWritten, Str.IsBase64AsWrittenAcceptsNewline | Str.IsBase64, Str.IsBase64Canonical |
