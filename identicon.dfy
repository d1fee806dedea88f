/** The identicon builder of `Zest\Common\Identicon\Base`: guarded setters,
    the hexadecimal colour conversion, and the walk over the 32 characters of
    an MD5 digest that fills a row -> column -> bool table and derives the
    foreground colour from the digest. */
module Identicon {
  import opened Php

  /** A colour as the list of its channels (red, green, blue, ...). */
  type Rgb = seq<int>
  /** `$arrayOfSquare`, the nested array `$arrayOfSquare[$r][$c]`, as one map
      from (row, column) pairs: the entry at (r, c) is `$arrayOfSquare[r][c]`. */
  type Grid = map<(int, int), bool>

  predicate IsLowerHex(c: char) { '0' <= c <= '9' || 'a' <= c <= 'f' }

  /** What `md5` returns: 32 lower-case hexadecimal characters. */
  predicate IsDigest(h: string)
  {
    |h| == 32 && forall i :: 0 <= i < |h| ==> IsLowerHex(h[i])
  }

  /** Every channel fits in a byte. */
  predicate IsRgb(c: Rgb)
  {
    forall k :: 0 <= k < |c| ==> 0 <= c[k] <= 255
  }

  predicate AllHex(h: string)
  {
    forall i :: 0 <= i < |h| ==> IsHexDigit(h[i])
  }

  /** Channel `k` as `convertColor` reads it from the '#'-free string `h`: two
      digits at offset 2k of a 6-character string, digit k doubled in a
      3-character one, and `hexdec(0)` otherwise. */
  function Channel(h: string, k: nat): (v: int)
    requires k < 3
    ensures 0 <= v <= 255
    ensures |h| == 6 && IsHexDigit(h[2 * k]) && IsHexDigit(h[2 * k + 1]) ==>
      v == 16 * HexValue(h[2 * k]) + HexValue(h[2 * k + 1])
    ensures |h| == 3 && IsHexDigit(h[k]) ==> v == 17 * HexValue(h[k])
    ensures |h| != 6 && |h| != 3 ==> v == 0
  {
    if |h| == 6 then
      assert h[2 * k..2 * k + 2] == [h[2 * k], h[2 * k + 1]];
      HexDecDigits(h[2 * k], h[2 * k + 1]);
      HexDec(h[2 * k..2 * k + 2])
    else if |h| == 3 then
      HexDecDigits(h[k], h[k]);
      HexDec([h[k], h[k]])
    else
      HexDecDigits('0', '0');
      HexDec("0")
  }

  /** `convertColor($hex, $alpha)`; a non-zero `alpha` stands for a truthy
      `$alpha` and takes the place of channel 2. */
  function ConvertColor(hex: string, alpha: int): (rgb: Rgb)
    ensures |rgb| == 3
    ensures 0 <= rgb[0] <= 255 && 0 <= rgb[1] <= 255
    ensures alpha == 0 ==> 0 <= rgb[2] <= 255
    ensures alpha != 0 ==> rgb[2] == alpha
    ensures var h := RemoveChar(hex, '#');
      |h| == 6 && AllHex(h) ==>
        rgb[0] == 16 * HexValue(h[0]) + HexValue(h[1]) &&
        rgb[1] == 16 * HexValue(h[2]) + HexValue(h[3]) &&
        (alpha == 0 ==> rgb[2] == 16 * HexValue(h[4]) + HexValue(h[5]))
    ensures var h := RemoveChar(hex, '#');
      |h| == 3 && AllHex(h) ==>
        rgb[0] == 17 * HexValue(h[0]) && rgb[1] == 17 * HexValue(h[1]) &&
        (alpha == 0 ==> rgb[2] == 17 * HexValue(h[2]))
    ensures var h := RemoveChar(hex, '#');
      |h| != 6 && |h| != 3 ==> rgb[0] == 0 && rgb[1] == 0 && (alpha == 0 ==> rgb[2] == 0)
  {
    var h := RemoveChar(hex, '#');
    var rgb := [Channel(h, 0), Channel(h, 1), Channel(h, 2)];
    if alpha != 0 then rgb[2 := alpha] else rgb
  }

  /** `convertHexaToBool`: `(bool) round(hexdec($c) / 10)`. */
  function ConvertHexaToBool(c: char): (b: bool)
    ensures b <==> IsHexDigit(c) && HexValue(c) >= 5
  {
    HexDecDigits(c, c);
    RoundQuotient(HexDec([c]), 10) != 0
  }

  /** The column look-up `$items`: the columns a hash position with remainder
      `rem` writes. */
  function Columns(rem: int): (cols: seq<int>)
    requires 0 <= rem < 4
    ensures |cols| == 2
  {
    [[0, 2], [1, 4], [2, 6], [3, 8]][rem]
  }

  /** The cell at row `r`, column `c`, or None when the table has none. */
  function Cell(g: Grid, r: int, c: int): Option<bool>
  {
    if (r, c) in g then Some(g[(r, c)]) else None
  }

  /** `$arrayOfSquare[$r][$c] = $v`, which creates row `r` when it is missing. */
  function SetCell(g: Grid, r: int, c: int, v: bool): Grid
  {
    g[(r, c) := v]
  }

  /** Setting a cell changes that cell and no other. */
  lemma SetCellCell(g: Grid, r: int, c: int, v: bool, r': int, c': int)
    ensures Cell(SetCell(g, r, c, v), r', c') == if r' == r && c' == c then Some(v) else Cell(g, r', c')
  {
  }

  /** The inner `foreach`: writes `v` into every column of `cols` in row `r`. */
  function WriteColumns(g: Grid, r: int, cols: seq<int>, v: bool): Grid
    decreases |cols|
  {
    if cols == [] then g
    else SetCell(WriteColumns(g, r, cols[..|cols| - 1], v), r, cols[|cols| - 1], v)
  }

  /** Writing a row's columns changes exactly those cells. */
  lemma {:induction false} WriteColumnsCell(g: Grid, r: int, cols: seq<int>, v: bool, r': int, c': int)
    ensures Cell(WriteColumns(g, r, cols, v), r', c') == if r' == r && c' in cols then Some(v) else Cell(g, r', c')
    decreases |cols|
  {
    if cols != [] {
      var init := cols[..|cols| - 1];
      assert c' in cols <==> c' in init || c' == cols[|cols| - 1];
      WriteColumnsCell(g, r, init, v, r', c');
      SetCellCell(WriteColumns(g, r, init, v), r, cols[|cols| - 1], v, r', c');
    }
  }

  /** `(int) ($i / $b)` for a block count 1 .. 4, written per block count so
      that every division is by a constant. */
  function RowOf(i: nat, b: int): nat
    requires 1 <= b <= 4
  {
    if b == 1 then i else if b == 2 then i / 2 else if b == 3 then i / 3 else i / 4
  }

  /** `$i % $b` for a block count 1 .. 4. */
  function RemOf(i: nat, b: int): (m: int)
    requires 1 <= b <= 4
    ensures 0 <= m < b
  {
    if b == 1 then 0 else if b == 2 then i % 2 else if b == 3 then i % 3 else i % 4
  }

  /** The table after the first `n` positions of `h` have been written with
      block count `b`: position i writes its bit into row i div b at the
      columns of remainder i mod b. */
  function Paint(g: Grid, h: string, b: int, n: nat): Grid
    requires 1 <= b <= 4 && n <= |h|
    decreases n
  {
    if n == 0 then g
    else
      var i := n - 1;
      WriteColumns(Paint(g, h, b, i), RowOf(i, b), Columns(RemOf(i, b)), ConvertHexaToBool(h[i]))
  }

  /** Position `i` writes the cell at row `r`, column `c`. */
  predicate Hits(i: int, b: int, r: int, c: int)
    requires 1 <= b <= 4 && 0 <= i
  {
    RowOf(i, b) == r && c in Columns(RemOf(i, b))
  }

  /** Position `j` is the last of the first `n` positions that writes (r, c). */
  predicate LastHit(j: int, n: int, b: int, r: int, c: int)
    requires 1 <= b <= 4
  {
    0 <= j < n && Hits(j, b, r, c) && forall k :: j < k < n ==> !Hits(k, b, r, c)
  }

  /** One cell of the table through the walk: the value the first `n`
      positions leave at row `r`, column `c`. */
  function CellAfter(g: Grid, h: string, b: int, n: nat, r: int, c: int): Option<bool>
    requires 1 <= b <= 4 && n <= |h|
    decreases n
  {
    if n == 0 then Cell(g, r, c)
    else if Hits(n - 1, b, r, c) then Some(ConvertHexaToBool(h[n - 1]))
    else CellAfter(g, h, b, n - 1, r, c)
  }

  /** One more position changes only the cells it writes. */
  lemma PaintStep(g: Grid, h: string, b: int, n: nat, r: int, c: int)
    requires 1 <= b <= 4 && 0 < n <= |h|
    ensures Cell(Paint(g, h, b, n), r, c) ==
      if Hits(n - 1, b, r, c) then Some(ConvertHexaToBool(h[n - 1])) else Cell(Paint(g, h, b, n - 1), r, c)
  {
    var i := n - 1;
    WriteColumnsCell(Paint(g, h, b, i), RowOf(i, b), Columns(RemOf(i, b)), ConvertHexaToBool(h[i]), r, c);
  }

  /** RowOf and RemOf are the division and the remainder they stand for. */
  lemma RowOfDiv(i: nat, b: int)
    requires 1 <= b <= 4
    ensures i / b == RowOf(i, b) && i % b == RemOf(i, b)
  {
  }

  /** One step of the walk with the division written out, as the loop does it. */
  lemma PaintNext(g: Grid, h: string, b: int, i: nat)
    requires 1 <= b <= 4 && i < |h|
    ensures 0 <= i % b < 4
    ensures Paint(g, h, b, i + 1) == WriteColumns(Paint(g, h, b, i), i / b, Columns(i % b), ConvertHexaToBool(h[i]))
  {
    RowOfDiv(i, b);
  }

  lemma PaintCellStep(g: Grid, h: string, b: int, i: nat, r: int, c: int)
    requires 1 <= b <= 4 && i < |h|
    requires Cell(Paint(g, h, b, i), r, c) == CellAfter(g, h, b, i, r, c)
    ensures Cell(Paint(g, h, b, i + 1), r, c) == CellAfter(g, h, b, i + 1, r, c)
  {
    PaintStep(g, h, b, i + 1, r, c);
  }

  /** The table is the cell-by-cell history. */
  lemma {:induction false} PaintCell(g: Grid, h: string, b: int, n: nat, r: int, c: int)
    requires 1 <= b <= 4 && n <= |h|
    ensures Cell(Paint(g, h, b, n), r, c) == CellAfter(g, h, b, n, r, c)
  {
    if n > 0 {
      PaintCell(g, h, b, n - 1, r, c);
      PaintCellStep(g, h, b, n - 1, r, c);
    }
  }

  /** Each cell holds the bit of the last position that wrote it. */
  lemma {:induction false} PaintLastHit(g: Grid, h: string, b: int, n: nat, j: int, r: int, c: int)
    requires 1 <= b <= 4 && n <= |h| && LastHit(j, n, b, r, c)
    ensures Cell(Paint(g, h, b, n), r, c) == Some(ConvertHexaToBool(h[j]))
  {
    PaintCell(g, h, b, n, r, c);
    CellAfterLastHit(g, h, b, n, j, r, c);
  }

  lemma {:induction false} CellAfterLastHit(g: Grid, h: string, b: int, n: nat, j: int, r: int, c: int)
    requires 1 <= b <= 4 && n <= |h| && LastHit(j, n, b, r, c)
    ensures CellAfter(g, h, b, n, r, c) == Some(ConvertHexaToBool(h[j]))
    decreases n
  {
    if j < n - 1 {
      assert !Hits(n - 1, b, r, c);
      CellAfterLastHit(g, h, b, n - 1, j, r, c);
    }
  }

  /** A cell no position wrote keeps its earlier value: the table is never reset. */
  lemma PaintUntouched(g: Grid, h: string, b: int, n: nat, r: int, c: int)
    requires 1 <= b <= 4 && n <= |h|
    requires forall j :: 0 <= j < n ==> !Hits(j, b, r, c)
    ensures Cell(Paint(g, h, b, n), r, c) == Cell(g, r, c)
  {
    PaintCell(g, h, b, n, r, c);
    CellAfterUntouched(g, h, b, n, r, c);
  }

  lemma {:induction false} CellAfterUntouched(g: Grid, h: string, b: int, n: nat, r: int, c: int)
    requires 1 <= b <= 4 && n <= |h|
    requires forall j :: 0 <= j < n ==> !Hits(j, b, r, c)
    ensures CellAfter(g, h, b, n, r, c) == Cell(g, r, c)
    decreases n
  {
    if n > 0 {
      assert !Hits(n - 1, b, r, c);
      CellAfterUntouched(g, h, b, n - 1, r, c);
    }
  }

  /** Row `r` of the table exists: `isset($arrayOfSquare[$r])`. */
  ghost predicate HasRow(g: Grid, r: int)
  {
    exists c :: (r, c) in g
  }

  /** A cell some position writes is present once the walk is past it. */
  lemma {:induction false} CellAfterWritten(g: Grid, h: string, b: int, n: nat, j: int, r: int, c: int)
    requires 1 <= b <= 4 && n <= |h| && 0 <= j < n && Hits(j, b, r, c)
    ensures CellAfter(g, h, b, n, r, c).Some?
    decreases n
  {
    if !Hits(n - 1, b, r, c) {
      CellAfterWritten(g, h, b, n - 1, j, r, c);
    }
  }

  /** The table holds exactly the cells it held before and the cells some
      position writes. */
  lemma PaintCells(g: Grid, h: string, b: int, n: nat, r: int, c: int)
    requires 1 <= b <= 4 && n <= |h|
    ensures (r, c) in Paint(g, h, b, n) <==> (r, c) in g || exists j :: 0 <= j < n && Hits(j, b, r, c)
  {
    PaintCell(g, h, b, n, r, c);
    if exists j :: 0 <= j < n && Hits(j, b, r, c) {
      var j :| 0 <= j < n && Hits(j, b, r, c);
      CellAfterWritten(g, h, b, n, j, r, c);
    } else {
      CellAfterUntouched(g, h, b, n, r, c);
    }
  }

  /** The rows positions 0 .. n - 1 write are 0 .. (n - 1) div b; position
      r * b starts row r at column 0. */
  lemma RowsWritten(b: int, n: nat, r: int) returns (j: int)
    requires 1 <= b <= 4 && 0 < n && 0 <= r <= RowOf(n - 1, b)
    ensures 0 <= j < n && Hits(j, b, r, 0)
  {
    j := r * b;
    assert RowOf(j, b) == r && RemOf(j, b) == 0;
  }

  lemma RowBound(b: int, n: nat, j: nat)
    requires 1 <= b <= 4 && j < n
    ensures RowOf(j, b) <= RowOf(n - 1, b)
  {
  }

  /** The rows of the table are the earlier rows and the rows 0 .. (n - 1) div b
      the first n positions write: no row is skipped. */
  lemma PaintRows(g: Grid, h: string, b: int, n: nat, r: int)
    requires 1 <= b <= 4 && n <= |h|
    ensures HasRow(Paint(g, h, b, n), r) <==> HasRow(g, r) || (n > 0 && 0 <= r <= RowOf(n - 1, b))
  {
    var p := Paint(g, h, b, n);
    if HasRow(p, r) {
      var c :| (r, c) in p;
      PaintCells(g, h, b, n, r, c);
      if (r, c) !in g {
        var j :| 0 <= j < n && Hits(j, b, r, c);
        RowBound(b, n, j);
      }
    }
    if HasRow(g, r) {
      var c :| (r, c) in g;
      PaintCells(g, h, b, n, r, c);
    }
    if n > 0 && 0 <= r <= RowOf(n - 1, b) {
      var j := RowsWritten(b, n, r);
      PaintCells(g, h, b, n, r, 0);
    }
  }

  /** The number of rows a digest fills: ceil(32 / b). */
  function DigestRowCount(b: int): (k: int)
    requires 1 <= b <= 4
    ensures (k - 1) * b < 32 <= k * b
  {
    if b == 1 then 32 else if b == 2 then 16 else if b == 3 then 11 else 8
  }

  lemma LastRow(b: int, n: nat)
    requires 1 <= b <= 4 && n == 32
    ensures RowOf(n - 1, b) == DigestRowCount(b) - 1
  {
  }

  /** A digest adds the rows 0 .. ceil(32 / b) - 1, and no other. */
  lemma DigestRows(g: Grid, h: string, b: int, r: int)
    requires 1 <= b <= 4 && |h| == 32
    ensures HasRow(Paint(g, h, b, |h|), r) <==> HasRow(g, r) || 0 <= r < DigestRowCount(b)
  {
    PaintRows(g, h, b, |h|, r);
    LastRow(b, |h|);
  }

  const ColumnKeys: set<int> := {0, 1, 2, 3, 4, 6, 8}

  /** The shape every table keeps: rows 0 .. 31 and columns among 0, 1, 2, 3, 4, 6, 8. */
  predicate GridShape(g: Grid)
  {
    forall p :: p in g ==> 0 <= p.0 < 32 && p.1 in ColumnKeys
  }

  lemma {:induction false} WriteColumnsShape(g: Grid, r: int, cols: seq<int>, v: bool)
    requires GridShape(g) && 0 <= r < 32
    requires forall k :: 0 <= k < |cols| ==> cols[k] in ColumnKeys
    ensures GridShape(WriteColumns(g, r, cols, v))
    decreases |cols|
  {
    if cols != [] {
      WriteColumnsShape(g, r, cols[..|cols| - 1], v);
    }
  }

  lemma PaintShapeStep(g: Grid, h: string, b: int, i: nat)
    requires 1 <= b <= 4 && i < |h| && i < 32 && GridShape(Paint(g, h, b, i))
    ensures GridShape(Paint(g, h, b, i + 1))
  {
    WriteColumnsShape(Paint(g, h, b, i), RowOf(i, b), Columns(RemOf(i, b)), ConvertHexaToBool(h[i]));
  }

  /** The walk over at most 32 positions keeps the shape. */
  lemma {:induction false} PaintShape(g: Grid, h: string, b: int, n: nat)
    requires 1 <= b <= 4 && n <= |h| && n <= 32 && GridShape(g)
    ensures GridShape(Paint(g, h, b, n))
  {
    if n > 0 {
      PaintShape(g, h, b, n - 1);
      PaintShapeStep(g, h, b, n - 1);
    }
  }

  /** Which of the 32 positions write which cells of a row with the default
      block count 3: column 0 is written last by position 3r, columns 1 and 4
      by 3r+1, columns 2 and 6 by 3r+2; the last row 10 only gets positions 30
      and 31, so its column 2 comes from 30 and its column 6 is never written. */
  lemma Block3HitsLeft(r: int)
    requires 0 <= r <= 10
    ensures LastHit(3 * r, 32, 3, r, 0)
  {
  }

  lemma Block3HitsMiddle(r: int)
    requires 0 <= r <= 10
    ensures LastHit(3 * r + 1, 32, 3, r, 1) && LastHit(3 * r + 1, 32, 3, r, 4)
  {
  }

  lemma Block3HitsRight(r: int)
    requires 0 <= r < 10
    ensures LastHit(3 * r + 2, 32, 3, r, 2) && LastHit(3 * r + 2, 32, 3, r, 6)
  {
  }

  lemma Block3HitsLastRow()
    ensures LastHit(30, 32, 3, 10, 2) && forall j :: 0 <= j < 32 ==> !Hits(j, 3, 10, 6)
  {
  }

  lemma Block3Left(g: Grid, h: string, r: int)
    requires |h| == 32 && 0 <= r <= 10
    ensures Cell(Paint(g, h, 3, |h|), r, 0) == Some(ConvertHexaToBool(h[3 * r]))
  {
    Block3HitsLeft(r);
    PaintLastHit(g, h, 3, |h|, 3 * r, r, 0);
  }

  lemma Block3Middle(g: Grid, h: string, r: int)
    requires |h| == 32 && 0 <= r <= 10
    ensures Cell(Paint(g, h, 3, |h|), r, 1) == Some(ConvertHexaToBool(h[3 * r + 1]))
    ensures Cell(Paint(g, h, 3, |h|), r, 4) == Some(ConvertHexaToBool(h[3 * r + 1]))
  {
    Block3HitsMiddle(r);
    PaintLastHit(g, h, 3, |h|, 3 * r + 1, r, 1);
    PaintLastHit(g, h, 3, |h|, 3 * r + 1, r, 4);
  }

  lemma Block3Right(g: Grid, h: string, r: int)
    requires |h| == 32 && 0 <= r < 10
    ensures Cell(Paint(g, h, 3, |h|), r, 2) == Some(ConvertHexaToBool(h[3 * r + 2]))
    ensures Cell(Paint(g, h, 3, |h|), r, 6) == Some(ConvertHexaToBool(h[3 * r + 2]))
  {
    Block3HitsRight(r);
    PaintLastHit(g, h, 3, |h|, 3 * r + 2, r, 2);
    PaintLastHit(g, h, 3, |h|, 3 * r + 2, r, 6);
  }

  lemma Block3LastRow(g: Grid, h: string)
    requires |h| == 32
    ensures Cell(Paint(g, h, 3, |h|), 10, 2) == Some(ConvertHexaToBool(h[30]))
    ensures Cell(Paint(g, h, 3, |h|), 10, 6) == Cell(g, 10, 6)
  {
    Block3HitsLastRow();
    PaintLastHit(g, h, 3, |h|, 30, 10, 2);
    PaintUntouched(g, h, 3, |h|, 10, 6);
  }

  /** With the default block count 3, column 2 of a full row holds the bit of
      position 3r+2 while column 0 holds that of 3r, so rows are not mirror
      images. */
  lemma Block3Rows(g: Grid, h: string, r: int)
    requires |h| == 32 && 0 <= r <= 10
    ensures var p := Paint(g, h, 3, |h|);
      && Cell(p, r, 0) == Some(ConvertHexaToBool(h[3 * r]))
      && Cell(p, r, 1) == Some(ConvertHexaToBool(h[3 * r + 1]))
      && Cell(p, r, 4) == Some(ConvertHexaToBool(h[3 * r + 1]))
      && (r < 10 ==> Cell(p, r, 2) == Some(ConvertHexaToBool(h[3 * r + 2])))
      && (r < 10 ==> Cell(p, r, 6) == Some(ConvertHexaToBool(h[3 * r + 2])))
      && (r == 10 ==> Cell(p, r, 2) == Some(ConvertHexaToBool(h[30])))
      && (r == 10 ==> Cell(p, r, 6) == Cell(g, r, 6))
  {
    Block3Left(g, h, r);
    Block3Middle(g, h, r);
    if r < 10 {
      Block3Right(g, h, r);
    } else {
      Block3LastRow(g, h);
    }
  }

  /** A digest whose characters 0 and 2 give different bits has a row 0 whose
      columns 0 and 2 differ. */
  lemma Block3NotMirrored(g: Grid, h: string)
    requires |h| == 32 && ConvertHexaToBool(h[0]) != ConvertHexaToBool(h[2])
    ensures Cell(Paint(g, h, 3, |h|), 0, 0) != Cell(Paint(g, h, 3, |h|), 0, 2)
  {
    Block3Rows(g, h, 0);
  }

  /** The columns a table can hold, in ascending order. */
  const ColumnOrder: seq<int> := [0, 1, 2, 3, 4, 6, 8]

  /** The entries of row `r` whose columns appear in `keys`, in the order of `keys`. */
  function EntriesIn(g: Grid, r: int, keys: seq<int>): (es: seq<(int, bool)>)
    requires forall i, j :: 0 <= i < j < |keys| ==> keys[i] < keys[j]
    ensures forall i, j :: 0 <= i < j < |es| ==> es[i].0 < es[j].0
    ensures forall c, v :: (c, v) in es <==> c in keys && (r, c) in g && g[(r, c)] == v
    decreases |keys|
  {
    if keys == [] then []
    else
      var rest := EntriesIn(g, r, keys[1..]);
      assert forall i :: 0 <= i < |rest| ==> rest[i].0 in keys[1..] && keys[0] < rest[i].0;
      if (r, keys[0]) in g then [(keys[0], g[(r, keys[0])])] + rest else rest
  }

  /** `ksort($arrayOfSquare[$r])`: the entries of row `r` in ascending column
      order. The map has no order of its own; this is the order `ksort`
      leaves the row in. */
  function KSort(g: Grid, r: int): (es: seq<(int, bool)>)
    requires GridShape(g)
    ensures forall i, j :: 0 <= i < j < |es| ==> es[i].0 < es[j].0
    ensures forall c, v :: (c, v) in es <==> (r, c) in g && g[(r, c)] == v
  {
    EntriesIn(g, r, ColumnOrder)
  }

  /** The regular expression `(\d)[\w]` matches at position p. */
  predicate MatchAt(h: string, p: int)
  {
    0 <= p && p + 1 < |h| && IsDecimal(h[p]) &&
    ('a' <= h[p + 1] <= 'z' || 'A' <= h[p + 1] <= 'Z' || IsDecimal(h[p + 1]) || h[p + 1] == '_')
  }

  /** Where `preg_match_all('/(\d)[\w]/', $h)` finds its matches when it
      scans from position p: left to right, a match consumes two characters. */
  function MatchStarts(h: string, p: nat): (ps: seq<int>)
    requires p <= |h|
    ensures forall k :: 0 <= k < |ps| ==> p <= ps[k] && MatchAt(h, ps[k])
    ensures forall k :: 0 <= k < |ps| - 1 ==> ps[k] + 2 <= ps[k + 1]
    ensures 2 * |ps| <= |h| - p
    decreases |h| - p
  {
    if p + 1 >= |h| then []
    else if MatchAt(h, p) then [p] + MatchStarts(h, p + 2)
    else MatchStarts(h, p + 1)
  }

  /** No match is missed: every position from p on where the pattern matches
      starts a match the scan reports, or is the second character of one; `k`
      is the index of that match. */
  lemma {:induction false} MatchCovered(h: string, p: nat, q: int) returns (k: nat)
    requires p <= |h| && p <= q && MatchAt(h, q)
    ensures var ps := MatchStarts(h, p); k < |ps| && (ps[k] == q || ps[k] + 1 == q)
    decreases |h| - p
  {
    if MatchAt(h, p) {
      if q <= p + 1 {
        k := 0;
      } else {
        var k' := MatchCovered(h, p + 2, q);
        k := k' + 1;
      }
    } else {
      k := MatchCovered(h, p + 1, q);
    }
  }

  /** The digits the group `(\d)` captures, in the order the matches are found. */
  function Captures(h: string): (ds: string)
    ensures var ps := MatchStarts(h, 0);
      |ds| == |ps| && forall k :: 0 <= k < |ds| ==> ds[k] == h[ps[k]]
    ensures forall k :: 0 <= k < |ds| ==> IsDecimal(ds[k])
    ensures 2 * |ds| <= |h|
  {
    var ps := MatchStarts(h, 0);
    seq(|ps|, k requires 0 <= k < |ps| => h[ps[k]])
  }

  /** `array_map(fn ($d) => hexdec($d) * 16, $ds)` on decimal digits. */
  function TimesSixteen(ds: string): (rgb: Rgb)
    requires forall k :: 0 <= k < |ds| ==> IsDecimal(ds[k])
    ensures |rgb| == |ds|
    ensures forall k :: 0 <= k < |rgb| ==> rgb[k] == 16 * (ds[k] as int - '0' as int)
  {
    seq(|ds|, k requires 0 <= k < |ds| => DigitTimesSixteen(ds[k]))
  }

  /** `hexdec($d) * 16` for one decimal digit. */
  function DigitTimesSixteen(d: char): (v: int)
    requires IsDecimal(d)
    ensures v == 16 * (d as int - '0' as int)
  {
    HexDecDigits(d, d);
    HexDec([d]) * 16
  }

  /** The foreground colour derived from the digest: the captured digits in
      reverse order, each `hexdec($d) * 16`. */
  function DerivedColor(h: string): (rgb: Rgb)
  {
    var ds := Reversed(Captures(h));
    assert forall k :: 0 <= k < |ds| ==> IsDecimal(ds[k]);
    TimesSixteen(ds)
  }

  /** The colour has one channel per match, the last match first, each a
      multiple of 16 between 0 and 144; a 32-character digest gives at most 16. */
  lemma DerivedColorSpec(h: string)
    ensures var rgb, ps := DerivedColor(h), MatchStarts(h, 0);
      && |rgb| == |ps|
      && (forall k :: 0 <= k < |rgb| ==> rgb[k] == 16 * (h[ps[|ps| - 1 - k]] as int - '0' as int))
      && (forall k :: 0 <= k < |rgb| ==> rgb[k] % 16 == 0 && 0 <= rgb[k] <= 144)
      && 2 * |rgb| <= |h|
  {
  }

  lemma DerivedColorIsRgb(h: string)
    ensures IsRgb(DerivedColor(h))
  {
    DerivedColorSpec(h);
  }

  /** The inner `foreach` of `convertHashToArrayOfBoolean`: writes `data` into
      row `index` of the table at each column listed in `items`. */
  method WriteRow(table: Grid, index: int, items: seq<int>, data: bool) returns (t: Grid)
    ensures t == WriteColumns(table, index, items, data)
  {
    t := table;
    for k := 0 to |items|
      invariant t == WriteColumns(table, index, items[..k], data)
    {
      t := t[(index, items[k]) := data];
      assert items[..k + 1][..k] == items[..k];
    }
    assert items[..|items|] == items;
  }

  /** The outer `foreach` of `convertHashToArrayOfBoolean` run on the table
      `g`: position i of `h` writes its bit into row i div b at the columns
      of remainder i mod b. */
  method FillTable(g: Grid, h: string, b: int) returns (table: Grid)
    requires 1 <= b <= 4
    ensures table == Paint(g, h, b, |h|)
  {
    table := g;
    for i := 0 to |h|
      invariant table == Paint(g, h, b, i)
    {
      PaintNext(g, h, b, i);
      var index := i / b;
      var data := ConvertHexaToBool(h[i]);
      var items := Columns(i % b);
      table := WriteRow(table, index, items, data);
      // ksort only reorders the row; a map row has no order (see KSort).
    }
  }

  /** `Base`: the builder whose setters the caller chains before reading the
      table and the colours. */
  class Base {
    var color: Option<Rgb>
    var bgColor: Option<Rgb>
    var size: Option<int>
    var pxRatio: Option<int>
    var hash: Option<string>
    var block: int
    var arrayOfSquare: Grid

    /** The invariant of every builder: the hash, once set, is an md5 digest. */
    ghost predicate Valid()
      reads this
    {
      Consistent() && (hash.Some? ==> IsDigest(hash.value))
    }

    /** What the table building needs and keeps: a block count 1 .. 4, a pixel
        ratio that goes with the size, colours whose channels fit in a byte
        (three from a setter, up to 16 derived from the hash) and a table of
        at most 32 rows, written from a hash of at most 32 characters. */
    ghost predicate Consistent()
      reads this
    {
      && 1 <= block <= 4
      && (size.Some? <==> pxRatio.Some?)
      && (size.Some? ==> size.value != 0 && pxRatio.value == RoundQuotient(size.value, 5))
      && (hash.Some? ==> |hash.value| <= 32)
      && (color.Some? ==> IsRgb(color.value))
      && (bgColor.Some? ==> IsRgb(bgColor.value))
      && GridShape(arrayOfSquare)
    }

    /** A fresh builder: block count 3, nothing else set. */
    constructor ()
      ensures Valid()
      ensures block == 3 && arrayOfSquare == map[]
      ensures color == None && bgColor == None && size == None && pxRatio == None && hash == None
    {
      color, bgColor, size, pxRatio, hash := None, None, None, None, None;
      block := 3;
      arrayOfSquare := map[];
    }

    /** `setColor`: ignored for an empty argument. */
    method SetColor(c: string)
      requires Valid()
      modifies this`color
      ensures Valid()
      ensures color == if IsEmptyString(c) then old(color) else Some(ConvertColor(c, 0))
    {
      if !IsEmptyString(c) {
        color := Some(ConvertColor(c, 0));
      }
    }

    /** `setBgColor`: ignored for an empty argument. */
    method SetBgColor(c: string)
      requires Valid()
      modifies this`bgColor
      ensures Valid()
      ensures bgColor == if IsEmptyString(c) then old(bgColor) else Some(ConvertColor(c, 0))
    {
      if !IsEmptyString(c) {
        bgColor := Some(ConvertColor(c, 0));
      }
    }

    /** `setBlock`: only 1 .. 4 is taken. */
    method SetBlock(n: int)
      requires Valid()
      modifies this`block
      ensures Valid()
      ensures block == if 1 <= n <= 4 then n else old(block)
    {
      // `!empty($n) && $n <= 4 && $n !== 0 && !($n < 0)` on an integer
      if 1 <= n <= 4 {
        block := n;
      }
    }

    method GetBlock() returns (b: int)
      requires Valid()
      ensures b == block && 1 <= b <= 4
    {
      b := block;
    }

    method GetColor() returns (c: Option<Rgb>)
      requires Valid()
      ensures c == color && (c.Some? ==> IsRgb(c.value))
    {
      c := color;
    }

    method GetBgColor() returns (c: Option<Rgb>)
      requires Valid()
      ensures c == bgColor && (c.Some? ==> IsRgb(c.value))
    {
      c := bgColor;
    }

    /** `convertHashToArrayOfBoolean`: writes every position of the hash into
        the table, keeps each row in key order, then derives the colour. */
    method ConvertHashToArrayOfBoolean()
      requires Consistent() && hash.Some?
      modifies this`arrayOfSquare, this`color
      ensures Consistent()
      ensures arrayOfSquare == Paint(old(arrayOfSquare), hash.value, block, |hash.value|)
      ensures color == Some(DerivedColor(hash.value))
    {
      var h := hash.value;
      PaintShape(arrayOfSquare, h, block, |h|);
      arrayOfSquare := FillTable(arrayOfSquare, h, block);
      DerivedColorIsRgb(h);
      color := Some(DerivedColor(h));
    }

    method GetArrayOfSquare() returns (g: Grid)
      requires Valid()
      ensures g == arrayOfSquare && GridShape(g)
    {
      g := arrayOfSquare;
    }

    method GetHash() returns (h: Option<string>)
      requires Valid()
      ensures h == hash && (h.Some? ==> IsDigest(h.value))
    {
      h := hash;
    }

    /** `setHashString`: ignored when the trimmed text is empty; otherwise the
        hash is `md5` of the untrimmed text and the table and the colour are
        rebuilt from it. `chained` tells whether `$this` is returned. */
    method SetHashString(s: string, md5: string -> string) returns (chained: bool)
      requires Valid()
      requires !IsEmptyString(Trim(s)) ==> IsDigest(md5(s))
      modifies this`hash, this`arrayOfSquare, this`color
      ensures Valid()
      ensures chained == !IsEmptyString(Trim(s))
      ensures !chained ==> hash == old(hash) && arrayOfSquare == old(arrayOfSquare) && color == old(color)
      ensures chained ==> hash == Some(md5(s)) && color == Some(DerivedColor(md5(s)))
      ensures chained ==> arrayOfSquare == Paint(old(arrayOfSquare), md5(s), block, 32)
    {
      chained := false;
      if !IsEmptyString(Trim(s)) {
        hash := Some(md5(s));
        ConvertHashToArrayOfBoolean();
        chained := true;
      }
    }

    /** `setSize`: ignored for 0; otherwise also sets the pixel ratio
        `round(size / 5)`. `chained` tells whether `$this` is returned. */
    method SetSize(n: int) returns (chained: bool)
      requires Valid()
      modifies this`size, this`pxRatio
      ensures Valid()
      ensures chained == (n != 0)
      ensures chained ==> size == Some(n) && pxRatio == Some(RoundQuotient(n, 5))
      ensures !chained ==> size == old(size) && pxRatio == old(pxRatio)
    {
      chained := false;
      if n != 0 {
        size := Some(n);
        pxRatio := Some(RoundQuotient(n, 5));
        chained := true;
      }
    }

    method GetSize() returns (n: Option<int>)
      requires Valid()
      ensures n == size && (n.Some? ==> n.value != 0)
    {
      n := size;
    }

    /** The pixel ratio is the integer nearest to a fifth of the size. */
    method GetPxRatio() returns (p: Option<int>)
      requires Valid()
      ensures p == pxRatio
      ensures p.Some? <==> size.Some?
      ensures p.Some? ==> 5 * p.value - 2 <= size.value <= 5 * p.value + 2
    {
      p := pxRatio;
    }
  }

  /** A fifth is never a tie, so `round(n / 5)` is `(n + 2) div 5`. */
  lemma PxRatioClosedForm(n: int)
    ensures RoundQuotient(n, 5) == (n + 2) / 5
    ensures RoundQuotient(100, 5) == 20
  {
  }

  lemma StripHashExample()
    ensures RemoveChar("#ff8800", '#') == "ff8800"
  {
    assert "#ff8800"[1..] == "ff8800";
    assert '#' !in "ff8800";
  }

  lemma ChannelsExample()
    ensures Channel("ff8800", 0) == 255 && Channel("ff8800", 1) == 136 && Channel("ff8800", 2) == 0
  {
  }

  /** The long notation: "#ff8800" is orange. */
  lemma ConvertColorLong()
    ensures ConvertColor("#ff8800", 0) == [255, 136, 0]
  {
    StripHashExample();
    ChannelsExample();
  }

  /** The short notation doubles each digit: "f80" is the same orange. */
  lemma ConvertColorShort()
    ensures ConvertColor("f80", 0) == [255, 136, 0]
  {
    NoHashExample();
    ShortChannelsExample();
  }

  /** A truthy `alpha` replaces the last channel. */
  lemma ConvertColorShortAlpha()
    ensures ConvertColor("f80", 7) == [255, 136, 7]
  {
    NoHashExample();
    ShortChannelsExample();
  }

  lemma NoHashExample()
    ensures RemoveChar("f80", '#') == "f80"
  {
    assert '#' !in "f80";
  }

  lemma ShortChannelsExample()
    ensures Channel("f80", 0) == 255 && Channel("f80", 1) == 136 && Channel("f80", 2) == 0
  {
    assert AllHex("f80");
  }

  /** Any other length reads as black. */
  lemma ConvertColorOtherLength()
    ensures ConvertColor("#ff88", 0) == [0, 0, 0]
  {
    StripHashShortExample();
    var rgb := ConvertColor("#ff88", 0);
    assert rgb[0] == 0 && rgb[1] == 0 && rgb[2] == 0;
  }

  lemma StripHashShortExample()
    ensures RemoveChar("#ff88", '#') == "ff88"
  {
    assert "#ff88"[1..] == "ff88";
    assert '#' !in "ff88";
  }
}
