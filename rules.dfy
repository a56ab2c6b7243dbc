/** The rules of the game stated on values: a board's values as a 9x9 grid,
    the block partition, the candidate set of a cell, conflicts between filled
    cells, and the unit checks the validator runs. The classes and methods of
    the engine are proved against these definitions. */
module Rules {
  import opened Exceptions

  /** The values of a board, row by row; 0 is an empty cell. */
  type Grid = seq<seq<int>>

  /** A 9x9 grid (Sudoku.PUZZLE_SIZE is 9, Sudoku.BLOCK_SIZE is 3). */
  predicate IsGrid(g: Grid) {
    |g| == 9 && forall i :: 0 <= i < 9 ==> |g[i]| == 9
  }

  predicate InGrid(i: int, j: int) {
    0 <= i < 9 && 0 <= j < 9
  }

  /** Row-major position of (row, column): 0 for (0,0), 80 for (8,8). */
  function Index(row: int, column: int): int {
    9 * row + column
  }

  /** The values 1..9, the set generateAllValues builds. */
  const AllValues: set<int> := {1, 2, 3, 4, 5, 6, 7, 8, 9}

  /** Java's integer division, which truncates toward zero. */
  function JavaDiv(a: int, b: int): int
    requires b > 0
  {
    if a >= 0 then a / b else -((-a) / b)
  }

  /** getBlockRowIndex and getBlockColumnIndex: the first row (column) of the
      block containing row (column) i, computed as (i / 3) * 3. */
  function BlockStart(i: int): (s: int)
    ensures s % 3 == 0
    ensures 0 <= i ==> s <= i < s + 3
    ensures i <= 0 ==> s - 3 < i <= s
    ensures 0 <= i < 9 ==> s == 0 || s == 3 || s == 6
  {
    JavaDiv(i, 3) * 3
  }

  /** Cell (i, j) lies in the row, the column or the 3x3 block of cell (r, c). */
  predicate SharesUnit(i: int, j: int, r: int, c: int) {
    i == r || j == c || (BlockStart(i) == BlockStart(r) && BlockStart(j) == BlockStart(c))
  }

  /** Row i lies in the block rows that start at BlockStart(r) exactly when
      the two rows share a block. */
  lemma SameBlockIff(i: int, r: int)
    requires 0 <= i < 9 && 0 <= r < 9
    ensures BlockStart(r) <= i < BlockStart(r) + 3 <==> BlockStart(i) == BlockStart(r)
  {
  }

  // ---------------------------------------------------------------------
  // Candidates

  /** The filled values of row r. */
  function RowFilled(g: Grid, r: int): set<int>
    requires IsGrid(g) && 0 <= r < 9
  {
    set j | 0 <= j < 9 && g[r][j] != 0 :: g[r][j]
  }

  /** The filled values of column c. */
  function ColumnFilled(g: Grid, c: int): set<int>
    requires IsGrid(g) && 0 <= c < 9
  {
    set i | 0 <= i < 9 && g[i][c] != 0 :: g[i][c]
  }

  /** The filled values of the 3x3 block holding cell (r, c). */
  function BlockFilled(g: Grid, r: int, c: int): set<int>
    requires IsGrid(g) && InGrid(r, c)
  {
    set i, j | BlockStart(r) <= i < BlockStart(r) + 3 && BlockStart(c) <= j < BlockStart(c) + 3 && g[i][j] != 0 :: g[i][j]
  }

  /** The values getConstraintRandomNumber may pick for cell (r, c): 1..9
      minus the filled values of its row, column and block, minus the values
      already tried at that cell. */
  function Candidates(g: Grid, r: int, c: int, tried: set<int>): set<int>
    requires IsGrid(g) && InGrid(r, c)
  {
    AllValues - RowFilled(g, r) - ColumnFilled(g, c) - BlockFilled(g, r, c) - tried
  }

  /** A candidate is exactly a digit, not tried, equal to no value of any
      cell that shares a unit with (r, c). */
  lemma {:induction false} CandidateIff(g: Grid, r: int, c: int, tried: set<int>, n: int)
    requires IsGrid(g) && InGrid(r, c)
    ensures n in Candidates(g, r, c, tried) <==>
      (1 <= n <= 9 && n !in tried &&
       forall i, j :: InGrid(i, j) && SharesUnit(i, j, r, c) ==> g[i][j] != n)
  {
    if n in Candidates(g, r, c, tried) {
      forall i, j | InGrid(i, j) && SharesUnit(i, j, r, c)
        ensures g[i][j] != n
      {
        if i == r {
          assert g[i][j] != 0 ==> g[i][j] in RowFilled(g, r);
        } else if j == c {
          assert g[i][j] != 0 ==> g[i][j] in ColumnFilled(g, c);
        } else {
          SameBlockIff(i, r);
          SameBlockIff(j, c);
          assert g[i][j] != 0 ==> g[i][j] in BlockFilled(g, r, c);
        }
      }
    }
    if 1 <= n <= 9 && n !in tried && forall i, j :: InGrid(i, j) && SharesUnit(i, j, r, c) ==> g[i][j] != n {
      assert n !in RowFilled(g, r) by {
        forall j | 0 <= j < 9 ensures g[r][j] != n { assert SharesUnit(r, j, r, c); }
      }
      assert n !in ColumnFilled(g, c) by {
        forall i | 0 <= i < 9 ensures g[i][c] != n { assert SharesUnit(i, c, r, c); }
      }
      assert n !in BlockFilled(g, r, c) by {
        forall i, j | BlockStart(r) <= i < BlockStart(r) + 3 && BlockStart(c) <= j < BlockStart(c) + 3
          ensures g[i][j] != n
        {
          SameBlockIff(i, r);
          SameBlockIff(j, c);
          assert InGrid(i, j) && SharesUnit(i, j, r, c);
        }
      }
    }
  }

  // ---------------------------------------------------------------------
  // Board-wide properties the backtracking keeps

  /** No two distinct cells that share a unit hold the same filled value. */
  ghost predicate NoConflicts(g: Grid)
    requires IsGrid(g)
  {
    forall i, j, k, l ::
      InGrid(i, j) && InGrid(k, l) && SharesUnit(i, j, k, l) && (i != k || j != l) && g[i][j] != 0
      ==> g[i][j] != g[k][l]
  }

  /** Every cell holds 0..9. */
  ghost predicate InRange(g: Grid)
    requires IsGrid(g)
  {
    forall i, j :: InGrid(i, j) ==> 0 <= g[i][j] <= 9
  }

  /** Every cell is filled. */
  ghost predicate Full(g: Grid)
    requires IsGrid(g)
  {
    forall i, j :: InGrid(i, j) ==> g[i][j] != 0
  }

  /** The cells before row-major position n are filled: what solve's cursor
      leaves behind it. */
  ghost predicate FilledBefore(g: Grid, n: int)
    requires IsGrid(g)
  {
    forall i, j :: InGrid(i, j) && Index(i, j) < n ==> g[i][j] != 0
  }

  /** A filled cell extends the filled prefix that ends at it. */
  lemma FilledStep(g: Grid, r: int, c: int)
    requires IsGrid(g) && InGrid(r, c) && g[r][c] != 0
    ensures FilledBefore(g, Index(r, c)) ==> FilledBefore(g, Index(r, c) + 1)
  {
  }

  /** A grid is full exactly when all 81 positions are filled. */
  lemma FullIffFilled(g: Grid)
    requires IsGrid(g)
    ensures Full(g) <==> FilledBefore(g, 81)
  {
  }

  /** Placing a candidate of (r, c) into (r, c), and changing nothing else,
      keeps a conflict-free grid conflict-free. */
  lemma {:induction false} PlaceKeepsNoConflicts(g: Grid, h: Grid, r: int, c: int, tried: set<int>)
    requires IsGrid(g) && IsGrid(h) && InGrid(r, c) && NoConflicts(g)
    requires h[r][c] in Candidates(g, r, c, tried)
    requires forall i, j :: InGrid(i, j) && (i != r || j != c) ==> h[i][j] == g[i][j]
    ensures NoConflicts(h)
  {
    CandidateIff(g, r, c, tried, h[r][c]);
    forall i, j, k, l |
      InGrid(i, j) && InGrid(k, l) && SharesUnit(i, j, k, l) && (i != k || j != l) && h[i][j] != 0
      ensures h[i][j] != h[k][l]
    {
      if i == r && j == c {
        assert g[k][l] != h[r][c];
      } else if k == r && l == c {
        assert SharesUnit(i, j, r, c);
        assert g[i][j] != h[r][c];
      } else {
        assert g[i][j] != g[k][l];
      }
    }
  }

  /** Placing a candidate of (r, c) into (r, c), and changing nothing else,
      keeps a conflict-free grid conflict-free and a grid in 0..9 in 0..9,
      and extends a filled prefix that ends at (r, c) by that cell. */
  lemma PlaceKeepsInvariants(g: Grid, h: Grid, r: int, c: int, tried: set<int>)
    requires IsGrid(g) && IsGrid(h) && InGrid(r, c)
    requires h[r][c] in Candidates(g, r, c, tried)
    requires forall i, j :: InGrid(i, j) && (i != r || j != c) ==> h[i][j] == g[i][j]
    ensures NoConflicts(g) ==> NoConflicts(h)
    ensures InRange(g) ==> InRange(h)
    ensures FilledBefore(g, Index(r, c)) ==> FilledBefore(h, Index(r, c) + 1)
  {
    if NoConflicts(g) {
      PlaceKeepsNoConflicts(g, h, r, c, tried);
    }
  }

  /** Emptying cells at positions p and later keeps a conflict-free grid
      conflict-free, a grid in 0..9 in 0..9, and the cells before p filled
      when they were. */
  lemma ClearKeepsInvariants(g: Grid, h: Grid, p: int, n: int)
    requires IsGrid(g) && IsGrid(h)
    requires forall i, j :: InGrid(i, j) ==> h[i][j] == g[i][j] || (h[i][j] == 0 && p <= Index(i, j))
    ensures NoConflicts(g) ==> NoConflicts(h)
    ensures InRange(g) ==> InRange(h)
    ensures p <= n && FilledBefore(g, n) ==> FilledBefore(h, p)
  {
  }

  // ---------------------------------------------------------------------
  // Units and their check

  /** A multiple of 3 in 0..8: the first row (column) of a block. */
  predicate IsBlockStart(i: int) {
    i == 0 || i == 3 || i == 6
  }

  /** The units checkValidAnswers visits: rows and columns 0..8, and blocks
      named by a top-left cell whose coordinates are multiples of 3. */
  predicate ValidUnit(u: Unit) {
    match u
    case Row(i) => 0 <= i < 9
    case Column(j) => 0 <= j < 9
    case Block(bi, bj) => IsBlockStart(bi) && IsBlockStart(bj)
  }

  /** The nine values of a unit in the order the unit check reads them
      (a block row by row). */
  function UnitValues(g: Grid, u: Unit): (vals: seq<int>)
    requires IsGrid(g) && ValidUnit(u)
    ensures |vals| == 9
  {
    match u
    case Row(i) => g[i]
    case Column(j) => seq(9, k requires 0 <= k < 9 => g[k][j])
    case Block(bi, bj) => BlockValues(g, bi, bj)
  }

  /** The three rows of block (bi, bj), each read left to right. */
  function BlockValues(g: Grid, bi: int, bj: int): seq<int>
    requires IsGrid(g) && ValidUnit(Block(bi, bj))
  {
    g[bi][bj..bj + 3] + g[bi + 1][bj..bj + 3] + g[bi + 2][bj..bj + 3]
  }

  /** The loop of isValidRow, isValidColumn and isValidBlock: each value must
      be in the set of values still expected and is then removed from it; a
      value not in the set is reported as a duplicate, and values left over at
      the end as empty values. */
  function Scan(u: Unit, vals: seq<int>, remaining: set<int>): Outcome
    decreases |vals|
  {
    if vals == [] then
      (if |remaining| != 0 then Fail(EmptyValues(u)) else Pass)
    else if vals[0] !in remaining then Fail(DuplicateValue(u, vals[0]))
    else Scan(u, vals[1..], remaining - {vals[0]})
  }

  /** One turn of the scan loop, from position k on: value k is reported
      as a duplicate or crossed off. */
  lemma ScanStep(u: Unit, vals: seq<int>, k: int, remaining: set<int>)
    requires 0 <= k < |vals|
    ensures Scan(u, vals[k..], remaining) ==
      if vals[k] !in remaining then Fail(DuplicateValue(u, vals[k]))
      else Scan(u, vals[k + 1..], remaining - {vals[k]})
  {
    assert vals[k..][0] == vals[k] && vals[k..][1..] == vals[k + 1..];
  }

  predicate Distinct(vals: seq<int>) {
    forall i, j :: 0 <= i < j < |vals| ==> vals[i] != vals[j]
  }

  function Elements(vals: seq<int>): set<int> {
    set x | x in vals
  }

  /** The values are 1..9, each exactly once. */
  predicate IsDigitPermutation(vals: seq<int>) {
    Distinct(vals) && Elements(vals) == AllValues
  }

  /** The scan passes exactly when the values are distinct and are exactly
      the expected set. */
  lemma {:induction false} ScanPassIff(u: Unit, vals: seq<int>, remaining: set<int>)
    ensures Scan(u, vals, remaining) == Pass <==> Distinct(vals) && Elements(vals) == remaining
    decreases |vals|
  {
    if vals != [] {
      var x, rest := vals[0], vals[1..];
      assert vals == [x] + rest;
      assert Elements(vals) == {x} + Elements(rest);
      ScanPassIff(u, rest, remaining - {x});
      if Distinct(vals) {
        assert x !in Elements(rest) by {
          forall k | 0 <= k < |rest| ensures rest[k] != x { assert vals[k + 1] == rest[k]; }
        }
        assert Distinct(rest) by {
          forall i, j | 0 <= i < j < |rest| ensures rest[i] != rest[j] { assert vals[i + 1] == rest[i]; }
        }
      }
      if x in remaining && Distinct(rest) && Elements(rest) == remaining - {x} {
        forall i, j | 0 <= i < j < |vals| ensures vals[i] != vals[j] {
          if i > 0 { assert rest[i - 1] != rest[j - 1]; } else { assert vals[j] in Elements(rest); }
        }
      }
    }
  }

  /** The scan reports empty values exactly when the values are distinct and
      make up a proper subset of the expected set. */
  lemma {:induction false} ScanEmptyIff(u: Unit, vals: seq<int>, remaining: set<int>)
    ensures Scan(u, vals, remaining) == Fail(EmptyValues(u)) <==>
      Distinct(vals) && Elements(vals) < remaining
    decreases |vals|
  {
    if vals != [] {
      var x, rest := vals[0], vals[1..];
      assert vals == [x] + rest;
      assert Elements(vals) == {x} + Elements(rest);
      ScanEmptyIff(u, rest, remaining - {x});
      if Distinct(vals) {
        assert x !in Elements(rest) by {
          forall k | 0 <= k < |rest| ensures rest[k] != x { assert vals[k + 1] == rest[k]; }
        }
        assert Distinct(rest) by {
          forall i, j | 0 <= i < j < |rest| ensures rest[i] != rest[j] { assert vals[i + 1] == rest[i]; }
        }
      }
      if x in remaining && Distinct(rest) && Elements(rest) < remaining - {x} {
        forall i, j | 0 <= i < j < |vals| ensures vals[i] != vals[j] {
          if i > 0 { assert rest[i - 1] != rest[j - 1]; } else { assert vals[j] in Elements(rest); }
        }
      }
    } else {
      assert |remaining| != 0 <==> {} < remaining;
    }
  }

  /** Value k is acceptable at its turn: still expected and not seen before. */
  predicate Good(vals: seq<int>, remaining: set<int>, k: int)
    requires 0 <= k < |vals|
  {
    vals[k] in remaining && forall h :: 0 <= h < k ==> vals[h] != vals[k]
  }

  /** When k is the first unacceptable value, the scan reports it as the
      duplicate. */
  lemma {:induction false} ScanReportsFirstBad(u: Unit, vals: seq<int>, remaining: set<int>, k: int)
    requires 0 <= k < |vals|
    requires forall i :: 0 <= i < k ==> Good(vals, remaining, i)
    requires !Good(vals, remaining, k)
    ensures Scan(u, vals, remaining) == Fail(DuplicateValue(u, vals[k]))
    decreases k
  {
    if k > 0 {
      var x, rest := vals[0], vals[1..];
      assert Good(vals, remaining, 0);
      forall i | 0 <= i < k - 1 ensures Good(rest, remaining - {x}, i) {
        assert Good(vals, remaining, i + 1);
        assert vals[0] != vals[i + 1];
        forall h | 0 <= h < i ensures rest[h] != rest[i] { assert vals[h + 1] != vals[i + 1]; }
      }
      if Good(rest, remaining - {x}, k - 1) {
        forall h | 0 <= h < k ensures vals[h] != vals[k] {
          if h > 0 { assert rest[h - 1] != rest[k - 1]; }
        }
        assert false;
      }
      ScanReportsFirstBad(u, rest, remaining - {x}, k - 1);
    }
  }

  /** The scan of a unit only ever reports the duplicate kind. */
  lemma ScanOutcomes(u: Unit, vals: seq<int>, remaining: set<int>)
    ensures Scan(u, vals, remaining).Fail? ==>
      Scan(u, vals, remaining).error == EmptyValues(u) ||
      exists k :: 0 <= k < |vals| && Scan(u, vals, remaining).error == DuplicateValue(u, vals[k])
    decreases |vals|
  {
    if vals != [] && vals[0] in remaining {
      ScanOutcomes(u, vals[1..], remaining - {vals[0]});
      if Scan(u, vals, remaining).Fail? && Scan(u, vals, remaining).error != EmptyValues(u) {
        var k :| 0 <= k < |vals[1..]| && Scan(u, vals, remaining).error == DuplicateValue(u, vals[1..][k]);
        assert vals[1..][k] == vals[k + 1];
      }
    }
  }

  // ---------------------------------------------------------------------
  // Counting: nine distinct digits are all of 1..9

  lemma {:induction false} DistinctCard(vals: seq<int>)
    requires Distinct(vals)
    ensures |Elements(vals)| == |vals|
    decreases |vals|
  {
    if vals != [] {
      var rest := vals[1..];
      assert vals == [vals[0]] + rest;
      assert Elements(vals) == {vals[0]} + Elements(rest);
      assert Distinct(rest) by {
        forall i, j | 0 <= i < j < |rest| ensures rest[i] != rest[j] { assert vals[i + 1] == rest[i]; }
      }
      assert vals[0] !in Elements(rest) by {
        forall k | 0 <= k < |rest| ensures rest[k] != vals[0] { assert vals[k + 1] == rest[k]; }
      }
      DistinctCard(rest);
    }
  }

  /** Nine pairwise distinct values in 1..9 are a permutation of 1..9. */
  lemma {:induction false} DistinctDigitsArePermutation(vals: seq<int>)
    requires |vals| == 9 && Distinct(vals)
    requires forall k :: 0 <= k < |vals| ==> 1 <= vals[k] <= 9
    ensures IsDigitPermutation(vals)
  {
    DistinctCard(vals);
    var e := Elements(vals);
    assert e <= AllValues by {
      forall x | x in e ensures x in AllValues {
        var k :| 0 <= k < |vals| && vals[k] == x;
      }
    }
    SubsetOfSameSize(e, AllValues);
  }

  /** A subset as large as its superset is the superset. */
  lemma SubsetOfSameSize<T>(a: set<T>, b: set<T>)
    requires a <= b && |a| == |b|
    ensures a == b
  {
    assert b == a + (b - a);
    assert a * (b - a) == {};
  }

  /** A subset is no larger than its superset. */
  lemma SubsetSize<T>(a: set<T>, b: set<T>)
    requires a <= b
    ensures |a| <= |b|
  {
    assert b == a + (b - a);
    assert a * (b - a) == {};
  }

  /** A unit of nine values passes its check exactly when the values are a
      permutation of 1..9; the check never reports empty values for it. */
  lemma UnitCheckIff(u: Unit, vals: seq<int>)
    requires |vals| == 9
    ensures Scan(u, vals, AllValues) == Pass <==> IsDigitPermutation(vals)
    ensures Scan(u, vals, AllValues) != Fail(EmptyValues(u))
  {
    ScanPassIff(u, vals, AllValues);
    ScanEmptyIff(u, vals, AllValues);
    if Distinct(vals) && Elements(vals) < AllValues {
      forall k | 0 <= k < |vals| ensures 1 <= vals[k] <= 9 { assert vals[k] in Elements(vals); }
      DistinctDigitsArePermutation(vals);
    }
  }

  /** The non-zero values of a sequence: what the filter loops remove. */
  function FilledValues(vals: seq<int>): set<int> {
    set x | x in vals && x != 0
  }

  /** Reading one more value adds it to the filled values when it is non-zero. */
  lemma FilledValuesSnoc(vals: seq<int>, x: int)
    ensures FilledValues(vals + [x]) == FilledValues(vals) + (if x != 0 then {x} else {})
  {
    assert forall y :: y in vals + [x] <==> y in vals || y == x;
  }

  /** Reading value k adds it to the filled values read so far when it is
      non-zero. */
  lemma FilledPrefixStep(vals: seq<int>, k: int)
    requires 0 <= k < |vals|
    ensures FilledValues(vals[..k + 1]) == FilledValues(vals[..k]) + (if vals[k] != 0 then {vals[k]} else {})
  {
    assert vals[..k + 1] == vals[..k] + [vals[k]];
    FilledValuesSnoc(vals[..k], vals[k]);
  }

  /** The row, column and block filled sets are the filled values of the
      corresponding unit. */
  lemma RowFilledValues(g: Grid, r: int)
    requires IsGrid(g) && 0 <= r < 9
    ensures RowFilled(g, r) == FilledValues(UnitValues(g, Row(r)))
  {
    var vals := UnitValues(g, Row(r));
    forall x | x in FilledValues(vals) ensures x in RowFilled(g, r) {
      var j :| 0 <= j < 9 && vals[j] == x;
    }
  }

  lemma ColumnFilledValues(g: Grid, c: int)
    requires IsGrid(g) && 0 <= c < 9
    ensures ColumnFilled(g, c) == FilledValues(UnitValues(g, Column(c)))
  {
    var vals := UnitValues(g, Column(c));
    forall x | x in FilledValues(vals) ensures x in ColumnFilled(g, c) {
      var i :| 0 <= i < 9 && vals[i] == x;
    }
    forall x | x in ColumnFilled(g, c) ensures x in FilledValues(vals) {
      var i :| 0 <= i < 9 && g[i][c] != 0 && g[i][c] == x;
      assert vals[i] == x;
    }
  }

  lemma BlockFilledValues(g: Grid, r: int, c: int)
    requires IsGrid(g) && InGrid(r, c)
    ensures ValidUnit(Block(BlockStart(r), BlockStart(c)))
    ensures BlockFilled(g, r, c) == FilledValues(UnitValues(g, Block(BlockStart(r), BlockStart(c))))
  {
    var bi, bj := BlockStart(r), BlockStart(c);
    var vals := UnitValues(g, Block(bi, bj));
    forall x | x in FilledValues(vals) ensures x in BlockFilled(g, r, c) {
      var p :| 0 <= p < 9 && vals[p] == x;
      BlockCellAt(bi, bj, p);
      BlockIndex(g, bi, bj, p);
    }
    forall x | x in BlockFilled(g, r, c) ensures x in FilledValues(vals) {
      var i, j :| bi <= i < bi + 3 && bj <= j < bj + 3 && g[i][j] != 0 && g[i][j] == x;
      BlockValueAt(g, bi, bj, i, j, 3 * (i - bi) + (j - bj));
    }
  }

  /** Cell (i, j) of block (bi, bj) is read at position k = 3 (i - bi) + (j - bj). */
  lemma BlockValueAt(g: Grid, bi: int, bj: int, i: int, j: int, k: int)
    requires IsGrid(g) && ValidUnit(Block(bi, bj))
    requires bi <= i < bi + 3 && bj <= j < bj + 3 && k == 3 * (i - bi) + (j - bj)
    ensures 0 <= k < 9 && UnitValues(g, Block(bi, bj))[k] == g[i][j]
  {
    assert bi <= 6 && bj <= 6;
    BlockOffsetValue(g, bi, bj, i - bi, j - bj);
  }

  /** One turn of isValidBlock's inner loop: cell (i, j), read at position
      k, is reported as a duplicate or crossed off. */
  lemma BlockScanStep(g: Grid, bi: int, bj: int, i: int, j: int, k: int, remaining: set<int>)
    requires IsGrid(g) && ValidUnit(Block(bi, bj))
    requires bi <= i < bi + 3 && bj <= j < bj + 3 && k == 3 * (i - bi) + (j - bj)
    ensures 0 <= k < 9
    ensures Scan(Block(bi, bj), BlockValues(g, bi, bj)[k..], remaining) ==
      if g[i][j] !in remaining then Fail(DuplicateValue(Block(bi, bj), g[i][j]))
      else Scan(Block(bi, bj), BlockValues(g, bi, bj)[k + 1..], remaining - {g[i][j]})
  {
    BlockValueAt(g, bi, bj, i, j, k);
    ScanStep(Block(bi, bj), BlockValues(g, bi, bj), k, remaining);
  }

  lemma BlockOffsetValue(g: Grid, bi: int, bj: int, a: int, b: int)
    requires IsGrid(g) && ValidUnit(Block(bi, bj)) && bi <= 6 && bj <= 6 && 0 <= a < 3 && 0 <= b < 3
    ensures 0 <= 3 * a + b < 9 && UnitValues(g, Block(bi, bj))[3 * a + b] == g[bi + a][bj + b]
  {
    var first, second, third := g[bi][bj..bj + 3], g[bi + 1][bj..bj + 3], g[bi + 2][bj..bj + 3];
    var vals := UnitValues(g, Block(bi, bj));
    assert vals == (first + second) + third;
    assert |first| == 3 && |second| == 3 && |third| == 3;
    var row, k := g[bi + a], 3 * a + b;
    if a == 0 {
      assert k == b && vals[k] == (first + second)[k] == first[b] == row[bj + b];
    } else if a == 1 {
      assert k == 3 + b && vals[k] == (first + second)[k] == second[b] == row[bj + b];
    } else {
      assert k == 6 + b && vals[k] == third[b] == row[bj + b];
    }
  }

  /** Block position p holds cell (bi + p / 3, bj + p % 3). */
  lemma BlockIndex(g: Grid, bi: int, bj: int, p: int)
    requires IsGrid(g) && ValidUnit(Block(bi, bj)) && 0 <= p < 9
    ensures InGrid(bi + p / 3, bj + p % 3)
    ensures UnitValues(g, Block(bi, bj))[p] == g[bi + p / 3][bj + p % 3]
  {
    var a, b := p / 3, p % 3;
    BlockCellAt(bi, bj, p);
    assert 0 <= a < 3 && 0 <= b < 3 && 3 * a + b == p;
    BlockOffsetValue(g, bi, bj, a, b);
  }

  // ---------------------------------------------------------------------
  // The validator

  /** Unit k of the order checkValidAnswers visits the units in: rows 0..8,
      columns 0..8, then the blocks in row-major order. */
  function UnitAt(k: int): (u: Unit)
    requires 0 <= k < 27
    ensures ValidUnit(u)
    ensures k < 9 ==> u == Row(k)
    ensures 9 <= k < 18 ==> u == Column(k - 9)
  {
    if k < 9 then Row(k)
    else if k < 18 then Column(k - 9)
    else Block(3 * ((k - 18) / 3), 3 * ((k - 18) % 3))
  }

  /** The 27 units in the order checkValidAnswers visits them. */
  function AllUnits(): (us: seq<Unit>)
    ensures |us| == 27
    ensures forall k :: 0 <= k < 27 ==> ValidUnit(us[k]) && us[k] == UnitAt(k)
  {
    seq(27, k requires 0 <= k < 27 => UnitAt(k))
  }

  /** Unit k of the validator's order passes its scan. */
  ghost predicate UnitPasses(g: Grid, k: int)
    requires IsGrid(g) && 0 <= k < 27
  {
    Scan(UnitAt(k), UnitValues(g, UnitAt(k)), AllValues) == Pass
  }

  /** The first n units of the validator's order pass. */
  ghost predicate PassesBefore(g: Grid, n: int)
    requires IsGrid(g) && 0 <= n <= 27
  {
    forall k :: 0 <= k < n ==> UnitPasses(g, k)
  }

  /** The first unit check that fails, in the order given. */
  function CheckUnits(g: Grid, us: seq<Unit>): Outcome
    requires IsGrid(g) && forall k :: 0 <= k < |us| ==> ValidUnit(us[k])
  {
    if us == [] then Pass
    else
      var o := Scan(us[0], UnitValues(g, us[0]), AllValues);
      if o.Fail? then o else CheckUnits(g, us[1..])
  }

  /** checkValidAnswers on a board with values g. */
  function Validate(g: Grid): Outcome
    requires IsGrid(g)
  {
    CheckUnits(g, AllUnits())
  }

  lemma {:induction false} CheckUnitsPassIff(g: Grid, us: seq<Unit>)
    requires IsGrid(g) && forall k :: 0 <= k < |us| ==> ValidUnit(us[k])
    ensures CheckUnits(g, us) == Pass <==>
      forall k :: 0 <= k < |us| ==> Scan(us[k], UnitValues(g, us[k]), AllValues) == Pass
    decreases |us|
  {
    if us != [] {
      CheckUnitsPassIff(g, us[1..]);
      assert forall k :: 1 <= k < |us| ==> us[1..][k - 1] == us[k];
    }
  }

  /** Where checkValidAnswers visits unit u: row i at i, column j at 9 + j,
      block (bi, bj) at 18 + bi + bj / 3. Every unit is visited. */
  function UnitOrder(u: Unit): (k: int)
    requires ValidUnit(u)
    ensures 0 <= k < 27 && AllUnits()[k] == u
  {
    match u
    case Row(i) => i
    case Column(j) => 9 + j
    case Block(bi, bj) => 18 + bi + bj / 3
  }

  /** One step of checkValidAnswers: once the units before n have passed,
      unit n's check is either the verdict or one more passing unit. */
  lemma UnitStep(g: Grid, n: int, outcome: Outcome)
    requires IsGrid(g) && 0 <= n < 27 && PassesBefore(g, n)
    requires outcome == Scan(UnitAt(n), UnitValues(g, UnitAt(n)), AllValues)
    ensures outcome.Fail? ==> Validate(g) == outcome
    ensures outcome.Pass? ==> PassesBefore(g, n + 1)
  {
    if outcome.Fail? {
      var us := AllUnits();
      forall i | 0 <= i < n
        ensures Scan(us[i], UnitValues(g, us[i]), AllValues) == Pass
      {
        assert UnitPasses(g, i);
      }
      CheckUnitsFirstFailure(g, us, n);
    }
  }

  /** UnitStep for row i, the unit at position i. */
  lemma RowStep(g: Grid, i: int, outcome: Outcome)
    requires IsGrid(g) && 0 <= i < 9 && PassesBefore(g, i)
    requires outcome == Scan(Row(i), UnitValues(g, Row(i)), AllValues)
    ensures outcome.Fail? ==> Validate(g) == outcome
    ensures outcome.Pass? ==> PassesBefore(g, i + 1)
  {
    UnitStep(g, i, outcome);
  }

  /** UnitStep for column j, the unit at position 9 + j. */
  lemma ColumnStep(g: Grid, j: int, outcome: Outcome)
    requires IsGrid(g) && 0 <= j < 9 && PassesBefore(g, 9 + j)
    requires outcome == Scan(Column(j), UnitValues(g, Column(j)), AllValues)
    ensures outcome.Fail? ==> Validate(g) == outcome
    ensures outcome.Pass? ==> PassesBefore(g, 9 + j + 1)
  {
    UnitStep(g, 9 + j, outcome);
  }

  /** UnitStep for block (bi, bj) = (3a, 3b), the unit at position
      18 + 3a + b. */
  lemma BlockStep(g: Grid, a: int, b: int, bi: int, bj: int, outcome: Outcome)
    requires IsGrid(g) && 0 <= a < 3 && 0 <= b < 3 && bi == 3 * a && bj == 3 * b
    requires PassesBefore(g, 18 + 3 * a + b)
    requires ValidUnit(Block(bi, bj)) ==> outcome == Scan(Block(bi, bj), BlockValues(g, bi, bj), AllValues)
    ensures outcome.Fail? ==> Validate(g) == outcome
    ensures outcome.Pass? ==> PassesBefore(g, 18 + 3 * a + b + 1)
  {
    PositionInBlock(a, b);
    assert UnitAt(18 + 3 * a + b) == Block(bi, bj);
    UnitStep(g, 18 + 3 * a + b, outcome);
  }

  /** Every unit passed: the validator passes. */
  lemma ValidateAllPass(g: Grid)
    requires IsGrid(g) && PassesBefore(g, 27)
    ensures Validate(g) == Pass
  {
    var us := AllUnits();
    forall i | 0 <= i < 27
      ensures Scan(us[i], UnitValues(g, us[i]), AllValues) == Pass
    {
      assert UnitPasses(g, i);
    }
    CheckUnitsPassIff(g, us);
  }

  /** When units before k pass and unit k fails, the validator reports unit
      k's failure. */
  lemma {:induction false} CheckUnitsFirstFailure(g: Grid, us: seq<Unit>, k: int)
    requires IsGrid(g) && forall i :: 0 <= i < |us| ==> ValidUnit(us[i])
    requires 0 <= k < |us|
    requires forall i :: 0 <= i < k ==> Scan(us[i], UnitValues(g, us[i]), AllValues) == Pass
    requires Scan(us[k], UnitValues(g, us[k]), AllValues).Fail?
    ensures CheckUnits(g, us) == Scan(us[k], UnitValues(g, us[k]), AllValues)
    decreases k
  {
    if k > 0 {
      assert forall i :: 0 <= i < |us| - 1 ==> us[1..][i] == us[i + 1];
      CheckUnitsFirstFailure(g, us[1..], k - 1);
    }
  }

  /** What the validator can report: success, or a duplicate value (0 for an
      empty cell) of some unit; never empty values. */
  lemma {:induction false} CheckUnitsOutcomes(g: Grid, us: seq<Unit>)
    requires IsGrid(g) && forall i :: 0 <= i < |us| ==> ValidUnit(us[i])
    ensures CheckUnits(g, us).Fail? ==> exists k, p ::
      0 <= k < |us| && 0 <= p < 9 && CheckUnits(g, us).error == DuplicateValue(us[k], UnitValues(g, us[k])[p])
    decreases |us|
  {
    if us != [] {
      var o := Scan(us[0], UnitValues(g, us[0]), AllValues);
      if o.Fail? {
        UnitCheckIff(us[0], UnitValues(g, us[0]));
        ScanOutcomes(us[0], UnitValues(g, us[0]), AllValues);
        var p :| 0 <= p < 9 && o.error == DuplicateValue(us[0], UnitValues(g, us[0])[p]);
        assert CheckUnits(g, us).error == DuplicateValue(us[0], UnitValues(g, us[0])[p]);
      } else {
        assert forall i :: 0 <= i < |us| - 1 ==> us[1..][i] == us[i + 1];
        CheckUnitsOutcomes(g, us[1..]);
        if CheckUnits(g, us).Fail? {
          var k, p :| 0 <= k < |us[1..]| && 0 <= p < 9 &&
            CheckUnits(g, us[1..]).error == DuplicateValue(us[1..][k], UnitValues(g, us[1..][k])[p]);
          assert CheckUnits(g, us).error == DuplicateValue(us[k + 1], UnitValues(g, us[k + 1])[p]);
        }
      }
    }
  }

  /** The validator never reports empty values: that branch of each unit
      check cannot be reached, so every failure is a duplicate value. */
  lemma ValidateNeverEmptyValues(g: Grid)
    requires IsGrid(g)
    ensures Validate(g).Fail? ==> Validate(g).error.DuplicateValue?
  {
    CheckUnitsOutcomes(g, AllUnits());
  }

  /** Every cell of the grid is filled, holds a digit, and conflicts with no
      cell sharing a unit: a solved Sudoku. */
  ghost predicate IsSolution(g: Grid)
    requires IsGrid(g)
  {
    Full(g) && InRange(g) && NoConflicts(g)
  }

  /** The cell of a block unit read at position p. */
  lemma BlockCellAt(bi: int, bj: int, p: int)
    requires IsBlockStart(bi) && IsBlockStart(bj) && 0 <= p < 9
    ensures InGrid(bi + p / 3, bj + p % 3)
    ensures BlockStart(bi + p / 3) == bi && BlockStart(bj + p % 3) == bj
    ensures p == 3 * (p / 3) + p % 3 && 0 <= p % 3 < 3
  {
  }

  /** In a solved grid every unit is a permutation of 1..9. */
  lemma SolutionUnit(g: Grid, u: Unit)
    requires IsGrid(g) && IsSolution(g) && ValidUnit(u)
    ensures IsDigitPermutation(UnitValues(g, u))
  {
    var vals := UnitValues(g, u);
    forall p, q | 0 <= p < q < 9 ensures vals[p] != vals[q] {
      match u
      case Row(i) =>
        assert SharesUnit(i, p, i, q);
      case Column(j) =>
        assert SharesUnit(p, j, q, j);
      case Block(bi, bj) =>
        BlockCellAt(bi, bj, p);
        BlockCellAt(bi, bj, q);
        BlockIndex(g, bi, bj, p);
        BlockIndex(g, bi, bj, q);
        assert SharesUnit(bi + p / 3, bj + p % 3, bi + q / 3, bj + q % 3);
    }
    forall p | 0 <= p < 9 ensures 1 <= vals[p] <= 9 {
      match u
      case Row(i) =>
      case Column(j) =>
      case Block(bi, bj) => BlockIndex(g, bi, bj, p);
    }
    DistinctDigitsArePermutation(vals);
  }

  /** The validator passes exactly when every unit is a permutation of 1..9. */
  lemma ValidatePassIff(g: Grid)
    requires IsGrid(g)
    ensures Validate(g) == Pass <==>
      forall u :: ValidUnit(u) ==> IsDigitPermutation(UnitValues(g, u))
  {
    var us := AllUnits();
    CheckUnitsPassIff(g, us);
    forall k | 0 <= k < 27 {
      UnitCheckIff(us[k], UnitValues(g, us[k]));
    }
    if Validate(g) == Pass {
      forall u | ValidUnit(u) ensures IsDigitPermutation(UnitValues(g, u)) {
        var k := UnitOrder(u);
        UnitCheckIff(us[k], UnitValues(g, us[k]));
      }
    }
  }

  /** Two distinct cells of one block hold different values when that block
      is a permutation of 1..9. */
  lemma PermutationBlockSeparates(g: Grid, i: int, j: int, k: int, l: int)
    requires IsGrid(g) && InGrid(i, j) && InGrid(k, l) && (i != k || j != l)
    requires BlockStart(i) == BlockStart(k) && BlockStart(j) == BlockStart(l)
    requires Distinct(UnitValues(g, Block(BlockStart(i), BlockStart(j))))
    ensures g[i][j] != g[k][l]
  {
    var bi, bj := BlockStart(i), BlockStart(j);
    assert 0 <= i - bi < 3 && 0 <= k - bi < 3 && 0 <= j - bj < 3 && 0 <= l - bj < 3;
    var vals := UnitValues(g, Block(bi, bj));
    var p, q := 3 * (i - bi) + (j - bj), 3 * (k - bi) + (l - bj);
    PositionInBlock(i - bi, j - bj);
    PositionInBlock(k - bi, l - bj);
    assert p != q;
    BlockValueAt(g, bi, bj, i, j, p);
    BlockValueAt(g, bi, bj, k, l, q);
    if p < q { assert vals[p] != vals[q]; } else { assert vals[q] != vals[p]; }
  }

  lemma PositionInBlock(a: int, b: int)
    requires 0 <= a < 3 && 0 <= b < 3
    ensures 0 <= 3 * a + b < 9 && (3 * a + b) / 3 == a && (3 * a + b) % 3 == b
  {
  }

  /** Two distinct cells sharing a unit hold different values when every
      unit is a permutation of 1..9. */
  lemma PermutationUnitsSeparate(g: Grid, i: int, j: int, k: int, l: int)
    requires IsGrid(g) && forall u :: ValidUnit(u) ==> IsDigitPermutation(UnitValues(g, u))
    requires InGrid(i, j) && InGrid(k, l) && SharesUnit(i, j, k, l) && (i != k || j != l)
    ensures g[i][j] != g[k][l]
  {
    if i == k {
      var vals := UnitValues(g, Row(i));
      assert IsDigitPermutation(vals);
      if j < l { assert vals[j] != vals[l]; } else { assert vals[l] != vals[j]; }
    } else if j == l {
      var vals := UnitValues(g, Column(j));
      assert IsDigitPermutation(vals);
      if i < k { assert vals[i] != vals[k]; } else { assert vals[k] != vals[i]; }
    } else {
      assert ValidUnit(Block(BlockStart(i), BlockStart(j)));
      PermutationBlockSeparates(g, i, j, k, l);
    }
  }

  /** A grid whose units are all permutations of 1..9 is a solved Sudoku. */
  lemma PermutationUnitsSolve(g: Grid)
    requires IsGrid(g) && forall u :: ValidUnit(u) ==> IsDigitPermutation(UnitValues(g, u))
    ensures IsSolution(g)
  {
    forall i, j | InGrid(i, j) ensures 1 <= g[i][j] <= 9 {
      assert IsDigitPermutation(UnitValues(g, Row(i)));
      assert g[i][j] in Elements(g[i]);
    }
    forall i, j, k, l |
      InGrid(i, j) && InGrid(k, l) && SharesUnit(i, j, k, l) && (i != k || j != l) && g[i][j] != 0
      ensures g[i][j] != g[k][l]
    {
      PermutationUnitsSeparate(g, i, j, k, l);
    }
  }

  /** A grid that agrees with a solved Sudoku wherever it is filled is
      conflict-free and in 0..9: a dug-out puzzle meets the premise under
      which the solver's result is a solution. */
  lemma PartialOfSolution(g: Grid, s: Grid)
    requires IsGrid(g) && IsGrid(s) && IsSolution(s)
    requires forall i, j :: InGrid(i, j) ==> g[i][j] == 0 || g[i][j] == s[i][j]
    ensures NoConflicts(g) && InRange(g)
  {
  }

  /** A grid passes the validator exactly when it is a solved Sudoku. */
  lemma ValidateIffSolution(g: Grid)
    requires IsGrid(g)
    ensures Validate(g) == Pass <==> IsSolution(g)
  {
    ValidatePassIff(g);
    if IsSolution(g) {
      forall u | ValidUnit(u) ensures IsDigitPermutation(UnitValues(g, u)) {
        SolutionUnit(g, u);
      }
    }
    if Validate(g) == Pass {
      PermutationUnitsSolve(g);
    }
  }
}
