/** Value-level rules of the N×N tic-tac-toe board of XO.py: the cells, the
    winning lines, the empty cells, whose turn it is, win / tie / end, and the
    static weights that `evaluate` computes. Everything here is a function of
    the cell sequence (row-major, N² cells) and of the size N. */
module Rules {

  /** The two players; the source's `PLAYERS.X` is -1 and `PLAYERS.O` is 1. */
  datatype Player = X | O {
    /** The opponent, written `-player` in the source. */
    function Opp(): (q: Player)
      ensures q != this
    {
      if this == X then O else X
    }
  }

  /** A cell holds `None` (Empty) or a player's mark. */
  datatype Cell = Empty | Mark(player: Player)

  /** n², the number of cells of an n×n board, as the sum of the first n odd
      numbers: contracts that only need the count then carry no product,
      and SquareIsProduct relates it to n * n where the index arithmetic
      needs it. */
  function Square(n: nat): nat {
    if n == 0 then 0 else Square(n - 1) + 2 * n - 1
  }

  lemma {:induction false} SquareIsProduct(n: nat)
    ensures Square(n) == n * n
  {
    if n > 0 {
      SquareIsProduct(n - 1);
      assert n * n == (n - 1) * (n - 1) + 2 * n - 1;
    }
  }

  /** A board of size n has n² cells; the model requires n >= 1. */
  ghost predicate Sized(b: seq<Cell>, n: nat) {
    n >= 1 && |b| == Square(n)
  }

  /** The cells of a fresh (or cleared) board: `[None] * size * size`. */
  function Blank(n: nat): (b: seq<Cell>)
    ensures |b| == Square(n)
    ensures forall i :: 0 <= i < |b| ==> b[i] == Empty
  {
    seq(Square(n), _ => Empty)
  }

  // ---------------------------------------------------------------------------
  // Arithmetic facts about row-major positions

  lemma MulLe(a: int, b: int, c: int)
    requires 0 <= a <= b && 0 <= c
    ensures a * c <= b * c
  {
    assert b * c == a * c + (b - a) * c;
  }

  lemma MulLt(a: int, b: int, c: int)
    requires 0 <= a < b && 1 <= c
    ensures a * c + c <= b * c
  {
    assert b * c == a * c + (b - a) * c;
    MulLe(1, b - a, c);
  }

  /** Cell (r, c) of an n×n board is at index r*n + c, inside [0, n²). */
  lemma RowMajorBound(n: nat, r: int, c: int)
    requires 0 <= r < n && 0 <= c < n
    ensures 0 <= r * n + c < Square(n)
  {
    SquareIsProduct(n);
    MulLe(r, n - 1, n);
    assert (n - 1) * n == n * n - n;
  }

  // ---------------------------------------------------------------------------
  // Winning lines (`cell_for_check`)

  /** The 2n+2 winning lines, built with the source's own index formulas:
      n columns, then n rows, then the main diagonal, then the anti-diagonal.
      The source raises for n = 0 (a range with step 0), hence n >= 1. */
  function CellForCheck(n: nat): (lines: seq<seq<int>>)
    requires n >= 1
    ensures |lines| == 2 * n + 2
    ensures forall k :: 0 <= k < |lines| ==> |lines[k]| == n
  {
    // column ii: cells ii, ii + n, ..., ii + (n - 1) n
    seq(n, ii => seq(n, k => (1 + k * n) + ii - 1))
    // row r: cells r n, r n + 1, ..., r n + n - 1
    + seq(n, r => seq(n, i => i + (1 + r * n) - 1))
    // main diagonal: cells 0, n + 1, 2 (n + 1), ..., (n - 1)(n + 1)
    + [seq(n, k => (k + 1) * n - (n - (k + 1)) - 1)]
    // anti-diagonal: cells n - 1, 2 (n - 1), ..., n (n - 1)
    + [seq(n, k => (k + 1) * n - ((k + 1) - 1) - 1)]
  }

  /** Grid row of the j-th cell of line k: columns, rows, diagonal, anti-diagonal. */
  ghost function LineRow(n: nat, k: nat, j: nat): int {
    if k < n then j else if k < 2 * n then k - n else j
  }

  /** Grid column of the j-th cell of line k. */
  ghost function LineCol(n: nat, k: nat, j: nat): int {
    if k < n then k else if k < 2 * n then j else if k == 2 * n then j else n - 1 - j
  }

  /** The shape of the table: 2n+2 lines of n cells; line k < n is column k,
      line n + r is row r, line 2n the main diagonal, line 2n+1 the
      anti-diagonal; every index lies in [0, n²) and every line is strictly
      increasing, so no line lists a cell twice. */
  lemma CellForCheckShape(n: nat)
    requires n >= 1
    ensures |CellForCheck(n)| == 2 * n + 2
    ensures forall k :: 0 <= k < |CellForCheck(n)| ==> |CellForCheck(n)[k]| == n
    ensures forall k, j :: 0 <= k < 2 * n + 2 && 0 <= j < n ==>
              0 <= LineRow(n, k, j) < n && 0 <= LineCol(n, k, j) < n &&
              CellForCheck(n)[k][j] == LineRow(n, k, j) * n + LineCol(n, k, j)
    ensures forall k, j :: 0 <= k < 2 * n + 2 && 0 <= j < n ==>
              0 <= CellForCheck(n)[k][j] < Square(n)
    ensures forall k, i, j :: 0 <= k < 2 * n + 2 && 0 <= i < j < n ==>
              CellForCheck(n)[k][i] < CellForCheck(n)[k][j]
  {
    var lines := CellForCheck(n);
    forall k, j | 0 <= k < 2 * n + 2 && 0 <= j < n
      ensures 0 <= LineRow(n, k, j) < n && 0 <= LineCol(n, k, j) < n
      ensures lines[k][j] == LineRow(n, k, j) * n + LineCol(n, k, j)
      ensures 0 <= lines[k][j] < Square(n)
    {
      if k < n {
        assert lines[k][j] == (1 + j * n) + k - 1;
      } else if k < 2 * n {
        assert lines[k][j] == j + (1 + (k - n) * n) - 1;
      } else if k == 2 * n {
        assert lines[k][j] == (j + 1) * n - (n - (j + 1)) - 1;
        assert (j + 1) * n == j * n + n;
      } else {
        assert lines[k][j] == (j + 1) * n - ((j + 1) - 1) - 1;
        assert (j + 1) * n == j * n + n;
      }
      RowMajorBound(n, LineRow(n, k, j), LineCol(n, k, j));
    }
    forall k, i, j | 0 <= k < 2 * n + 2 && 0 <= i < j < n
      ensures lines[k][i] < lines[k][j]
    {
      if k < n || k == 2 * n || k == 2 * n + 1 {
        MulLt(i, j, n);
      }
    }
  }

  // ---------------------------------------------------------------------------
  // Empty cells, count(None) and the turn

  /** `self.count(None)`: how many cells are empty. */
  function CountEmpty(b: seq<Cell>): (c: nat)
    ensures c <= |b|
  {
    multiset(b)[Empty]
  }

  /** The empty indices of b from lo on, ascending. */
  function EmptyFrom(b: seq<Cell>, lo: nat): (r: seq<nat>)
    requires lo <= |b|
    ensures forall x :: x in r <==> lo <= x < |b| && b[x] == Empty
    ensures forall i, j :: 0 <= i < j < |r| ==> r[i] < r[j]
    decreases |b| - lo
  {
    if lo == |b| then []
    else
      var rest := EmptyFrom(b, lo + 1);
      if b[lo] == Empty then
        assert forall j :: 0 <= j < |rest| ==> rest[j] in rest;
        [lo] + rest
      else rest
  }

  /** EmptyFrom lists one index per empty cell of b[lo..]. */
  lemma {:induction false} EmptyFromCount(b: seq<Cell>, lo: nat)
    requires lo <= |b|
    ensures |EmptyFrom(b, lo)| == multiset(b[lo..])[Empty]
    decreases |b| - lo
  {
    if lo < |b| {
      EmptyFromCount(b, lo + 1);
      assert b[lo..] == [b[lo]] + b[lo + 1..];
      assert multiset(b[lo..]) == multiset{b[lo]} + multiset(b[lo + 1..]);
    }
  }

  /** `empty_cells()`: exactly the indices whose cell is empty, strictly
      ascending; there are `count(None)` of them. */
  function EmptyCells(b: seq<Cell>): (r: seq<nat>)
    ensures forall x :: x in r <==> 0 <= x < |b| && b[x] == Empty
    ensures forall i, j :: 0 <= i < j < |r| ==> r[i] < r[j]
    ensures |r| == CountEmpty(b)
  {
    EmptyFromCount(b, 0);
    assert b[0..] == b;
    EmptyFrom(b, 0)
  }

  /** `turn`: X when the number of empty cells is odd, O otherwise. */
  function Turn(b: seq<Cell>): Player {
    if CountEmpty(b) % 2 == 1 then X else O
  }

  /** Filling an empty cell, whoever fills it, removes one empty cell and so
      hands the turn to the other player. */
  lemma PlaceFlipsTurn(b: seq<Cell>, k: nat, p: Player)
    requires k < |b| && b[k] == Empty
    ensures CountEmpty(b[k := Mark(p)]) == CountEmpty(b) - 1
    ensures Turn(b[k := Mark(p)]) == Turn(b).Opp()
  {
    assert b == b[..k] + [b[k]] + b[k + 1..];
    assert b[k := Mark(p)] == b[..k] + [Mark(p)] + b[k + 1..];
  }

  lemma {:induction false} BlankCount(m: nat)
    ensures CountEmpty(seq(m, _ => Empty)) == m
  {
    if m > 0 {
      BlankCount(m - 1);
      assert seq(m, _ => Empty) == seq(m - 1, _ => Empty) + [Empty];
    }
  }

  /** On a blank board every cell is empty, so X moves first exactly when n²
      (equivalently n) is odd: on an even board O moves first. */
  lemma BlankTurn(n: nat)
    ensures CountEmpty(Blank(n)) == Square(n)
    ensures Turn(Blank(n)) == (if n % 2 == 1 then X else O)
  {
    BlankCount(Square(n));
    SquareParity(n);
  }

  /** n² and n have the same parity. */
  lemma {:induction false} SquareParity(n: nat)
    ensures Square(n) % 2 == n % 2
  {
    if n > 0 {
      SquareParity(n - 1);
    }
  }

  // ---------------------------------------------------------------------------
  // Win, tie, end

  /** Every listed index of the line holds c (`all(self[i] == c for i in row)`). */
  predicate Filled(b: seq<Cell>, line: seq<int>, c: Cell)
    requires forall j :: 0 <= j < |line| ==> 0 <= line[j] < |b|
  {
    forall j :: 0 <= j < |line| ==> b[line[j]] == c
  }

  /** `is_win(p)`: some winning line is entirely p's. */
  predicate IsWin(b: seq<Cell>, n: nat, p: Player)
    requires Sized(b, n)
  {
    exists k :: 0 <= k < |CellForCheck(n)| && LineOwned(b, n, k, p)
  }

  /** Line k of the table is entirely p's. */
  predicate LineOwned(b: seq<Cell>, n: nat, k: int, p: Player)
    requires Sized(b, n) && 0 <= k < |CellForCheck(n)|
  {
    CellForCheckIn(n);
    Filled(b, CellForCheck(n)[k], Mark(p))
  }

  /** The cell at grid row r, column c. */
  function At(b: seq<Cell>, n: nat, r: int, c: int): Cell
    requires Sized(b, n) && 0 <= r < n && 0 <= c < n
  {
    RowMajorBound(n, r, c);
    b[r * n + c]
  }

  /** Player p owns every cell of grid row r. */
  ghost predicate RowOwned(b: seq<Cell>, n: nat, p: Player, r: int)
    requires Sized(b, n) && 0 <= r < n
  {
    forall c :: 0 <= c < n ==> At(b, n, r, c) == Mark(p)
  }

  /** Player p owns every cell of grid column c. */
  ghost predicate ColumnOwned(b: seq<Cell>, n: nat, p: Player, c: int)
    requires Sized(b, n) && 0 <= c < n
  {
    forall r :: 0 <= r < n ==> At(b, n, r, c) == Mark(p)
  }

  /** The cell of the anti-diagonal on grid row i. */
  function AntiAt(b: seq<Cell>, n: nat, i: int): Cell
    requires Sized(b, n) && 0 <= i < n
  {
    At(b, n, i, n - 1 - i)
  }

  /** A win stated on the grid: a full row, a full column or a full diagonal. */
  ghost predicate GridWin(b: seq<Cell>, n: nat, p: Player)
    requires Sized(b, n)
  {
    || (exists r :: 0 <= r < n && RowOwned(b, n, p, r))
    || (exists c :: 0 <= c < n && ColumnOwned(b, n, p, c))
    || (forall i :: 0 <= i < n ==> At(b, n, i, i) == Mark(p))
    || (forall i :: 0 <= i < n ==> AntiAt(b, n, i) == Mark(p))
  }

  /** Line c of the table is grid column c. */
  lemma ColumnLine(b: seq<Cell>, n: nat, p: Player, c: int)
    requires Sized(b, n) && 0 <= c < n
    ensures LineOwned(b, n, c, p) <==> ColumnOwned(b, n, p, c)
  {
    CellForCheckShape(n);
    var line := CellForCheck(n)[c];
    assert forall j :: 0 <= j < n ==> b[line[j]] == At(b, n, j, c);
  }

  /** Line n + r of the table is grid row r. */
  lemma RowLine(b: seq<Cell>, n: nat, p: Player, r: int)
    requires Sized(b, n) && 0 <= r < n
    ensures LineOwned(b, n, n + r, p) <==> RowOwned(b, n, p, r)
  {
    CellForCheckShape(n);
    var line := CellForCheck(n)[n + r];
    assert forall j :: 0 <= j < n ==> b[line[j]] == At(b, n, r, j);
  }

  /** Line 2n of the table is the main diagonal. */
  lemma DiagonalLine(b: seq<Cell>, n: nat, p: Player)
    requires Sized(b, n)
    ensures LineOwned(b, n, 2 * n, p) <==> forall i :: 0 <= i < n ==> At(b, n, i, i) == Mark(p)
  {
    CellForCheckShape(n);
    var line := CellForCheck(n)[2 * n];
    assert forall j :: 0 <= j < n ==> b[line[j]] == At(b, n, j, j);
  }

  /** Line 2n + 1 of the table is the anti-diagonal. */
  lemma AntiDiagonalLine(b: seq<Cell>, n: nat, p: Player)
    requires Sized(b, n)
    ensures LineOwned(b, n, 2 * n + 1, p) <==> forall i :: 0 <= i < n ==> AntiAt(b, n, i) == Mark(p)
  {
    CellForCheckShape(n);
    var line := CellForCheck(n)[2 * n + 1];
    assert forall j :: 0 <= j < n ==> b[line[j]] == AntiAt(b, n, j);
  }

  /** The table of `cell_for_check` captures exactly the rows, columns and
      both diagonals: `is_win` holds iff the player owns one of them. */
  lemma IsWinIffGridWin(b: seq<Cell>, n: nat, p: Player)
    requires Sized(b, n)
    ensures IsWin(b, n, p) <==> GridWin(b, n, p)
  {
    CellForCheckShape(n);
    var lines := CellForCheck(n);
    DiagonalLine(b, n, p);
    AntiDiagonalLine(b, n, p);
    if IsWin(b, n, p) {
      var k :| 0 <= k < |lines| && LineOwned(b, n, k, p);
      if k < n {
        ColumnLine(b, n, p, k);
      } else if k < 2 * n {
        RowLine(b, n, p, k - n);
      }
    }
    if GridWin(b, n, p) {
      if r :| 0 <= r < n && RowOwned(b, n, p, r) {
        RowLine(b, n, p, r);
      } else if c :| 0 <= c < n && ColumnOwned(b, n, p, c) {
        ColumnLine(b, n, p, c);
      }
    }
  }

  /** `is_tie`: no cell is empty. It does not look for a winner. */
  predicate IsTie(b: seq<Cell>) {
    CountEmpty(b) == 0
  }

  /** `is_end`: a full board, or a win for O or for X. */
  predicate IsEnd(b: seq<Cell>, n: nat)
    requires Sized(b, n)
  {
    IsTie(b) || IsWin(b, n, O) || IsWin(b, n, X)
  }

  /** A board that is not at its end still has an empty cell to play. */
  lemma NotEndHasMoves(b: seq<Cell>, n: nat)
    requires Sized(b, n) && !IsEnd(b, n)
    ensures |EmptyCells(b)| >= 1
    ensures exists k :: 0 <= k < |b| && b[k] == Empty
  {
    var keys := EmptyCells(b);
    assert keys[0] in keys;
  }

  // ---------------------------------------------------------------------------
  // Static weights (`evaluate`)

  /** Every index of every line is a cell of b. */
  ghost predicate LinesIn(lines: seq<seq<int>>, len: nat) {
    forall k, j :: 0 <= k < |lines| && 0 <= j < |lines[k]| ==> 0 <= lines[k][j] < len
  }

  /** How many of the lines are entirely empty and pass through cell i. */
  function OpenLinesThrough(b: seq<Cell>, lines: seq<seq<int>>, i: int): (c: nat)
    requires LinesIn(lines, |b|)
    ensures c <= |lines|
  {
    if lines == [] then 0
    else
      var last := lines[|lines| - 1];
      OpenLinesThrough(b, lines[..|lines| - 1], i) + (if Filled(b, last, Empty) && i in last then 1 else 0)
  }

  lemma CellForCheckIn(n: nat)
    requires n >= 1
    ensures LinesIn(CellForCheck(n), Square(n))
  {
    CellForCheckShape(n);
  }

  /** The indices of a line, strictly increasing. */
  ghost predicate Ascending(line: seq<int>) {
    forall i, j :: 0 <= i < j < |line| ==> line[i] < line[j]
  }

  /** No line of the table lists a cell twice. */
  lemma CellForCheckAscending(n: nat)
    requires n >= 1
    ensures forall k :: 0 <= k < |CellForCheck(n)| ==> Ascending(CellForCheck(n)[k])
  {
    CellForCheckShape(n);
  }

  /** What `evaluate` promises: one key per empty cell, whose value is the
      number of winning lines through it on which nobody has played yet. */
  function Weights(b: seq<Cell>, n: nat): (w: map<int, nat>)
    requires Sized(b, n)
  {
    CellForCheckIn(n);
    map i | 0 <= i < |b| && b[i] == Empty :: OpenLinesThrough(b, CellForCheck(n), i)
  }

  /** The keys of the weight map are exactly the empty cells, and no weight
      exceeds the 2n+2 lines of the table. */
  lemma WeightsKeys(b: seq<Cell>, n: nat)
    requires Sized(b, n)
    ensures Weights(b, n).Keys == set k | k in EmptyCells(b)
    ensures forall i :: i in Weights(b, n) ==> Weights(b, n)[i] <= 2 * n + 2
  {
    CellForCheckShape(n);
  }

  /** The `result` dict that `evaluate` builds: a key only for the empty
      cells that lie on at least one open line, valued by how many. */
  function Tally(b: seq<Cell>, n: nat): map<int, nat>
    requires Sized(b, n)
  {
    CellForCheckIn(n);
    map i | 0 <= i < |b| && b[i] == Empty && OpenLinesThrough(b, CellForCheck(n), i) > 0
      :: OpenLinesThrough(b, CellForCheck(n), i)
  }

  /** `evaluate` as written: the default-zero part is keyed by the empty
      cells of `other`, the module-level `board` of XO.py:53, rather than by
      those of b. */
  function EvaluateAsWritten(b: seq<Cell>, n: nat, other: seq<Cell>): map<int, nat>
    requires Sized(b, n)
  {
    (map i | i in EmptyCells(other) :: 0) + Tally(b, n)
  }

  /** When the module-level board is the board itself, the as-written
      evaluation agrees with Weights. */
  lemma EvaluateAsWrittenOnSelf(b: seq<Cell>, n: nat)
    requires Sized(b, n)
    ensures EvaluateAsWritten(b, n, b) == Weights(b, n)
  {
    CellForCheckIn(n);
    var w, v, t := EvaluateAsWritten(b, n, b), Weights(b, n), Tally(b, n);
    forall i | i in v
      ensures i in w && w[i] == v[i]
    {
      assert i in EmptyCells(b);
      if i !in t {
        assert OpenLinesThrough(b, CellForCheck(n), i) == 0;
      }
    }
    forall i | i in w
      ensures i in v
    {
      if i !in t {
        assert i in EmptyCells(b);
      }
    }
  }

  /** Counterexample: on a full 1×1 board evaluated while the module-level
      board is still blank, the result has a key for an occupied cell, so its
      keys are not the board's empty cells. */
  lemma EvaluateAsWrittenWrongKeys()
    ensures var b := [Mark(X)];
            Sized(b, 1) && 0 in EvaluateAsWritten(b, 1, Blank(1)) && b[0] != Empty
  {
    var b := [Mark(X)];
    assert Blank(1)[0] == Empty;
    assert 0 in EmptyCells(Blank(1));
  }
}
