/** The `Board` class of XO.py: a mutable array of N² cells whose methods
    play moves, score positions by search (filling cells speculatively and
    emptying them again) and let the engine play. Each method is proved
    against the functions of Rules and Search on the cell sequence. */
module Boards {
  import opened Rules
  import opened Search

  /** Why `move` raises: its two asserts, and the IndexError of a key that
      names no cell. */
  datatype MoveError = NotYourTurn | OutOfRange | BadCell

  /** A list index k is valid for a list of length len when
      -len <= k < len; a negative one counts from the end. */
  predicate InRange(k: int, len: nat) {
    -(len as int) <= k < len
  }

  /** The position that Python's `self[k]` reads or writes. */
  function PyIndex(k: int, len: nat): (i: nat)
    requires InRange(k, len)
    ensures i < len
    ensures i % len == k % len
  {
    if k < 0 then k + len else k
  }

  /** `move` either returns the board or raises. */
  datatype Outcome = Pass | Fail(error: MoveError)

  /** `ai_move` either stops on its `Game is End` assert or plays. */
  datatype AiResult = GameIsEnd | Moved(choice: Choice)

  /** One turn of the maximising loop, from the i-th key on. */
  lemma MaxLoopStep(b: seq<Cell>, n: nat, player: Player, depth: int, maxDepth: Option<int>,
                    alpha: int, beta: int, keys: seq<nat>, i: nat, best: int, child: Scored)
    requires Sized(b, n) && i < |keys| && EmptyKeys(b, keys)
    requires best == NEG_INF || -1 <= best <= 1
    requires child == AlphaBetaValue(b[keys[i] := Mark(player)], n, player, depth + 1, maxDepth, alpha, beta, false)
    ensures beta <= Max(alpha, child.score) || i + 1 == |keys| ==>
              MaxLoop(b, n, player, depth, maxDepth, alpha, beta, keys[i..], best) == Scored(Max(best, child.score), child.depth)
    ensures Max(alpha, child.score) < beta && i + 1 < |keys| ==>
              MaxLoop(b, n, player, depth, maxDepth, alpha, beta, keys[i..], best) ==
              MaxLoop(b, n, player, depth, maxDepth, Max(alpha, child.score), beta, keys[i + 1..], Max(best, child.score))
  {
    assert keys[i..][0] == keys[i] && keys[i..][1..] == keys[i + 1..];
  }

  /** One turn of the minimising loop, from the i-th key on. */
  lemma MinLoopStep(b: seq<Cell>, n: nat, player: Player, depth: int, maxDepth: Option<int>,
                    alpha: int, beta: int, keys: seq<nat>, i: nat, worst: int, child: Scored)
    requires Sized(b, n) && i < |keys| && EmptyKeys(b, keys)
    requires worst == POS_INF || -1 <= worst <= 1
    requires child == AlphaBetaValue(b[keys[i] := Mark(player.Opp())], n, player, depth + 1, maxDepth, alpha, beta, true)
    ensures Min(beta, child.score) <= alpha || i + 1 == |keys| ==>
              MinLoop(b, n, player, depth, maxDepth, alpha, beta, keys[i..], worst) == Scored(Min(worst, child.score), child.depth)
    ensures alpha < Min(beta, child.score) && i + 1 < |keys| ==>
              MinLoop(b, n, player, depth, maxDepth, alpha, beta, keys[i..], worst) ==
              MinLoop(b, n, player, depth, maxDepth, alpha, Min(beta, child.score), keys[i + 1..], Min(worst, child.score))
  {
    assert keys[i..][0] == keys[i] && keys[i..][1..] == keys[i + 1..];
  }

  /** m[i], or 0 when i is not a key. */
  function Get(m: map<int, nat>, i: int): nat {
    if i in m then m[i] else 0
  }

  /** The open-line count over one more line of the table. */
  lemma OpenLinesStep(b: seq<Cell>, lines: seq<seq<int>>, li: nat)
    requires LinesIn(lines, |b|) && li < |lines|
    ensures forall i :: OpenLinesThrough(b, lines[..li + 1], i) ==
              OpenLinesThrough(b, lines[..li], i) + (if Filled(b, lines[li], Empty) && i in lines[li] then 1 else 0)
  {
    assert lines[..li + 1][..li] == lines[..li];
  }

  /** Counts kept only for empty cells, merged over a zero for every empty
      cell, give the weight map. */
  lemma WeightsFromCounts(b: seq<Cell>, n: nat, counts: map<int, nat>)
    requires Sized(b, n) && LinesIn(CellForCheck(n), |b|)
    requires forall i :: i in counts ==> 0 <= i < |b| && b[i] == Empty
    requires forall i :: Get(counts, i) == OpenLinesThrough(b, CellForCheck(n), i)
    ensures (map i | i in EmptyCells(b) :: 0) + counts == Weights(b, n)
  {
    var zeros := map i | i in EmptyCells(b) :: 0;
    var w := zeros + counts;
    var weights := Weights(b, n);
    forall i
      ensures i in w <==> i in weights
      ensures i in w ==> w[i] == weights[i]
    {
      if i in counts {
        assert w[i] == Get(counts, i);
      } else if i in zeros {
        assert w[i] == Get(counts, i);
      }
    }
  }

  /** The `ai_move` loop starts from the first empty cell. */
  lemma ChooseMoveStart(b: seq<Cell>, n: nat, player: Player, maxDepth: Option<int>, keys: seq<nat>)
    requires Sized(b, n) && !IsEnd(b, n)
    requires keys == EmptyCells(b) && |keys| >= 1 && EmptyKeys(b, keys)
    ensures var s := RootScore(b, n, player, maxDepth, keys[0]);
            ChooseMove(b, n, player, maxDepth) == Scan(b, n, player, maxDepth, keys[1..], Choice(keys[0], s.score, s.depth))
  {
  }

  /** One turn of the `ai_move` loop, at the i-th key. */
  lemma ScanStep(b: seq<Cell>, n: nat, player: Player, maxDepth: Option<int>, keys: seq<nat>, i: nat, c: Choice)
    requires Sized(b, n) && EmptyKeys(b, keys) && i < |keys| && c.move < |b| && b[c.move] == Empty
    ensures var s := RootScore(b, n, player, maxDepth, keys[i]);
            Scan(b, n, player, maxDepth, keys[i..], c) ==
            Scan(b, n, player, maxDepth, keys[i + 1..],
                 if Outranks(RankOf(b, n, player, maxDepth, keys[i]), ChoiceRank(b, n, c))
                 then Choice(keys[i], s.score, s.depth) else c)
  {
    assert keys[i..][0] == keys[i] && keys[i..][1..] == keys[i + 1..];
  }

  /** The replacement test in the loop of `ai_move`: a move with a higher
      score wins; on equal scores the shallower one; on equal depths the one
      with the greater weight. The current best is kept on a full tie. */
  method Prefer(evaluation: map<int, nat>, key: nat, score: int, depth: int,
                bestMove: nat, bestScore: int, bestDepth: int)
    returns (score': int, move': nat, depth': int)
    requires key in evaluation && score > NEG_INF
    requires bestScore > NEG_INF ==> bestMove in evaluation
    ensures bestScore <= NEG_INF ==> score' == score && move' == key && depth' == depth
    ensures bestScore > NEG_INF && Outranks(Rank(score, depth, evaluation[key]), Rank(bestScore, bestDepth, evaluation[bestMove]))
            ==> score' == score && move' == key && depth' == depth
    ensures bestScore > NEG_INF && !Outranks(Rank(score, depth, evaluation[key]), Rank(bestScore, bestDepth, evaluation[bestMove]))
            ==> score' == bestScore && move' == bestMove && depth' == bestDepth
  {
    score', move', depth' := bestScore, bestMove, bestDepth;
    if score > bestScore {
      score', move', depth' := score, key, depth;
    } else if score == bestScore {
      if depth < bestDepth {
        move', depth' := key, depth;
      } else if depth == bestDepth && evaluation[key] > evaluation[bestMove] {
        move' := key;
      }
    }
  }

  class Board {
    const size: nat
    const cells: array<Cell>

    ghost predicate Valid() {
      size >= 1 && cells.Length == Square(size)
    }

    /** `Board(size)`: size² empty cells. */
    constructor (size: nat)
      requires size >= 1
      ensures Valid() && this.size == size && fresh(cells)
      ensures cells[..] == Blank(size)
    {
      this.size := size;
      cells := new Cell[Square(size)](_ => Empty);
    }

    /** `clear`: every cell is empty again; the size does not change. */
    method Clear()
      requires Valid()
      modifies cells
      ensures cells[..] == Blank(size)
    {
      for i := 0 to cells.Length
        invariant forall j :: 0 <= j < i ==> cells[j] == Empty
      {
        cells[i] := Empty;
      }
    }

    /** `copy`: a new board with the same size and cells and an array of its
        own, so that playing on the copy leaves this board as it is. */
    method Copy() returns (c: Board)
      requires Valid()
      ensures fresh(c) && fresh(c.cells) && c.Valid()
      ensures c.size == size && c.cells[..] == cells[..]
    {
      c := new Board(size);
      for i := 0 to cells.Length
        invariant c.cells[..i] == cells[..i]
      {
        c.cells[i] := cells[i];
      }
    }

    /** `move(key, player)` with a 1-based key: refused unless it is
        `player`'s turn, the key names a cell under Python's indexing rules
        and that cell is empty; otherwise exactly that cell becomes
        `player`'s. */
    method Move(key: int, player: Player) returns (r: Outcome)
      requires Valid()
      modifies cells
      ensures Turn(old(cells[..])) != player ==> r == Fail(NotYourTurn) && cells[..] == old(cells[..])
      ensures Turn(old(cells[..])) == player && !InRange(key - 1, cells.Length) ==>
                r == Fail(OutOfRange) && cells[..] == old(cells[..])
      ensures Turn(old(cells[..])) == player && InRange(key - 1, cells.Length) &&
              old(cells[PyIndex(key - 1, cells.Length)]) != Empty ==>
                r == Fail(BadCell) && cells[..] == old(cells[..])
      ensures Turn(old(cells[..])) == player && InRange(key - 1, cells.Length) &&
              old(cells[PyIndex(key - 1, cells.Length)]) == Empty ==>
                r == Pass && cells[..] == old(cells[..])[PyIndex(key - 1, cells.Length) := Mark(player)]
      ensures r == Pass ==> CountEmpty(cells[..]) == CountEmpty(old(cells[..])) - 1 && Turn(cells[..]) == player.Opp()
    {
      if Turn(cells[..]) != player {
        return Fail(NotYourTurn);
      }
      var k := key - 1;
      if !InRange(k, cells.Length) {
        return Fail(OutOfRange);
      }
      var i := PyIndex(k, cells.Length);
      if cells[i] != Empty {
        return Fail(BadCell);
      }
      PlaceFlipsTurn(cells[..], i, player);
      cells[i] := Mark(player);
      r := Pass;
    }

    /** `evaluate`: for every winning line on which nobody has played, add
        one to each of its cells; every empty cell gets a key, 0 by default. */
    method Evaluate() returns (w: map<int, nat>)
      requires Valid()
      ensures w == Weights(cells[..], size)
    {
      var b := cells[..];
      var lines := CellForCheck(size);
      CellForCheckIn(size);
      CellForCheckAscending(size);
      var result: map<int, nat> := map[];
      for li := 0 to |lines|
        invariant forall i :: i in result ==> 0 <= i < |b| && b[i] == Empty
        invariant forall i :: Get(result, i) == OpenLinesThrough(b, lines[..li], i)
      {
        result := CountOpenLine(lines[li], result);
        OpenLinesStep(b, lines, li);
      }
      assert lines[..|lines|] == lines;
      w := (map i | i in EmptyCells(b) :: 0) + result;
      WeightsFromCounts(b, size, result);
    }

    /** The inner loop of `evaluate` for one line `row`: skip a cell that is
        not empty or a line on which someone has played, otherwise add one
        to the cell's count. */
    method CountOpenLine(row: seq<int>, result: map<int, nat>) returns (r: map<int, nat>)
      requires forall j :: 0 <= j < |row| ==> 0 <= row[j] < cells.Length
      requires Ascending(row)
      requires forall i :: i in result ==> 0 <= i < cells.Length && cells[i] == Empty
      ensures forall i :: i in r ==> 0 <= i < cells.Length && cells[i] == Empty
      ensures forall i :: Get(r, i) == Get(result, i) + (if Filled(cells[..], row, Empty) && i in row then 1 else 0)
    {
      var b := cells[..];
      r := result;
      for j := 0 to |row|
        invariant forall i :: i in r ==> 0 <= i < |b| && b[i] == Empty
        invariant forall i :: Get(r, i) == Get(result, i) + (if Filled(b, row, Empty) && i in row[..j] then 1 else 0)
      {
        var i := row[j];
        assert row[..j + 1] == row[..j] + [i];
        if i !in EmptyCells(b) {
          continue;
        }
        if !Filled(b, row, Empty) {
          continue;
        }
        assert i !in row[..j];
        if i !in r {
          r := r[i := 0];
        }
        r := r[i := r[i] + 1];
      }
      assert row[..|row|] == row;
    }

    /** `alpha_beta`: a won, lost or tied position, or one at `max_depth`,
        is scored at once; otherwise the empty cells are searched one ply
        deeper. On return the cells are as they were, and the score and
        depth are AlphaBetaValue of the cells on entry. */
    method AlphaBeta(player: Player, depth: int, maxDepth: Option<int>, alpha: int, beta: int, isMax: bool)
      returns (score: int, d: int)
      requires Valid()
      modifies cells
      ensures cells[..] == old(cells[..])
      ensures Scored(score, d) == AlphaBetaValue(old(cells[..]), size, player, depth, maxDepth, alpha, beta, isMax)
      decreases CountEmpty(cells[..]), 3
    {
      var b := cells[..];
      if IsWin(b, size, player) {
        return 1, depth;
      } else if IsWin(b, size, player.Opp()) {
        return -1, depth;
      } else if IsTie(b) || maxDepth == Some(depth) {
        return 0, depth;
      }
      var keys := EmptyCells(b);
      EmptyCellsAreEmptyKeys(b);
      if isMax {
        score, d := MaxChildren(player, depth, maxDepth, alpha, beta, keys);
      } else {
        score, d := MinChildren(player, depth, maxDepth, alpha, beta, keys);
      }
    }

    /** The `is_max` loop of `alpha_beta`: `player` tries each of keys in
        turn, raising `best_score` and `alpha`, and stops once
        `beta <= alpha`. */
    method MaxChildren(player: Player, depth: int, maxDepth: Option<int>, alpha: int, beta: int, keys: seq<nat>)
      returns (score: int, d: int)
      requires Valid() && |keys| >= 1 && EmptyKeys(cells[..], keys)
      modifies cells
      ensures cells[..] == old(cells[..])
      ensures Scored(score, d) == MaxLoop(old(cells[..]), size, player, depth, maxDepth, alpha, beta, keys, NEG_INF)
      decreases CountEmpty(cells[..]), 2
    {
      var b := cells[..];
      ghost var target := MaxLoop(b, size, player, depth, maxDepth, alpha, beta, keys, NEG_INF);
      var best, a, i := NEG_INF, alpha, 0;
      d := depth;
      assert keys[0..] == keys;
      while i < |keys|
        invariant 0 <= i <= |keys| && cells[..] == b
        invariant best == NEG_INF || -1 <= best <= 1
        invariant i < |keys| ==> MaxLoop(b, size, player, depth, maxDepth, a, beta, keys[i..], best) == target
        invariant i == |keys| ==> Scored(best, d) == target
      {
        var s, dd := MaxChild(player, depth, maxDepth, a, beta, keys, i, best);
        d := dd;
        best := Max(best, s);
        a := Max(a, s);
        if beta <= a {
          break;
        }
        i := i + 1;
      }
      score := best;
    }

    /** The minimising loop of `alpha_beta`: the opponent tries each of keys
        in turn, lowering `worst_score` and `beta`, and stops once
        `beta <= alpha`. */
    method MinChildren(player: Player, depth: int, maxDepth: Option<int>, alpha: int, beta: int, keys: seq<nat>)
      returns (score: int, d: int)
      requires Valid() && |keys| >= 1 && EmptyKeys(cells[..], keys)
      modifies cells
      ensures cells[..] == old(cells[..])
      ensures Scored(score, d) == MinLoop(old(cells[..]), size, player, depth, maxDepth, alpha, beta, keys, POS_INF)
      decreases CountEmpty(cells[..]), 2
    {
      var b := cells[..];
      ghost var target := MinLoop(b, size, player, depth, maxDepth, alpha, beta, keys, POS_INF);
      var worst, bt, i := POS_INF, beta, 0;
      d := depth;
      assert keys[0..] == keys;
      while i < |keys|
        invariant 0 <= i <= |keys| && cells[..] == b
        invariant worst == POS_INF || -1 <= worst <= 1
        invariant i < |keys| ==> MinLoop(b, size, player, depth, maxDepth, alpha, bt, keys[i..], worst) == target
        invariant i == |keys| ==> Scored(worst, d) == target
      {
        var s, dd := MinChild(player, depth, maxDepth, alpha, bt, keys, i, worst);
        d := dd;
        worst := Min(worst, s);
        bt := Min(bt, s);
        if bt <= alpha {
          break;
        }
        i := i + 1;
      }
      score := worst;
    }

    /** One pass of the maximising loop: `player` takes keys[i] and the
        opponent answers; the result either ends the loop or carries it on
        with the raised `best_score` and `alpha`. */
    method MaxChild(player: Player, depth: int, maxDepth: Option<int>, alpha: int, beta: int,
                    keys: seq<nat>, i: nat, best: int)
      returns (s: int, dd: int)
      requires Valid() && i < |keys| && EmptyKeys(cells[..], keys)
      requires best == NEG_INF || -1 <= best <= 1
      modifies cells
      ensures cells[..] == old(cells[..]) && -1 <= s <= 1
      ensures beta <= Max(alpha, s) || i + 1 == |keys| ==>
                MaxLoop(cells[..], size, player, depth, maxDepth, alpha, beta, keys[i..], best) == Scored(Max(best, s), dd)
      ensures Max(alpha, s) < beta && i + 1 < |keys| ==>
                MaxLoop(cells[..], size, player, depth, maxDepth, alpha, beta, keys[i..], best) ==
                MaxLoop(cells[..], size, player, depth, maxDepth, Max(alpha, s), beta, keys[i + 1..], Max(best, s))
      decreases CountEmpty(cells[..]), 1
    {
      s, dd := TryCell(keys[i], player, player, depth + 1, maxDepth, alpha, beta, false);
      MaxLoopStep(cells[..], size, player, depth, maxDepth, alpha, beta, keys, i, best, Scored(s, dd));
    }

    /** One pass of the minimising loop: the opponent takes keys[i] and
        `player` answers; the result either ends the loop or carries it on
        with the lowered `worst_score` and `beta`. */
    method MinChild(player: Player, depth: int, maxDepth: Option<int>, alpha: int, beta: int,
                    keys: seq<nat>, i: nat, worst: int)
      returns (s: int, dd: int)
      requires Valid() && i < |keys| && EmptyKeys(cells[..], keys)
      requires worst == POS_INF || -1 <= worst <= 1
      modifies cells
      ensures cells[..] == old(cells[..]) && -1 <= s <= 1
      ensures Min(beta, s) <= alpha || i + 1 == |keys| ==>
                MinLoop(cells[..], size, player, depth, maxDepth, alpha, beta, keys[i..], worst) == Scored(Min(worst, s), dd)
      ensures alpha < Min(beta, s) && i + 1 < |keys| ==>
                MinLoop(cells[..], size, player, depth, maxDepth, alpha, beta, keys[i..], worst) ==
                MinLoop(cells[..], size, player, depth, maxDepth, alpha, Min(beta, s), keys[i + 1..], Min(worst, s))
      decreases CountEmpty(cells[..]), 1
    {
      s, dd := TryCell(keys[i], player.Opp(), player, depth + 1, maxDepth, alpha, beta, true);
      MinLoopStep(cells[..], size, player, depth, maxDepth, alpha, beta, keys, i, worst, Scored(s, dd));
    }

    /** The body of both `alpha_beta` loops and of the `ai_move` loop:
        `mark` is written into the empty cell key, the position is searched,
        and the cell is emptied again. */
    method TryCell(key: nat, mark: Player, player: Player, depth: int, maxDepth: Option<int>,
                   alpha: int, beta: int, isMax: bool)
      returns (score: int, d: int)
      requires Valid() && key < cells.Length && cells[key] == Empty
      modifies cells
      ensures cells[..] == old(cells[..])
      ensures Scored(score, d) ==
              AlphaBetaValue(old(cells[..])[key := Mark(mark)], size, player, depth, maxDepth, alpha, beta, isMax)
      decreases CountEmpty(cells[..]), 0
    {
      ghost var b := cells[..];
      PlaceFlipsTurn(b, key, mark);
      cells[key] := Mark(mark);
      assert cells[..] == b[key := Mark(mark)];
      score, d := AlphaBeta(player, depth, maxDepth, alpha, beta, isMax);
      cells[key] := Empty;
      assert cells[..] == b;
    }

    /** `ai_move`: refused at the end of the game; otherwise scores every
        empty cell with a full-window search, keeps the best by score, then
        fewer plies, then `evaluate` weight, and plays it for `player`
        (whose turn it need not be). */
    method AiMove(player: Player, maxDepth: Option<int>) returns (r: AiResult)
      requires Valid()
      modifies cells
      ensures IsEnd(old(cells[..]), size) ==> r == GameIsEnd && cells[..] == old(cells[..])
      ensures !IsEnd(old(cells[..]), size) ==>
                && r == Moved(ChooseMove(old(cells[..]), size, player, maxDepth))
                && cells[..] == old(cells[..])[r.choice.move := Mark(player)]
    {
      var b := cells[..];
      if IsEnd(b, size) {
        return GameIsEnd;
      }
      var evaluation := Evaluate();
      var best := BestMove(player, maxDepth, evaluation);
      cells[best.move] := Mark(player);
      assert cells[..] == b[best.move := Mark(player)];
      r := Moved(best);
    }

    /** The loop of `ai_move`: every empty cell is tried with a full-window
        search, and a move replaces the best so far when its score is higher,
        or equal with fewer plies, or equal on both with a greater `evaluate`
        weight. The first empty cell always replaces `best_score = -inf`. */
    method BestMove(player: Player, maxDepth: Option<int>, evaluation: map<int, nat>) returns (best: Choice)
      requires Valid() && !IsEnd(cells[..], size) && evaluation == Weights(cells[..], size)
      modifies cells
      ensures cells[..] == old(cells[..])
      ensures best == ChooseMove(old(cells[..]), size, player, maxDepth)
    {
      var b := cells[..];
      var bestScore: int, bestMove: nat, bestDepth: int := NEG_INF, 0, 0;
      var keys := EmptyCells(b);
      NotEndHasMoves(b, size);
      EmptyCellsAreEmptyKeys(b);
      for i := 0 to |keys|
        invariant cells[..] == b
        invariant i == 0 ==> bestScore == NEG_INF
        invariant i > 0 ==> bestMove < |b| && b[bestMove] == Empty && bestMove in evaluation
        invariant i > 0 ==> Scan(b, size, player, maxDepth, keys[i..], Choice(bestMove, bestScore, bestDepth))
                            == ChooseMove(b, size, player, maxDepth)
      {
        bestScore, bestMove, bestDepth := ConsiderMove(player, maxDepth, evaluation, keys, i, bestScore, bestMove, bestDepth);
      }
      assert keys[|keys|..] == [];
      best := Choice(bestMove, bestScore, bestDepth);
    }

    /** One pass of the loop in `ai_move`: score the empty cell keys[i] and
        let it replace the best move so far when it outranks it. */
    method ConsiderMove(player: Player, maxDepth: Option<int>, evaluation: map<int, nat>, keys: seq<nat>, i: nat,
                        bestScore: int, bestMove: nat, bestDepth: int)
      returns (score': int, move': nat, depth': int)
      requires Valid() && !IsEnd(cells[..], size) && evaluation == Weights(cells[..], size)
      requires keys == EmptyCells(cells[..]) && EmptyKeys(cells[..], keys) && i < |keys|
      requires i == 0 ==> bestScore == NEG_INF
      requires i > 0 ==> bestMove < cells.Length && cells[bestMove] == Empty && bestMove in evaluation
      modifies cells
      ensures cells[..] == old(cells[..])
      ensures move' < cells.Length && cells[move'] == Empty && move' in evaluation
      ensures i == 0 ==> Scan(cells[..], size, player, maxDepth, keys[1..], Choice(move', score', depth'))
                         == ChooseMove(cells[..], size, player, maxDepth)
      ensures i > 0 ==> Scan(cells[..], size, player, maxDepth, keys[i + 1..], Choice(move', score', depth'))
                        == Scan(cells[..], size, player, maxDepth, keys[i..], Choice(bestMove, bestScore, bestDepth))
    {
      ghost var b := cells[..];
      WeightsKeys(b, size);
      var key := keys[i];
      var score, depth := TryCell(key, player, player, 1, maxDepth, NEG_INF, POS_INF, false);
      score', move', depth' := Prefer(evaluation, key, score, depth, bestMove, bestScore, bestDepth);
      if i == 0 {
        ChooseMoveStart(b, size, player, maxDepth, keys);
      } else {
        ScanStep(b, size, player, maxDepth, keys, i, Choice(bestMove, bestScore, bestDepth));
      }
    }
  }
}
