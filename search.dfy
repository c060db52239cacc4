/** The game-tree search of XO.py as functions of the cells: `alpha_beta`
    (minimax with alpha-beta pruning and an optional depth cap), a plain
    minimax to compare it against, and the root move choice of `ai_move`. */
module Search {
  import opened Rules

  /** Stand-ins for the source's `-inf` and `inf`: every score lies in
      {-1, 0, 1}, so -2 and 2 compare with scores exactly as the infinities do. */
  const NEG_INF: int := -2
  const POS_INF: int := 2

  datatype Option<T> = None | Some(value: T)

  /** What one search call returns: the score and the depth reported with it. */
  datatype Scored = Scored(score: int, depth: int)

  /** Every key is an empty cell of b. */
  ghost predicate EmptyKeys(b: seq<Cell>, keys: seq<nat>) {
    forall j :: 0 <= j < |keys| ==> keys[j] < |b| && b[keys[j]] == Empty
  }

  lemma EmptyCellsAreEmptyKeys(b: seq<Cell>)
    ensures EmptyKeys(b, EmptyCells(b))
  {
    var keys := EmptyCells(b);
    forall j | 0 <= j < |keys| ensures keys[j] < |b| && b[keys[j]] == Empty {
      assert keys[j] in keys;
    }
  }

  function Max(a: int, b: int): int { if a >= b then a else b }
  function Min(a: int, b: int): int { if a <= b then a else b }

  /** Leaves of the search, in the order the source tests them. */
  predicate IsLeaf(b: seq<Cell>, n: nat, player: Player, depth: int, maxDepth: Option<int>)
    requires Sized(b, n)
  {
    IsWin(b, n, player) || IsWin(b, n, player.Opp()) || IsTie(b) || maxDepth == Some(depth)
  }

  /** The score of a leaf: +1 if `player` has won, else -1 if the opponent
      has, else 0 (a full board or the depth cap). */
  function LeafScore(b: seq<Cell>, n: nat, player: Player): (r: int)
    requires Sized(b, n)
    ensures -1 <= r <= 1
    ensures r == 1 ==> IsWin(b, n, player)
    ensures r == -1 ==> IsWin(b, n, player.Opp())
  {
    if IsWin(b, n, player) then 1 else if IsWin(b, n, player.Opp()) then -1 else 0
  }

  // ---------------------------------------------------------------------------
  // `alpha_beta`, step for step

  /** The result of `alpha_beta(player, depth, max_depth, alpha, beta, is_max)`
      on cells b. A maximising node places `player`, a minimising node the
      opponent; both scan the empty cells in ascending order, and the depth
      returned is the one of the last child explored. */
  function AlphaBetaValue(b: seq<Cell>, n: nat, player: Player, depth: int, maxDepth: Option<int>,
                          alpha: int, beta: int, isMax: bool): (r: Scored)
    requires Sized(b, n)
    ensures -1 <= r.score <= 1
    ensures depth <= r.depth <= depth + CountEmpty(b)
    decreases CountEmpty(b), 1, 0
  {
    if IsWin(b, n, player) then Scored(1, depth)
    else if IsWin(b, n, player.Opp()) then Scored(-1, depth)
    else if IsTie(b) || maxDepth == Some(depth) then Scored(0, depth)
    else
      var keys := EmptyCells(b);
      EmptyCellsAreEmptyKeys(b);
      if isMax then MaxLoop(b, n, player, depth, maxDepth, alpha, beta, keys, NEG_INF)
      else MinLoop(b, n, player, depth, maxDepth, alpha, beta, keys, POS_INF)
  }

  /** The `is_max` loop from the first of `keys` on, with `best_score` so far. */
  function MaxLoop(b: seq<Cell>, n: nat, player: Player, depth: int, maxDepth: Option<int>,
                   alpha: int, beta: int, keys: seq<nat>, best: int): (r: Scored)
    requires Sized(b, n) && |keys| >= 1 && EmptyKeys(b, keys)
    requires best == NEG_INF || -1 <= best <= 1
    ensures -1 <= r.score <= 1
    ensures depth + 1 <= r.depth <= depth + CountEmpty(b)
    decreases CountEmpty(b), 0, |keys|
  {
    PlaceFlipsTurn(b, keys[0], player);
    var child := AlphaBetaValue(b[keys[0] := Mark(player)], n, player, depth + 1, maxDepth, alpha, beta, false);
    var best' := Max(best, child.score);
    var alpha' := Max(alpha, child.score);
    if beta <= alpha' || |keys| == 1 then Scored(best', child.depth)
    else MaxLoop(b, n, player, depth, maxDepth, alpha', beta, keys[1..], best')
  }

  /** The minimising loop, with `worst_score` so far. */
  function MinLoop(b: seq<Cell>, n: nat, player: Player, depth: int, maxDepth: Option<int>,
                   alpha: int, beta: int, keys: seq<nat>, worst: int): (r: Scored)
    requires Sized(b, n) && |keys| >= 1 && EmptyKeys(b, keys)
    requires worst == POS_INF || -1 <= worst <= 1
    ensures -1 <= r.score <= 1
    ensures depth + 1 <= r.depth <= depth + CountEmpty(b)
    decreases CountEmpty(b), 0, |keys|
  {
    PlaceFlipsTurn(b, keys[0], player.Opp());
    var child := AlphaBetaValue(b[keys[0] := Mark(player.Opp())], n, player, depth + 1, maxDepth, alpha, beta, true);
    var worst' := Min(worst, child.score);
    var beta' := Min(beta, child.score);
    if beta' <= alpha || |keys| == 1 then Scored(worst', child.depth)
    else MinLoop(b, n, player, depth, maxDepth, alpha, beta', keys[1..], worst')
  }

  // ---------------------------------------------------------------------------
  // Plain minimax, the reference for the pruned search

  /** The minimax value of cells b, scored from `player`'s side, with the same
      leaves and the same alternation as `alpha_beta` but without pruning. */
  function Minimax(b: seq<Cell>, n: nat, player: Player, depth: int, maxDepth: Option<int>, isMax: bool): (v: int)
    requires Sized(b, n)
    ensures -1 <= v <= 1
    decreases CountEmpty(b), 1, 0
  {
    if IsLeaf(b, n, player, depth, maxDepth) then LeafScore(b, n, player)
    else
      EmptyCellsAreEmptyKeys(b);
      if isMax then MaxOver(b, n, player, depth, maxDepth, EmptyCells(b))
      else MinOver(b, n, player, depth, maxDepth, EmptyCells(b))
  }

  /** The largest minimax value among the children reached by `player`
      taking one of keys. */
  function MaxOver(b: seq<Cell>, n: nat, player: Player, depth: int, maxDepth: Option<int>, keys: seq<nat>): (v: int)
    requires Sized(b, n) && |keys| >= 1 && EmptyKeys(b, keys)
    ensures -1 <= v <= 1
    decreases CountEmpty(b), 0, |keys|
  {
    PlaceFlipsTurn(b, keys[0], player);
    var v0 := Minimax(b[keys[0] := Mark(player)], n, player, depth + 1, maxDepth, false);
    if |keys| == 1 then v0 else Max(v0, MaxOver(b, n, player, depth, maxDepth, keys[1..]))
  }

  /** The smallest minimax value among the children reached by the opponent
      taking one of keys. */
  function MinOver(b: seq<Cell>, n: nat, player: Player, depth: int, maxDepth: Option<int>, keys: seq<nat>): (v: int)
    requires Sized(b, n) && |keys| >= 1 && EmptyKeys(b, keys)
    ensures -1 <= v <= 1
    decreases CountEmpty(b), 0, |keys|
  {
    PlaceFlipsTurn(b, keys[0], player.Opp());
    var v0 := Minimax(b[keys[0] := Mark(player.Opp())], n, player, depth + 1, maxDepth, true);
    if |keys| == 1 then v0 else Min(v0, MinOver(b, n, player, depth, maxDepth, keys[1..]))
  }

  // ---------------------------------------------------------------------------
  // Pruning never changes the score

  /** The fail-soft relation between a pruned result r and the true value v
      inside the window (alpha, beta): exact inside the window, and a bound
      on the correct side outside it. */
  ghost predicate FailSoft(r: int, v: int, alpha: int, beta: int) {
    && (r <= alpha ==> v <= r)
    && (alpha < r < beta ==> v == r)
    && (beta <= r ==> r <= v)
  }

  /** Alpha-beta search within any window NEG_INF <= alpha < beta <= POS_INF
      returns a fail-soft approximation of the minimax value. */
  lemma {:induction false} AlphaBetaFailSoft(b: seq<Cell>, n: nat, player: Player, depth: int, maxDepth: Option<int>,
                                             alpha: int, beta: int, isMax: bool)
    requires Sized(b, n)
    requires NEG_INF <= alpha < beta <= POS_INF
    ensures FailSoft(AlphaBetaValue(b, n, player, depth, maxDepth, alpha, beta, isMax).score,
                     Minimax(b, n, player, depth, maxDepth, isMax), alpha, beta)
    decreases CountEmpty(b), 1, 0
  {
    if !IsLeaf(b, n, player, depth, maxDepth) {
      var keys := EmptyCells(b);
      EmptyCellsAreEmptyKeys(b);
      if isMax {
        MaxLoopFailSoft(b, n, player, depth, maxDepth, alpha, beta, keys, NEG_INF, alpha, NEG_INF);
      } else {
        MinLoopFailSoft(b, n, player, depth, maxDepth, alpha, beta, keys, POS_INF, beta, POS_INF);
      }
    }
  }

  /** One step of the maximising loop keeps the fail-soft invariant, and a
      cut-off happens only once `best` has reached beta. */
  lemma MaxStep(best: int, seen: int, alpha0: int, beta: int, r: int, w: int)
    requires alpha0 < beta && Max(alpha0, best) < beta
    requires FailSoft(best, seen, alpha0, beta)
    requires FailSoft(r, w, Max(alpha0, best), beta)
    ensures FailSoft(Max(best, r), Max(seen, w), alpha0, beta)
    ensures beta <= Max(Max(alpha0, best), r) ==> beta <= Max(best, r) <= Max(seen, w)
  {
  }

  /** One step of the minimising loop, dual to MaxStep. */
  lemma MinStep(worst: int, seen: int, alpha: int, beta0: int, r: int, w: int)
    requires alpha < beta0 && alpha < Min(beta0, worst)
    requires FailSoft(worst, seen, alpha, beta0)
    requires FailSoft(r, w, alpha, Min(beta0, worst))
    ensures FailSoft(Min(worst, r), Min(seen, w), alpha, beta0)
    ensures Min(Min(beta0, worst), r) <= alpha ==> Min(seen, w) <= Min(worst, r) <= alpha
  {
  }

  /** Loop invariant of the maximising loop: `best` is a fail-soft
      approximation, in the entry window (alpha0, beta), of the value `seen`
      of the children explored so far, and alpha = max(alpha0, best). */
  lemma {:induction false} MaxLoopFailSoft(b: seq<Cell>, n: nat, player: Player, depth: int, maxDepth: Option<int>,
                                           alpha: int, beta: int, keys: seq<nat>, best: int, alpha0: int, seen: int)
    requires Sized(b, n) && |keys| >= 1 && EmptyKeys(b, keys)
    requires best == NEG_INF || -1 <= best <= 1
    requires NEG_INF <= alpha0 && alpha == Max(alpha0, best) && alpha < beta <= POS_INF
    requires FailSoft(best, seen, alpha0, beta)
    ensures FailSoft(MaxLoop(b, n, player, depth, maxDepth, alpha, beta, keys, best).score,
                     Max(seen, MaxOver(b, n, player, depth, maxDepth, keys)), alpha0, beta)
    decreases CountEmpty(b), 0, |keys|
  {
    PlaceFlipsTurn(b, keys[0], player);
    var c := b[keys[0] := Mark(player)];
    AlphaBetaFailSoft(c, n, player, depth + 1, maxDepth, alpha, beta, false);
    var r := AlphaBetaValue(c, n, player, depth + 1, maxDepth, alpha, beta, false).score;
    var w := Minimax(c, n, player, depth + 1, maxDepth, false);
    MaxStep(best, seen, alpha0, beta, r, w);
    var best', alpha' := Max(best, r), Max(alpha, r);
    var result := MaxLoop(b, n, player, depth, maxDepth, alpha, beta, keys, best).score;
    if |keys| == 1 {
      assert result == best';
      assert MaxOver(b, n, player, depth, maxDepth, keys) == w;
    } else {
      var rest := MaxOver(b, n, player, depth, maxDepth, keys[1..]);
      assert MaxOver(b, n, player, depth, maxDepth, keys) == Max(w, rest);
      assert Max(seen, Max(w, rest)) == Max(Max(seen, w), rest);
      if beta > alpha' {
        assert result == MaxLoop(b, n, player, depth, maxDepth, alpha', beta, keys[1..], best').score;
        MaxLoopFailSoft(b, n, player, depth, maxDepth, alpha', beta, keys[1..], best', alpha0, Max(seen, w));
      } else {
        assert result == best';
      }
    }
  }

  /** The minimising loop's invariant, dual to MaxLoopFailSoft. */
  lemma {:induction false} MinLoopFailSoft(b: seq<Cell>, n: nat, player: Player, depth: int, maxDepth: Option<int>,
                                           alpha: int, beta: int, keys: seq<nat>, worst: int, beta0: int, seen: int)
    requires Sized(b, n) && |keys| >= 1 && EmptyKeys(b, keys)
    requires worst == POS_INF || -1 <= worst <= 1
    requires beta0 <= POS_INF && beta == Min(beta0, worst) && NEG_INF <= alpha < beta
    requires FailSoft(worst, seen, alpha, beta0)
    ensures FailSoft(MinLoop(b, n, player, depth, maxDepth, alpha, beta, keys, worst).score,
                     Min(seen, MinOver(b, n, player, depth, maxDepth, keys)), alpha, beta0)
    decreases CountEmpty(b), 0, |keys|
  {
    PlaceFlipsTurn(b, keys[0], player.Opp());
    var c := b[keys[0] := Mark(player.Opp())];
    AlphaBetaFailSoft(c, n, player, depth + 1, maxDepth, alpha, beta, true);
    var r := AlphaBetaValue(c, n, player, depth + 1, maxDepth, alpha, beta, true).score;
    var w := Minimax(c, n, player, depth + 1, maxDepth, true);
    MinStep(worst, seen, alpha, beta0, r, w);
    var worst', beta' := Min(worst, r), Min(beta, r);
    var result := MinLoop(b, n, player, depth, maxDepth, alpha, beta, keys, worst).score;
    if |keys| == 1 {
      assert result == worst';
      assert MinOver(b, n, player, depth, maxDepth, keys) == w;
    } else {
      var rest := MinOver(b, n, player, depth, maxDepth, keys[1..]);
      assert MinOver(b, n, player, depth, maxDepth, keys) == Min(w, rest);
      assert Min(seen, Min(w, rest)) == Min(Min(seen, w), rest);
      if beta' > alpha {
        assert result == MinLoop(b, n, player, depth, maxDepth, alpha, beta', keys[1..], worst').score;
        MinLoopFailSoft(b, n, player, depth, maxDepth, alpha, beta', keys[1..], worst', beta0, Min(seen, w));
      } else {
        assert result == worst';
      }
    }
  }

  /** With the full window (-inf, inf), as every caller in the source uses
      it, `alpha_beta` returns exactly the minimax value. */
  lemma AlphaBetaIsMinimax(b: seq<Cell>, n: nat, player: Player, depth: int, maxDepth: Option<int>, isMax: bool)
    requires Sized(b, n)
    ensures AlphaBetaValue(b, n, player, depth, maxDepth, NEG_INF, POS_INF, isMax).score
            == Minimax(b, n, player, depth, maxDepth, isMax)
  {
    AlphaBetaFailSoft(b, n, player, depth, maxDepth, NEG_INF, POS_INF, isMax);
  }

  // ---------------------------------------------------------------------------
  // The root move choice of `ai_move`

  /** What `ai_move` returns: the move index, its score and its depth. */
  datatype Choice = Choice(move: nat, score: int, depth: int)

  /** The key by which `ai_move` compares moves: score, then depth (smaller
      is better), then the `evaluate` weight. */
  datatype Rank = Rank(score: int, depth: int, weight: int)

  /** Strictly better in that order; this is the test that makes `ai_move`
      replace its current best move. */
  predicate Outranks(a: Rank, c: Rank) {
    a.score > c.score || (a.score == c.score && (a.depth < c.depth || (a.depth == c.depth && a.weight > c.weight)))
  }

  /** The search result for `player` taking empty cell k: the call
      `alpha_beta(player, max_depth=max_depth)` on the board with k filled. */
  function RootScore(b: seq<Cell>, n: nat, player: Player, maxDepth: Option<int>, k: nat): (r: Scored)
    requires Sized(b, n) && k < |b| && b[k] == Empty
    ensures -1 <= r.score <= 1
    ensures 1 <= r.depth < 1 + CountEmpty(b)
  {
    AlphaBetaValue(b[k := Mark(player)], n, player, 1, maxDepth, NEG_INF, POS_INF, false)
  }

  /** The rank of move k. */
  function RankOf(b: seq<Cell>, n: nat, player: Player, maxDepth: Option<int>, k: nat): Rank
    requires Sized(b, n) && k < |b| && b[k] == Empty
  {
    var s := RootScore(b, n, player, maxDepth, k);
    Rank(s.score, s.depth, Weights(b, n)[k])
  }

  /** A choice is consistent when it names an empty cell and carries that
      move's own score and depth. */
  ghost predicate Consistent(b: seq<Cell>, n: nat, player: Player, maxDepth: Option<int>, c: Choice)
    requires Sized(b, n)
  {
    c.move < |b| && b[c.move] == Empty && RootScore(b, n, player, maxDepth, c.move) == Scored(c.score, c.depth)
  }

  /** The rest of the `ai_move` loop from the first of keys on, with the
      current best choice c. */
  function Scan(b: seq<Cell>, n: nat, player: Player, maxDepth: Option<int>, keys: seq<nat>, c: Choice): (r: Choice)
    requires Sized(b, n) && EmptyKeys(b, keys) && c.move < |b| && b[c.move] == Empty
    ensures r.move < |b| && b[r.move] == Empty
    decreases |keys|
  {
    if keys == [] then c
    else
      var k := keys[0];
      var s := RootScore(b, n, player, maxDepth, k);
      var w := Weights(b, n);
      var next := if Outranks(Rank(s.score, s.depth, w[k]), Rank(c.score, c.depth, w[c.move]))
                  then Choice(k, s.score, s.depth) else c;
      Scan(b, n, player, maxDepth, keys[1..], next)
  }

  /** The move `ai_move` picks on a board that is not at its end. The first
      empty cell always replaces the initial `best_score = -inf`. */
  function ChooseMove(b: seq<Cell>, n: nat, player: Player, maxDepth: Option<int>): (r: Choice)
    requires Sized(b, n) && !IsEnd(b, n)
    ensures r.move < |b| && b[r.move] == Empty
  {
    NotEndHasMoves(b, n);
    EmptyCellsAreEmptyKeys(b);
    var keys := EmptyCells(b);
    var s := RootScore(b, n, player, maxDepth, keys[0]);
    Scan(b, n, player, maxDepth, keys[1..], Choice(keys[0], s.score, s.depth))
  }

  /** The rank of a consistent choice is the rank of its move. */
  function ChoiceRank(b: seq<Cell>, n: nat, c: Choice): Rank
    requires Sized(b, n) && c.move < |b| && b[c.move] == Empty
  {
    Rank(c.score, c.depth, Weights(b, n)[c.move])
  }

  /** Outranks is a strict order and "does not outrank" a total preorder. */
  lemma OutranksOrder(a: Rank, c: Rank, d: Rank)
    ensures !Outranks(a, a)
    ensures Outranks(a, c) ==> !Outranks(c, a)
    ensures Outranks(a, c) && Outranks(c, d) ==> Outranks(a, d)
    ensures !Outranks(a, c) && !Outranks(c, d) ==> !Outranks(a, d)
    ensures Outranks(a, c) && !Outranks(d, c) ==> Outranks(a, d)
    ensures !Outranks(c, a) && Outranks(c, d) ==> Outranks(a, d)
  {
  }

  /** A move with its rank. */
  datatype Candidate = Candidate(move: nat, rank: Rank)

  /** The replacement rule of the `ai_move` loop on ranked moves alone:
      going through cands in order, a candidate replaces the current one
      only when it strictly outranks it. */
  function Pick(cands: seq<Candidate>, cur: Candidate): (r: Candidate)
    ensures r == cur || r in cands
  {
    if cands == [] then cur
    else Pick(cands[1..], if Outranks(cands[0].rank, cur.rank) then cands[0] else cur)
  }

  /** On moves in ascending order that all follow cur, Pick returns the first
      candidate of greatest rank: nothing outranks it, every candidate before
      it is strictly outranked, and it outranks cur unless it is cur. */
  lemma {:induction false} PickFirstBest(cands: seq<Candidate>, cur: Candidate)
    requires forall i, j :: 0 <= i < j < |cands| ==> cands[i].move < cands[j].move
    requires forall j :: 0 <= j < |cands| ==> cur.move < cands[j].move
    ensures var r := Pick(cands, cur);
            && !Outranks(cur.rank, r.rank)
            && (r != cur ==> r.move != cur.move && Outranks(r.rank, cur.rank))
            && (forall j :: 0 <= j < |cands| ==> !Outranks(cands[j].rank, r.rank))
            && (forall j :: 0 <= j < |cands| && cands[j].move < r.move ==> Outranks(r.rank, cands[j].rank))
  {
    if cands != [] {
      var k, rest := cands[0], cands[1..];
      var next := if Outranks(k.rank, cur.rank) then k else cur;
      PickFirstBest(rest, next);
      var r := Pick(rest, next);
      assert Pick(cands, cur) == r;
      OutranksOrder(r.rank, k.rank, cur.rank);
      OutranksOrder(r.rank, cur.rank, k.rank);
      OutranksOrder(k.rank, r.rank, cur.rank);
      OutranksOrder(k.rank, cur.rank, r.rank);
      OutranksOrder(cur.rank, r.rank, k.rank);
      OutranksOrder(cur.rank, k.rank, r.rank);
      if r != next {
        var j :| 0 <= j < |rest| && rest[j] == r;
        assert cands[j + 1] == r;
      }
      forall j | 1 <= j < |cands|
        ensures !Outranks(cands[j].rank, r.rank)
        ensures cands[j].move < r.move ==> Outranks(r.rank, cands[j].rank)
      {
        assert cands[j] == rest[j - 1];
      }
    }
  }

  /** Pick started on the first of cands returns a candidate that no
      candidate outranks and that strictly outranks every earlier one. */
  lemma PickFirstBestAll(cands: seq<Candidate>)
    requires |cands| >= 1
    requires forall i, j :: 0 <= i < j < |cands| ==> cands[i].move < cands[j].move
    ensures var r := Pick(cands[1..], cands[0]);
            forall j :: 0 <= j < |cands| ==>
              && !Outranks(cands[j].rank, r.rank)
              && (cands[j].move < r.move ==> Outranks(r.rank, cands[j].rank))
  {
    var rest := cands[1..];
    PickFirstBest(rest, cands[0]);
    var r := Pick(rest, cands[0]);
    forall j | 1 <= j < |cands|
      ensures !Outranks(cands[j].rank, r.rank)
      ensures cands[j].move < r.move ==> Outranks(r.rank, cands[j].rank)
    {
      assert cands[j] == rest[j - 1];
    }
  }

  /** Candidates keep the order of their keys. */
  lemma CandidatesAscending(b: seq<Cell>, n: nat, player: Player, maxDepth: Option<int>, keys: seq<nat>)
    requires Sized(b, n) && EmptyKeys(b, keys)
    requires forall i, j :: 0 <= i < j < |keys| ==> keys[i] < keys[j]
    ensures var cands := Candidates(b, n, player, maxDepth, keys);
            forall i, j :: 0 <= i < j < |cands| ==> cands[i].move < cands[j].move
  {
  }

  /** The empty cells keys with their ranks, in order. */
  function Candidates(b: seq<Cell>, n: nat, player: Player, maxDepth: Option<int>, keys: seq<nat>): (r: seq<Candidate>)
    requires Sized(b, n) && EmptyKeys(b, keys)
    ensures |r| == |keys|
    ensures forall j :: 0 <= j < |keys| ==> r[j].move == keys[j]
  {
    if keys == [] then []
    else [Candidate(keys[0], RankOf(b, n, player, maxDepth, keys[0]))] + Candidates(b, n, player, maxDepth, keys[1..])
  }

  /** The j-th candidate is the j-th key with its rank. */
  lemma {:induction false} CandidateAt(b: seq<Cell>, n: nat, player: Player, maxDepth: Option<int>, keys: seq<nat>, j: nat)
    requires Sized(b, n) && EmptyKeys(b, keys) && j < |keys|
    ensures Candidates(b, n, player, maxDepth, keys)[j] == Candidate(keys[j], RankOf(b, n, player, maxDepth, keys[j]))
    decreases j
  {
    if j > 0 {
      CandidateAt(b, n, player, maxDepth, keys[1..], j - 1);
    }
  }

  /** Scan is Pick on the ranked keys, and its result stays consistent. */
  lemma {:induction false} ScanIsPick(b: seq<Cell>, n: nat, player: Player, maxDepth: Option<int>, keys: seq<nat>, c: Choice)
    requires Sized(b, n) && EmptyKeys(b, keys) && Consistent(b, n, player, maxDepth, c)
    ensures var r := Scan(b, n, player, maxDepth, keys, c);
            && Consistent(b, n, player, maxDepth, r)
            && Candidate(r.move, ChoiceRank(b, n, r)) ==
               Pick(Candidates(b, n, player, maxDepth, keys), Candidate(c.move, ChoiceRank(b, n, c)))
    decreases |keys|
  {
    if keys != [] {
      var k := keys[0];
      var s := RootScore(b, n, player, maxDepth, k);
      var ck := Choice(k, s.score, s.depth);
      assert ChoiceRank(b, n, ck) == RankOf(b, n, player, maxDepth, k);
      var next := if Outranks(RankOf(b, n, player, maxDepth, k), ChoiceRank(b, n, c)) then ck else c;
      assert Scan(b, n, player, maxDepth, keys, c) == Scan(b, n, player, maxDepth, keys[1..], next);
      var cands := Candidates(b, n, player, maxDepth, keys);
      assert cands[1..] == Candidates(b, n, player, maxDepth, keys[1..]);
      ScanIsPick(b, n, player, maxDepth, keys[1..], next);
    }
  }

  /** `ai_move` picks an empty cell of greatest rank (score, then fewer
      plies, then weight), and among those the one with the smallest index;
      the score and depth it reports are that move's own. */
  lemma ChooseMoveIsFirstBest(b: seq<Cell>, n: nat, player: Player, maxDepth: Option<int>)
    requires Sized(b, n) && !IsEnd(b, n)
    ensures var r := ChooseMove(b, n, player, maxDepth);
            && r.move < |b| && b[r.move] == Empty
            && RootScore(b, n, player, maxDepth, r.move) == Scored(r.score, r.depth)
            && (forall k :: 0 <= k < |b| && b[k] == Empty ==>
                  !Outranks(RankOf(b, n, player, maxDepth, k), RankOf(b, n, player, maxDepth, r.move)))
            && (forall k :: 0 <= k < r.move && b[k] == Empty ==>
                  Outranks(RankOf(b, n, player, maxDepth, r.move), RankOf(b, n, player, maxDepth, k)))
  {
    var r := ChooseMove(b, n, player, maxDepth);
    ChooseMoveIsPick(b, n, player, maxDepth);
    forall k | 0 <= k < |b| && b[k] == Empty
      ensures !Outranks(RankOf(b, n, player, maxDepth, k), RankOf(b, n, player, maxDepth, r.move))
      ensures k < r.move ==> Outranks(RankOf(b, n, player, maxDepth, r.move), RankOf(b, n, player, maxDepth, k))
    {
      ChooseMoveBeats(b, n, player, maxDepth, k);
    }
  }

  /** ChooseMove is Pick over the ranked empty cells, starting from the
      first one, and reports its move's own score and depth. */
  lemma ChooseMoveIsPick(b: seq<Cell>, n: nat, player: Player, maxDepth: Option<int>)
    requires Sized(b, n) && !IsEnd(b, n)
    ensures |EmptyCells(b)| >= 1 && EmptyKeys(b, EmptyCells(b))
    ensures var keys := EmptyCells(b);
            var r := ChooseMove(b, n, player, maxDepth);
            var cands := Candidates(b, n, player, maxDepth, keys);
            && Consistent(b, n, player, maxDepth, r)
            && Candidate(r.move, RankOf(b, n, player, maxDepth, r.move)) == Pick(cands[1..], cands[0])
  {
    NotEndHasMoves(b, n);
    EmptyCellsAreEmptyKeys(b);
    var keys := EmptyCells(b);
    var rest := keys[1..];
    var s := RootScore(b, n, player, maxDepth, keys[0]);
    var c := Choice(keys[0], s.score, s.depth);
    assert ChoiceRank(b, n, c) == RankOf(b, n, player, maxDepth, keys[0]);
    var r := ChooseMove(b, n, player, maxDepth);
    assert r == Scan(b, n, player, maxDepth, rest, c);
    ScanIsPick(b, n, player, maxDepth, rest, c);
    assert ChoiceRank(b, n, r) == RankOf(b, n, player, maxDepth, r.move);
    var cands := Candidates(b, n, player, maxDepth, keys);
    assert cands[1..] == Candidates(b, n, player, maxDepth, rest);
    assert cands[0] == Candidate(keys[0], RankOf(b, n, player, maxDepth, keys[0]));
  }

  /** The chosen move is not outranked by the empty cell k, and strictly
      outranks it when k comes first. */
  lemma ChooseMoveBeats(b: seq<Cell>, n: nat, player: Player, maxDepth: Option<int>, k: nat)
    requires Sized(b, n) && !IsEnd(b, n) && k < |b| && b[k] == Empty
    ensures var r := ChooseMove(b, n, player, maxDepth);
            && !Outranks(RankOf(b, n, player, maxDepth, k), RankOf(b, n, player, maxDepth, r.move))
            && (k < r.move ==> Outranks(RankOf(b, n, player, maxDepth, r.move), RankOf(b, n, player, maxDepth, k)))
  {
    ChooseMoveIsPick(b, n, player, maxDepth);
    var keys := EmptyCells(b);
    var cands := Candidates(b, n, player, maxDepth, keys);
    CandidatesAscending(b, n, player, maxDepth, keys);
    PickFirstBestAll(cands);
    assert k in keys;
    var j :| 0 <= j < |keys| && keys[j] == k;
    CandidateAt(b, n, player, maxDepth, keys, j);
  }

  /** With full windows the reported score is the minimax value of the move
      played, and no other empty cell has a higher minimax value. */
  lemma ChooseMoveIsOptimal(b: seq<Cell>, n: nat, player: Player, maxDepth: Option<int>)
    requires Sized(b, n) && !IsEnd(b, n)
    ensures var r := ChooseMove(b, n, player, maxDepth);
            && r.move < |b| && b[r.move] == Empty
            && r.score == Minimax(b[r.move := Mark(player)], n, player, 1, maxDepth, false)
            && forall k :: 0 <= k < |b| && b[k] == Empty ==>
                 Minimax(b[k := Mark(player)], n, player, 1, maxDepth, false) <= r.score
  {
    ChooseMoveIsFirstBest(b, n, player, maxDepth);
    var r := ChooseMove(b, n, player, maxDepth);
    AlphaBetaIsMinimax(b[r.move := Mark(player)], n, player, 1, maxDepth, false);
    forall k | 0 <= k < |b| && b[k] == Empty
      ensures Minimax(b[k := Mark(player)], n, player, 1, maxDepth, false) <= r.score
    {
      AlphaBetaIsMinimax(b[k := Mark(player)], n, player, 1, maxDepth, false);
      assert !Outranks(RankOf(b, n, player, maxDepth, k), RankOf(b, n, player, maxDepth, r.move));
    }
  }
}
