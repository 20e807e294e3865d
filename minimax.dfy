/**
 * What the search computes, stated without pruning: depth-limited minimax
 * over the game tree, the first best move in enumeration order, and the
 * value a fail-hard alpha-beta window reports for it.
 */
module SearchSpec {
  import opened Game
  import Material
  import Tables

  /** The evaluator a player uses: MyDraughtsPlayer counts material, VeselinTopalov uses square tables. */
  datatype Evaluator = MaterialCount | PositionalTables

  /** Bound on the magnitude of every static evaluation of a board. */
  const MaxScore := 1500

  /** The 32-bit bounds the driver opens its window with. */
  const MinInt := -0x8000_0000
  const MaxInt := 0x7fff_ffff

  /** The static evaluation of a position; positive favours white. */
  function Score(e: Evaluator, p: Position): (v: int)
    ensures -MaxScore <= v <= MaxScore
  {
    match e
    case MaterialCount =>
      Material.ScoreBounded(p.pieces);
      Material.Score(p.pieces)
    case PositionalTables =>
      Tables.ScoreBounded(p.pieces);
      Tables.Score(p.pieces)
  }

  /** The search stops at depth 0 and at positions without legal moves. */
  predicate IsLeaf(p: Position, d: nat) {
    d == 0 || |p.branches| == 0
  }

  /** `x` is strictly better than `y` for the side that maximises (or minimises). */
  predicate Better(maximizing: bool, x: int, y: int) {
    if maximizing then x > y else x < y
  }

  function Max(a: int, b: int): int { if a >= b then a else b }
  function Min(a: int, b: int): int { if a <= b then a else b }

  /**
   * Depth-limited minimax as the engine plays it: the role at `p` is given,
   * and it alternates at every ply whatever the children's side to move.
   */
  function Minimax(e: Evaluator, p: Position, d: nat, maximizing: bool): int
    decreases d, |p.branches| + 1
  {
    if IsLeaf(p, d) then Score(e, p) else BestOf(e, p, d, maximizing, |p.branches|)
  }

  /** The minimax value of the position reached by the i-th legal move. */
  function ChildValue(e: Evaluator, p: Position, d: nat, maximizing: bool, i: nat): int
    requires 0 < d && i < |p.branches|
    decreases d, 0
  {
    Minimax(e, p.branches[i].after, d - 1, !maximizing)
  }

  /** The best of the first n children's values for the side to play. */
  function BestOf(e: Evaluator, p: Position, d: nat, maximizing: bool, n: nat): int
    requires 0 < d && 0 < n <= |p.branches|
    decreases d, n
  {
    if n == 1 then ChildValue(e, p, d, maximizing, 0)
    else
      var prev := BestOf(e, p, d, maximizing, n - 1);
      var x := ChildValue(e, p, d, maximizing, n - 1);
      if Better(maximizing, x, prev) then x else prev
  }

  /** Index of the first of the first n children that attains their best value. */
  function FirstBestIn(e: Evaluator, p: Position, d: nat, maximizing: bool, n: nat): (j: nat)
    requires 0 < d && 0 < n <= |p.branches|
    ensures j < n
  {
    if n == 1 then 0
    else if Better(maximizing, ChildValue(e, p, d, maximizing, n - 1), BestOf(e, p, d, maximizing, n - 1)) then n - 1
    else FirstBestIn(e, p, d, maximizing, n - 1)
  }

  /** Index of the first legal move of `p` whose value is the minimax value of `p`. */
  function BestMoveIndex(e: Evaluator, p: Position, d: nat, maximizing: bool): (j: nat)
    requires !IsLeaf(p, d)
    ensures j < |p.branches|
  {
    FirstBestIn(e, p, d, maximizing, |p.branches|)
  }

  /**
   * The fail-hard window: the maximiser reports `beta` once max(alpha, v)
   * reaches it and max(alpha, v) otherwise; the minimiser mirrors this.
   */
  function Window(maximizing: bool, v: int, alpha: int, beta: int): int {
    if maximizing then
      var t := Max(alpha, v); if t >= beta then beta else t
    else
      var t := Min(beta, v); if t <= alpha then alpha else t
  }

  /**
   * What alpha-beta reports for `p` searched to depth d with window
   * (alpha, beta): a leaf's static evaluation as it is, and otherwise the
   * fail-hard window of the minimax value, which for alpha < beta is that
   * value clamped into [alpha, beta].
   */
  function AlphaBetaValue(e: Evaluator, p: Position, d: nat, maximizing: bool, alpha: int, beta: int): (r: int)
    ensures !IsLeaf(p, d) && alpha < beta ==> alpha <= r <= beta
    ensures alpha < Minimax(e, p, d, maximizing) < beta ==> r == Minimax(e, p, d, maximizing)
    ensures !IsLeaf(p, d) && alpha < beta && Minimax(e, p, d, maximizing) <= alpha ==> r == alpha
    ensures !IsLeaf(p, d) && alpha < beta && beta <= Minimax(e, p, d, maximizing) ==> r == beta
  {
    if IsLeaf(p, d) then Score(e, p) else Window(maximizing, Minimax(e, p, d, maximizing), alpha, beta)
  }

  /** No child of the first n beats their best value. */
  lemma {:induction false} BestOfDominates(e: Evaluator, p: Position, d: nat, maximizing: bool, n: nat)
    requires 0 < d && 0 < n <= |p.branches|
    ensures forall j :: 0 <= j < n ==> !Better(maximizing, ChildValue(e, p, d, maximizing, j), BestOf(e, p, d, maximizing, n))
  {
    if n > 1 { BestOfDominates(e, p, d, maximizing, n - 1); }
  }

  /** The first best child attains the best value and every earlier child is strictly worse. */
  lemma {:induction false} FirstBestInCorrect(e: Evaluator, p: Position, d: nat, maximizing: bool, n: nat)
    requires 0 < d && 0 < n <= |p.branches|
    ensures ChildValue(e, p, d, maximizing, FirstBestIn(e, p, d, maximizing, n)) == BestOf(e, p, d, maximizing, n)
    ensures forall j :: 0 <= j < FirstBestIn(e, p, d, maximizing, n) ==>
      Better(maximizing, BestOf(e, p, d, maximizing, n), ChildValue(e, p, d, maximizing, j))
  {
    if n > 1 {
      FirstBestInCorrect(e, p, d, maximizing, n - 1);
      BestOfDominates(e, p, d, maximizing, n - 1);
    }
  }

  /** The value of the first best move is the value of the position, and every earlier move is worse. */
  lemma BestMoveAttainsValue(e: Evaluator, p: Position, d: nat, maximizing: bool)
    requires !IsLeaf(p, d)
    ensures ChildValue(e, p, d, maximizing, BestMoveIndex(e, p, d, maximizing)) == Minimax(e, p, d, maximizing)
    ensures forall j :: 0 <= j < BestMoveIndex(e, p, d, maximizing) ==>
      Better(maximizing, Minimax(e, p, d, maximizing), ChildValue(e, p, d, maximizing, j))
    ensures forall j :: 0 <= j < |p.branches| ==>
      !Better(maximizing, ChildValue(e, p, d, maximizing, j), Minimax(e, p, d, maximizing))
  {
    FirstBestInCorrect(e, p, d, maximizing, |p.branches|);
    BestOfDominates(e, p, d, maximizing, |p.branches|);
  }

  /** Every minimax value is some position's static evaluation, so it is bounded like them. */
  lemma {:induction false} MinimaxBounded(e: Evaluator, p: Position, d: nat, maximizing: bool)
    ensures -MaxScore <= Minimax(e, p, d, maximizing) <= MaxScore
    decreases d, |p.branches| + 1
  {
    if !IsLeaf(p, d) { BestOfBounded(e, p, d, maximizing, |p.branches|); }
  }

  lemma {:induction false} BestOfBounded(e: Evaluator, p: Position, d: nat, maximizing: bool, n: nat)
    requires 0 < d && 0 < n <= |p.branches|
    ensures -MaxScore <= BestOf(e, p, d, maximizing, n) <= MaxScore
    decreases d, n
  {
    MinimaxBounded(e, p.branches[n - 1].after, d - 1, !maximizing);
    if n > 1 { BestOfBounded(e, p, d, maximizing, n - 1); }
  }

  /**
   * With the driver's full 32-bit window nothing is ever clamped: alpha-beta
   * reports exactly the minimax value, so pruning changes only the work done.
   */
  lemma FullWindowIsMinimax(e: Evaluator, p: Position, d: nat, maximizing: bool)
    ensures AlphaBetaValue(e, p, d, maximizing, MinInt, MaxInt) == Minimax(e, p, d, maximizing)
    ensures MinInt < Minimax(e, p, d, maximizing) < MaxInt
  {
    MinimaxBounded(e, p, d, maximizing);
  }

  /** Textbook minimax: at every position white maximises and black minimises. */
  function WhiteMinimax(e: Evaluator, p: Position, d: nat): int
    decreases d, |p.branches| + 1
  {
    if IsLeaf(p, d) then Score(e, p) else WhiteBestOf(e, p, d, |p.branches|)
  }

  function WhiteBestOf(e: Evaluator, p: Position, d: nat, n: nat): int
    requires 0 < d && 0 < n <= |p.branches|
    decreases d, n
  {
    var x := WhiteMinimax(e, p.branches[n - 1].after, d - 1);
    if n == 1 then x
    else if p.whiteToMove then Max(WhiteBestOf(e, p, d, n - 1), x)
    else Min(WhiteBestOf(e, p, d, n - 1), x)
  }

  /**
   * When every move passes the turn, alternating roles from the side to move
   * at the root is the same as letting white maximise and black minimise.
   */
  lemma {:induction false} AlternatingIsWhiteMinimax(e: Evaluator, p: Position, d: nat)
    requires Alternating(p)
    ensures Minimax(e, p, d, p.whiteToMove) == WhiteMinimax(e, p, d)
    decreases d, |p.branches| + 1
  {
    if !IsLeaf(p, d) { AlternatingBestOf(e, p, d, |p.branches|); }
  }

  lemma {:induction false} AlternatingBestOf(e: Evaluator, p: Position, d: nat, n: nat)
    requires Alternating(p) && 0 < d && 0 < n <= |p.branches|
    ensures BestOf(e, p, d, p.whiteToMove, n) == WhiteBestOf(e, p, d, n)
    decreases d, n
  {
    var child := p.branches[n - 1].after;
    assert child.whiteToMove == !p.whiteToMove && Alternating(child);
    AlternatingIsWhiteMinimax(e, child, d - 1);
    if n > 1 { AlternatingBestOf(e, p, d, n - 1); }
  }
}
