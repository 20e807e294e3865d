/**
 * The player: the iterative-deepening driver, the alpha-beta engine
 * (dispatcher, maximiser, minimiser), the stop flag and the evaluators'
 * dispatch. MyDraughtsPlayer and VeselinTopalov hold the same driver and
 * engine and differ only in their evaluator, so one class models both and
 * each has its own constructor.
 */
module Search {
  import opened Wrappers
  import opened Game
  import opened SearchSpec
  import Material
  import Tables

  /** The result of a search call: a value, or the abort that the stop flag causes. */
  datatype Outcome = Done(value: int) | Aborted

  /** A search node: a position and the slot where the search leaves the best move it found. */
  class DraughtsNode {
    const state: Position
    var bestMove: Option<Move>

    constructor (s: Position)
      ensures state == s && bestMove == None
    {
      state := s;
      bestMove := None;
    }

    method SetBestMove(m: Move)
      modifies this`bestMove
      ensures bestMove == Some(m)
    {
      bestMove := Some(m);
    }
  }

  class Player {
    const evaluator: Evaluator
    const maxSearchDepth: int
    /** The value of the last completed search iteration, shown by the host. */
    var bestValue: int
    /** Set when the host asks the player to stop thinking. */
    var stopped: bool

    /** The material-counting player. */
    constructor MyDraughtsPlayer(maxSearchDepth: int)
      ensures evaluator == MaterialCount && this.maxSearchDepth == maxSearchDepth
      ensures bestValue == 0 && !stopped
    {
      evaluator := MaterialCount;
      this.maxSearchDepth := maxSearchDepth;
      bestValue := 0;
      stopped := false;
    }

    /** The square-table player. */
    constructor VeselinTopalov(maxSearchDepth: int)
      ensures evaluator == PositionalTables && this.maxSearchDepth == maxSearchDepth
      ensures bestValue == 0 && !stopped
    {
      evaluator := PositionalTables;
      this.maxSearchDepth := maxSearchDepth;
      bestValue := 0;
      stopped := false;
    }

    /** The value the host displays: that of the last completed iteration. */
    function GetValue(): (v: int)
      reads this
      ensures v == bestValue
    {
      bestValue
    }

    /** The host's stop request: it only raises the flag, which the next search check consumes. */
    method Stop()
      modifies this`stopped
      ensures stopped
    {
      stopped := true;
    }

    /** Some legal move of `s` (the source picks one at random), or none when there is none. */
    method GetRandomValidMove(s: Position) returns (m: Option<Move>)
      ensures m.None? <==> |s.branches| == 0
      ensures m.Some? ==> m.value in Moves(s)
    {
      var moves := Moves(s);
      if |moves| == 0 {
        m := None;
      } else {
        var i :| 0 <= i < |moves|;
        m := Some(moves[i]);
      }
    }

    /** The static evaluation of this player. */
    method Evaluate(state: Position) returns (v: int)
      ensures v == Score(evaluator, state)
    {
      match evaluator
      case MaterialCount =>
        v := Material.Evaluate(state.pieces);
      case PositionalTables =>
        v := Tables.Evaluate(state.pieces);
    }

    /**
     * The per-turn entry point: searches depths 1..maxSearchDepth with the
     * full window, keeping move and value of the deepest iteration that
     * completed, and falls back to some legal move when that gave no move.
     * `completed` is the deepest iteration that completed (0 for none):
     * every depth when no stop is pending, none when one is.
     */
    method GetMove(s: Position) returns (move: Option<Move>, ghost completed: nat)
      modifies this`bestValue, this`stopped
      ensures completed == if old(stopped) || maxSearchDepth < 1 then 0 else maxSearchDepth
      ensures maxSearchDepth < 1 ==> stopped == old(stopped)
      ensures maxSearchDepth >= 1 ==> !stopped
      ensures completed == 0 ==> bestValue == 0
      ensures completed > 0 ==> bestValue == Minimax(evaluator, s, completed, s.whiteToMove)
      ensures move.None? <==> |s.branches| == 0
      ensures move.Some? ==> move.value in Moves(s)
      ensures completed > 0 && |s.branches| > 0 ==>
        move == Some(s.branches[BestMoveIndex(evaluator, s, completed, s.whiteToMove)].move)
    {
      var bestMove: Option<Move> := None;
      bestValue := 0;
      var node := new DraughtsNode(s);
      completed := 0;
      var depth := 1;
      while depth <= maxSearchDepth
        invariant 1 <= depth && completed == depth - 1 && (depth <= maxSearchDepth + 1 || depth == 1)
        invariant fresh(node) && node.state == s && node.bestMove == bestMove
        invariant completed == 0 ==> stopped == old(stopped) && bestValue == 0 && bestMove == None
        invariant completed > 0 ==> !stopped && !old(stopped)
        invariant !old(stopped) ==> !stopped
        invariant completed > 0 ==> bestValue == Minimax(evaluator, s, completed, s.whiteToMove)
        invariant completed > 0 && |s.branches| > 0 ==>
          bestMove == Some(s.branches[BestMoveIndex(evaluator, s, completed, s.whiteToMove)].move)
        invariant |s.branches| == 0 ==> bestMove == None
      {
        var r := AlphaBeta(node, MinInt, MaxInt, depth);
        if r.Aborted? {
          // only a stop pending on entry aborts; it is consumed and no iteration completes
          assert old(stopped) && completed == 0;
          break;
        }
        FullWindowIsMinimax(evaluator, s, depth, s.whiteToMove);
        bestValue := r.value;
        bestMove := node.bestMove;
        completed := depth;
        depth := depth + 1;
      }
      if bestMove == None {
        move := GetRandomValidMove(s);
      } else {
        move := bestMove;
      }
    }

    /** White maximises and black minimises: the role at the root is the side to move. */
    method AlphaBeta(node: DraughtsNode, alpha: int, beta: int, depth: nat) returns (r: Outcome)
      modifies this`stopped, node`bestMove
      ensures !stopped
      ensures r.Aborted? <==> old(stopped)
      ensures old(stopped) ==> node.bestMove == old(node.bestMove)
      ensures r.Done? ==> r.value == AlphaBetaValue(evaluator, node.state, depth, node.state.whiteToMove, alpha, beta)
      ensures node.bestMove == old(node.bestMove) || (node.bestMove.Some? && node.bestMove.value in Moves(node.state))
      ensures r.Done? && IsLeaf(node.state, depth) ==> node.bestMove == old(node.bestMove)
      ensures r.Done? && !IsLeaf(node.state, depth) && !Better(node.state.whiteToMove,
                Minimax(evaluator, node.state, depth, node.state.whiteToMove),
                if node.state.whiteToMove then alpha else beta)
        ==> node.bestMove == old(node.bestMove)
      ensures r.Done? && !IsLeaf(node.state, depth) && alpha < Minimax(evaluator, node.state, depth, node.state.whiteToMove) < beta
        ==> node.bestMove == Some(node.state.branches[BestMoveIndex(evaluator, node.state, depth, node.state.whiteToMove)].move)
    {
      if node.state.whiteToMove {
        r := AlphaBetaMax(node, alpha, beta, depth);
      } else {
        r := AlphaBetaMin(node, alpha, beta, depth);
      }
    }

    /**
     * The maximiser: raises alpha child by child, records a move only when it
     * strictly raises alpha, and returns beta as soon as alpha reaches it.
     */
    method AlphaBetaMax(node: DraughtsNode, alpha: int, beta: int, depth: nat) returns (r: Outcome)
      modifies this`stopped, node`bestMove
      decreases depth
      ensures !stopped
      ensures r.Aborted? <==> old(stopped)
      ensures old(stopped) ==> node.bestMove == old(node.bestMove)
      ensures r.Done? ==> r.value == AlphaBetaValue(evaluator, node.state, depth, true, alpha, beta)
      ensures node.bestMove == old(node.bestMove) || (node.bestMove.Some? && node.bestMove.value in Moves(node.state))
      ensures r.Done? && IsLeaf(node.state, depth) ==> node.bestMove == old(node.bestMove)
      ensures r.Done? && !IsLeaf(node.state, depth) && Minimax(evaluator, node.state, depth, true) <= alpha
        ==> node.bestMove == old(node.bestMove)
      ensures r.Done? && !IsLeaf(node.state, depth) && alpha < Minimax(evaluator, node.state, depth, true) < beta
        ==> node.bestMove == Some(node.state.branches[BestMoveIndex(evaluator, node.state, depth, true)].move)
    {
      if stopped {
        stopped := false;
        return Aborted;
      }
      var state := node.state;
      if depth == 0 || |state.branches| == 0 {
        var v := Evaluate(state);
        return Done(v);
      }
      var moves := Moves(state);
      var a := alpha;
      var i := 0;
      while i < |moves|
        invariant 0 <= i <= |moves| && !stopped
        invariant i == 0 ==> a == alpha
        invariant i > 0 ==> a == Max(alpha, BestOf(evaluator, state, depth, true, i)) && a < beta
        invariant a == alpha ==> node.bestMove == old(node.bestMove)
        invariant a != alpha ==> node.bestMove == Some(moves[FirstBestIn(evaluator, state, depth, true, i)])
        invariant node.bestMove == old(node.bestMove) || (node.bestMove.Some? && node.bestMove.value in moves)
      {
        var child := new DraughtsNode(state.branches[i].after);
        var c := AlphaBetaMin(child, a, beta, depth - 1);
        // the flag is clear here, so the child completes: no stop arrives during a search
        assert c.Done?;
        var newAlpha := Max(a, c.value);
        if newAlpha >= beta {
          // the child's value reaches beta, so does the position's
          assert a < beta ==> ChildValue(evaluator, state, depth, true, i) >= beta;
          BestOfDominates(evaluator, state, depth, true, |moves|);
          return Done(beta);
        }
        if newAlpha > a {
          a := newAlpha;
          node.SetBestMove(moves[i]);
        }
        i := i + 1;
      }
      return Done(a);
    }

    /**
     * The minimiser: lowers beta child by child, records a move only when it
     * strictly lowers beta, and returns alpha as soon as beta reaches it.
     */
    method AlphaBetaMin(node: DraughtsNode, alpha: int, beta: int, depth: nat) returns (r: Outcome)
      modifies this`stopped, node`bestMove
      decreases depth
      ensures !stopped
      ensures r.Aborted? <==> old(stopped)
      ensures old(stopped) ==> node.bestMove == old(node.bestMove)
      ensures r.Done? ==> r.value == AlphaBetaValue(evaluator, node.state, depth, false, alpha, beta)
      ensures node.bestMove == old(node.bestMove) || (node.bestMove.Some? && node.bestMove.value in Moves(node.state))
      ensures r.Done? && IsLeaf(node.state, depth) ==> node.bestMove == old(node.bestMove)
      ensures r.Done? && !IsLeaf(node.state, depth) && beta <= Minimax(evaluator, node.state, depth, false)
        ==> node.bestMove == old(node.bestMove)
      ensures r.Done? && !IsLeaf(node.state, depth) && alpha < Minimax(evaluator, node.state, depth, false) < beta
        ==> node.bestMove == Some(node.state.branches[BestMoveIndex(evaluator, node.state, depth, false)].move)
    {
      if stopped {
        stopped := false;
        return Aborted;
      }
      var state := node.state;
      if depth == 0 || |state.branches| == 0 {
        var v := Evaluate(state);
        return Done(v);
      }
      var moves := Moves(state);
      var b := beta;
      var i := 0;
      while i < |moves|
        invariant 0 <= i <= |moves| && !stopped
        invariant i == 0 ==> b == beta
        invariant i > 0 ==> b == Min(beta, BestOf(evaluator, state, depth, false, i)) && alpha < b
        invariant b == beta ==> node.bestMove == old(node.bestMove)
        invariant b != beta ==> node.bestMove == Some(moves[FirstBestIn(evaluator, state, depth, false, i)])
        invariant node.bestMove == old(node.bestMove) || (node.bestMove.Some? && node.bestMove.value in moves)
      {
        var child := new DraughtsNode(state.branches[i].after);
        var c := AlphaBetaMax(child, alpha, b, depth - 1);
        // the flag is clear here, so the child completes: no stop arrives during a search
        assert c.Done?;
        var newBeta := Min(b, c.value);
        if newBeta <= alpha {
          // the child's value reaches alpha, so does the position's
          assert alpha < b ==> ChildValue(evaluator, state, depth, false, i) <= alpha;
          BestOfDominates(evaluator, state, depth, false, |moves|);
          return Done(alpha);
        }
        if newBeta < b {
          b := newBeta;
          node.SetBestMove(moves[i]);
        }
        i := i + 1;
      }
      return Done(b);
    }
  }
}
