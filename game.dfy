/**
 * The draughts rules engine as the search sees it: a position has a side to
 * move, an array of piece codes and an ordered list of legal moves, each of
 * which leads to the position it produces. The engine itself (move
 * generation, applying and undoing moves) is outside this model, so a
 * position is a finite game tree whose branches are its legal moves in
 * enumeration order.
 */
module Game {
  /** The occupant of one square (the engine's int piece codes, with the empty code). */
  datatype Piece = Empty | WhiteMan | WhiteKing | BlackMan | BlackKing

  /** Number of playable squares of the 10x10 board. */
  const Squares: nat := 50

  /** A piece array as the engine hands it out: entry 0 is unused, entries 1..50 are the squares. */
  type Board = s: seq<Piece> | |s| == Squares + 1 witness seq(Squares + 1, _ => Empty)

  /** A move of the rules engine; the search never builds one, it only picks among the legal ones. */
  datatype Move = Move(code: int)

  datatype Position = Position(whiteToMove: bool, pieces: Board, branches: seq<Branch>)

  /** One legal move and the position it leads to. */
  datatype Branch = Branch(move: Move, after: Position)

  /** The legal moves of `p`, in the engine's enumeration order. */
  function Moves(p: Position): (ms: seq<Move>)
    ensures |ms| == |p.branches|
    ensures forall i :: 0 <= i < |ms| ==> ms[i] == p.branches[i].move
  {
    seq(|p.branches|, i requires 0 <= i < |p.branches| => p.branches[i].move)
  }

  /** Every move passes the turn to the other side, everywhere in the tree (as in draughts). */
  ghost predicate Alternating(p: Position)
    decreases p
  {
    forall i :: 0 <= i < |p.branches| ==>
      p.branches[i].after.whiteToMove == !p.whiteToMove && Alternating(p.branches[i].after)
  }
}
