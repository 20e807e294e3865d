/**
 * The material evaluator of MyDraughtsPlayer: it counts the four kinds of
 * pieces on squares 1..length-1 and weighs a man 1 and a king 3, white
 * positive and black negative.
 */
module Material {
  import opened Game

  /** Number of squares j with 1 <= j < n that hold `k`. */
  function Count(b: seq<Piece>, k: Piece, n: nat): nat
    requires n <= |b|
  {
    if n <= 1 then 0 else Count(b, k, n - 1) + (if b[n - 1] == k then 1 else 0)
  }

  /** The score the evaluator computes: men count 1, kings 3, white minus black. */
  function Score(b: seq<Piece>): int {
    Count(b, WhiteMan, |b|) + 3 * Count(b, WhiteKing, |b|)
      - Count(b, BlackMan, |b|) - 3 * Count(b, BlackKing, |b|)
  }

  /** What one piece adds to the score. */
  function Worth(x: Piece): int {
    match x
    case Empty => 0
    case WhiteMan => 1
    case WhiteKing => 3
    case BlackMan => -1
    case BlackKing => -3
  }

  /** The evaluation loop with its four counters. */
  method Evaluate(pieces: seq<Piece>) returns (v: int)
    ensures v == Score(pieces)
  {
    var whites, blacks, kingWhites, kingBlacks := 0, 0, 0, 0;
    var i := 1;
    while i < |pieces|
      invariant 1 <= i && (i <= |pieces| || i == 1)
      invariant whites == Count(pieces, WhiteMan, if i <= |pieces| then i else |pieces|)
      invariant kingWhites == Count(pieces, WhiteKing, if i <= |pieces| then i else |pieces|)
      invariant blacks == Count(pieces, BlackMan, if i <= |pieces| then i else |pieces|)
      invariant kingBlacks == Count(pieces, BlackKing, if i <= |pieces| then i else |pieces|)
    {
      if pieces[i] == BlackMan { blacks := blacks + 1; }
      if pieces[i] == BlackKing { kingBlacks := kingBlacks + 1; }
      if pieces[i] == WhiteMan { whites := whites + 1; }
      if pieces[i] == WhiteKing { kingWhites := kingWhites + 1; }
      i := i + 1;
    }
    v := whites + 3 * kingWhites - blacks - 3 * kingBlacks;
  }

  /** Replacing the piece on square i changes only that square's count. */
  lemma {:induction false} CountUpdate(b: seq<Piece>, k: Piece, n: nat, i: nat, x: Piece)
    requires n <= |b| && i < |b|
    ensures Count(b[i := x], k, n) ==
      Count(b, k, n) + (if 1 <= i < n then (if x == k then 1 else 0) - (if b[i] == k then 1 else 0) else 0)
  {
    if n > 1 { CountUpdate(b, k, n - 1, i, x); }
  }

  /** Putting `x` on square i moves the score by the difference in worth; square 0 is never read. */
  lemma Place(b: seq<Piece>, i: nat, x: Piece)
    requires i < |b|
    ensures Score(b[i := x]) == Score(b) + (if i == 0 then 0 else Worth(x) - Worth(b[i]))
  {
    CountUpdate(b, WhiteMan, |b|, i, x);
    CountUpdate(b, WhiteKing, |b|, i, x);
    CountUpdate(b, BlackMan, |b|, i, x);
    CountUpdate(b, BlackKing, |b|, i, x);
  }

  /** A piece kind that appears on no square is counted zero times. */
  lemma {:induction false} CountAbsent(b: seq<Piece>, k: Piece, n: nat)
    requires n <= |b|
    requires forall j :: 1 <= j < n ==> b[j] != k
    ensures Count(b, k, n) == 0
  {
    if n > 1 { CountAbsent(b, k, n - 1); }
  }

  /** A board whose squares are all empty scores 0. */
  lemma EmptyBoardScoresZero(b: seq<Piece>)
    requires forall j :: 1 <= j < |b| ==> b[j] == Empty
    ensures Score(b) == 0
  {
    CountAbsent(b, WhiteMan, |b|);
    CountAbsent(b, WhiteKing, |b|);
    CountAbsent(b, BlackMan, |b|);
    CountAbsent(b, BlackKing, |b|);
  }

  /** The same kind of piece in the other colour. */
  function Swap(x: Piece): Piece {
    match x
    case Empty => Empty
    case WhiteMan => BlackMan
    case WhiteKing => BlackKing
    case BlackMan => WhiteMan
    case BlackKing => WhiteKing
  }

  /** Every piece of `b` with its colour changed, on the same square. */
  function SwapColours(b: seq<Piece>): (r: seq<Piece>)
    ensures |r| == |b| && forall j :: 0 <= j < |b| ==> r[j] == Swap(b[j])
  {
    seq(|b|, j requires 0 <= j < |b| => Swap(b[j]))
  }

  lemma {:induction false} CountSwap(b: seq<Piece>, k: Piece, n: nat)
    requires n <= |b|
    ensures Count(SwapColours(b), Swap(k), n) == Count(b, k, n)
  {
    if n > 1 {
      CountSwap(b, k, n - 1);
      assert SwapColours(b)[n - 1] == Swap(k) <==> b[n - 1] == k;
    }
  }

  /** Changing the colour of every piece negates the score. */
  lemma SwapNegates(b: seq<Piece>)
    ensures Score(SwapColours(b)) == -Score(b)
  {
    CountSwap(b, WhiteMan, |b|);
    CountSwap(b, WhiteKing, |b|);
    CountSwap(b, BlackMan, |b|);
    CountSwap(b, BlackKing, |b|);
  }

  lemma {:induction false} CountsAtMost(b: seq<Piece>, n: nat)
    requires n <= |b|
    ensures Count(b, WhiteMan, n) + Count(b, WhiteKing, n) + Count(b, BlackMan, n) + Count(b, BlackKing, n) <= n
  {
    if n > 1 { CountsAtMost(b, n - 1); }
  }

  /** At most 3 points per square either way. */
  lemma ScoreBounded(b: seq<Piece>)
    ensures -3 * |b| <= Score(b) <= 3 * |b|
  {
    CountsAtMost(b, |b|);
  }
}
