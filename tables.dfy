/**
 * The positional evaluator of VeselinTopalov: every man is worth the entry
 * of its colour's table for its square, every king that entry plus 20, and
 * the score is white's total minus black's total.
 */
module Tables {
  import opened Game

  /** Worth of a black piece per square, one board row of five squares per group (entry 0 is never read). */
  const BlackScores: seq<int> := [0]
    + [5, 4, 3, 4, 4] + [4, 2, 2, 3, 2] + [3, 4, 5, 4, 3] + [6, 5, 5, 4, 4] + [4, 5, 4, 4, 5]
    + [7, 6, 5, 5, 6] + [4, 5, 6, 6, 7] + [7, 6, 7, 7, 7] + [7, 7, 9, 8, 9] + [10, 9, 10, 10, 10]

  /** Worth of a white piece per square, one board row of five squares per group (entry 0 is never read). */
  const WhiteScores: seq<int> := [0]
    + [10, 10, 10, 9, 10] + [9, 8, 9, 7, 7] + [7, 7, 7, 6, 7] + [7, 6, 6, 5, 4] + [6, 5, 5, 6, 7]
    + [5, 4, 4, 5, 4] + [4, 4, 5, 5, 6] + [3, 4, 5, 4, 3] + [2, 3, 2, 2, 4] + [5, 4, 3, 4, 4]

  /** Extra worth of a king over a man on the same square. */
  const KingBonus := 20

  /** The tables are only indexed for occupied squares, so occupied squares must have an entry. */
  predicate WithinTables(b: seq<Piece>) {
    forall j :: Squares < j < |b| ==> b[j] == Empty
  }

  /** What the piece on square j adds to white's total. */
  function WhiteGain(x: Piece, j: nat): int
    requires x == WhiteMan || x == WhiteKing ==> j < |WhiteScores|
  {
    match x
    case WhiteMan => WhiteScores[j]
    case WhiteKing => WhiteScores[j] + KingBonus
    case _ => 0
  }

  /** What the piece on square j adds to black's total. */
  function BlackGain(x: Piece, j: nat): int
    requires x == BlackMan || x == BlackKing ==> j < |BlackScores|
  {
    match x
    case BlackMan => BlackScores[j]
    case BlackKing => BlackScores[j] + KingBonus
    case _ => 0
  }

  /** White's total over squares 1..n-1. */
  function WhiteSum(b: seq<Piece>, n: nat): int
    requires n <= |b| && WithinTables(b)
  {
    if n <= 1 then 0 else WhiteSum(b, n - 1) + WhiteGain(b[n - 1], n - 1)
  }

  /** Black's total over squares 1..n-1. */
  function BlackSum(b: seq<Piece>, n: nat): int
    requires n <= |b| && WithinTables(b)
  {
    if n <= 1 then 0 else BlackSum(b, n - 1) + BlackGain(b[n - 1], n - 1)
  }

  /** The score the evaluator computes. */
  function Score(b: seq<Piece>): int
    requires WithinTables(b)
  {
    WhiteSum(b, |b|) - BlackSum(b, |b|)
  }

  /** The evaluation loop with its two accumulators. */
  method Evaluate(pieces: seq<Piece>) returns (v: int)
    requires WithinTables(pieces)
    ensures v == Score(pieces)
  {
    var scoreBlack, scoreWhite := 0, 0;
    var i := 1;
    while i < |pieces|
      invariant 1 <= i && (i <= |pieces| || i == 1)
      invariant scoreWhite == WhiteSum(pieces, if i <= |pieces| then i else |pieces|)
      invariant scoreBlack == BlackSum(pieces, if i <= |pieces| then i else |pieces|)
    {
      if pieces[i] == BlackMan { scoreBlack := scoreBlack + BlackScores[i]; }
      if pieces[i] == BlackKing { scoreBlack := scoreBlack + BlackScores[i] + KingBonus; }
      if pieces[i] == WhiteMan { scoreWhite := scoreWhite + WhiteScores[i]; }
      if pieces[i] == WhiteKing { scoreWhite := scoreWhite + WhiteScores[i] + KingBonus; }
      i := i + 1;
    }
    v := scoreWhite - scoreBlack;
  }

  /** Both tables have an entry for square 0 and for each of the 50 squares, each between 2 and 10. */
  lemma TableEntries()
    ensures |BlackScores| == |WhiteScores| == Squares + 1
    ensures forall j :: 1 <= j <= Squares ==> 2 <= BlackScores[j] <= 10 && 2 <= WhiteScores[j] <= 10
  {
    forall j | 1 <= j <= Squares
      ensures 2 <= BlackScores[j] <= 10
    {
      // one case per board row, so that every lookup falls in a known group of five
      if j <= 5 {} else if j <= 10 {} else if j <= 15 {} else if j <= 20 {} else if j <= 25 {} else
      if j <= 30 {} else if j <= 35 {} else if j <= 40 {} else if j <= 45 {} else {}
    }
    forall j | 1 <= j <= Squares
      ensures 2 <= WhiteScores[j] <= 10
    {
      // one case per board row, so that every lookup falls in a known group of five
      if j <= 5 {} else if j <= 10 {} else if j <= 15 {} else if j <= 20 {} else if j <= 25 {} else
      if j <= 30 {} else if j <= 35 {} else if j <= 40 {} else if j <= 45 {} else {}
    }
  }

  /**
   * Apart from squares 46 and 50, white's table is black's turned half a turn:
   * square j seen from white is square 51 - j seen from black.
   */
  lemma MirrorElsewhere()
    ensures forall j :: 1 <= j <= Squares && j != 46 && j != 50 ==> WhiteScores[j] == BlackScores[51 - j]
    ensures WhiteScores[46] != BlackScores[5] && WhiteScores[50] != BlackScores[1]
  {
    forall j | 1 <= j <= Squares && j != 46 && j != 50
      ensures WhiteScores[j] == BlackScores[51 - j]
    {
      // one case per square, so that both lookups are at known indices
      // (a split per board row runs out of resource on the mirrored index)
      if j == 1 {} else if j == 2 {} else if j == 3 {} else if j == 4 {} else if j == 5 {} else if j == 6 {} else if j == 7 {} else if j == 8 {} else if j == 9 {} else if j == 10 {} else
      if j == 11 {} else if j == 12 {} else if j == 13 {} else if j == 14 {} else if j == 15 {} else if j == 16 {} else if j == 17 {} else if j == 18 {} else if j == 19 {} else if j == 20 {} else
      if j == 21 {} else if j == 22 {} else if j == 23 {} else if j == 24 {} else if j == 25 {} else if j == 26 {} else if j == 27 {} else if j == 28 {} else if j == 29 {} else if j == 30 {} else
      if j == 31 {} else if j == 32 {} else if j == 33 {} else if j == 34 {} else if j == 35 {} else if j == 36 {} else if j == 37 {} else if j == 38 {} else if j == 39 {} else if j == 40 {} else
      if j == 41 {} else if j == 42 {} else if j == 43 {} else if j == 44 {} else if j == 45 {} else if j == 46 {} else if j == 47 {} else if j == 48 {} else if j == 49 {} else if j == 50 {}
    }
  }

  /** What a piece on square j adds to the score. */
  function Net(x: Piece, j: nat): int
    requires j <= Squares || x == Empty
  {
    WhiteGain(x, j) - BlackGain(x, j)
  }

  lemma {:induction false} SumsUpdate(b: seq<Piece>, n: nat, i: nat, x: Piece)
    requires n <= |b| && i < |b| && WithinTables(b) && (i <= Squares || x == Empty)
    ensures WhiteSum(b[i := x], n) - BlackSum(b[i := x], n) ==
      WhiteSum(b, n) - BlackSum(b, n) + (if 1 <= i < n then Net(x, i) - Net(b[i], i) else 0)
  {
    if n > 1 { SumsUpdate(b, n - 1, i, x); }
  }

  /** Putting `x` on square i moves the score by the difference of the two occupants' worth there. */
  lemma Place(b: seq<Piece>, i: nat, x: Piece)
    requires i < |b| && WithinTables(b) && (i <= Squares || x == Empty)
    ensures WithinTables(b[i := x])
    ensures Score(b[i := x]) == Score(b) + (if i == 0 then 0 else Net(x, i) - Net(b[i], i))
  {
    assert WithinTables(b[i := x]);
    SumsUpdate(b, |b|, i, x);
  }

  /** A white man or king placed on an empty square raises the score by its table entry. */
  lemma PlaceWhiteRaises(b: seq<Piece>, i: nat, x: Piece)
    requires i < |b| && WithinTables(b) && 1 <= i <= Squares && b[i] == Empty
    requires x == WhiteMan || x == WhiteKing
    ensures WithinTables(b[i := x])
    ensures Score(b[i := x]) >= Score(b) + 2
  {
    Place(b, i, x);
    TableEntries();
  }

  /** A black man or king placed on an empty square lowers the score by its table entry. */
  lemma PlaceBlackLowers(b: seq<Piece>, i: nat, x: Piece)
    requires i < |b| && WithinTables(b) && 1 <= i <= Squares && b[i] == Empty
    requires x == BlackMan || x == BlackKing
    ensures WithinTables(b[i := x])
    ensures Score(b[i := x]) <= Score(b) - 2
  {
    Place(b, i, x);
    TableEntries();
  }

  /** Crowning a man shifts the score by exactly 20 toward its colour. */
  lemma Promotion(b: seq<Piece>, i: nat)
    requires i < |b| && WithinTables(b) && 1 <= i
    ensures b[i] == WhiteMan ==> WithinTables(b[i := WhiteKing]) && Score(b[i := WhiteKing]) == Score(b) + KingBonus
    ensures b[i] == BlackMan ==> WithinTables(b[i := BlackKing]) && Score(b[i := BlackKing]) == Score(b) - KingBonus
  {
    if b[i] == WhiteMan { Place(b, i, WhiteKing); }
    if b[i] == BlackMan { Place(b, i, BlackKing); }
  }

  lemma {:induction false} SumsAbsent(b: seq<Piece>, n: nat)
    requires n <= |b| && WithinTables(b)
    requires forall j :: 1 <= j < n ==> b[j] == Empty
    ensures WhiteSum(b, n) == 0 && BlackSum(b, n) == 0
  {
    if n > 1 { SumsAbsent(b, n - 1); }
  }

  /** A board whose squares are all empty scores 0. */
  lemma EmptyBoardScoresZero(b: seq<Piece>)
    requires forall j :: 1 <= j < |b| ==> b[j] == Empty
    ensures WithinTables(b) && Score(b) == 0
  {
    SumsAbsent(b, |b|);
  }

  lemma {:induction false} SumsBounded(b: seq<Piece>, n: nat)
    requires 1 <= n <= |b| <= Squares + 1 && WithinTables(b)
    ensures 0 <= WhiteSum(b, n) <= 30 * (n - 1)
    ensures 0 <= BlackSum(b, n) <= 30 * (n - 1)
  {
    if n > 1 {
      SumsBounded(b, n - 1);
      TableEntries();
    }
  }

  /** On a board of 50 squares neither side can total more than 50 * (10 + 20). */
  lemma ScoreBounded(b: seq<Piece>)
    requires |b| <= Squares + 1
    ensures WithinTables(b) && -1500 <= Score(b) <= 1500
  {
    if |b| >= 1 { SumsBounded(b, |b|); }
  }

  /** The board with every square empty. */
  function EmptyBoard(): (b: Board)
    ensures forall j :: 0 <= j < |b| ==> b[j] == Empty
  {
    seq(Squares + 1, _ => Empty)
  }

  /**
   * The tables are not mirror images of each other: square 46 seen from white
   * is square 5 seen from black (the board turned half a turn), yet a lone
   * white man on 46 scores +5 while a lone black man on 5 scores -4. So this
   * evaluator does not negate under swapping the colours of a position.
   */
  lemma NotColourSymmetric()
    ensures WithinTables(EmptyBoard()[46 := WhiteMan]) && Score(EmptyBoard()[46 := WhiteMan]) == 5
    ensures WithinTables(EmptyBoard()[5 := BlackMan]) && Score(EmptyBoard()[5 := BlackMan]) == -4
  {
    EmptyBoardScoresZero(EmptyBoard());
    Place(EmptyBoard(), 46, WhiteMan);
    Place(EmptyBoard(), 5, BlackMan);
  }
}
