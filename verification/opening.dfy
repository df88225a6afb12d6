/** The starting position: which moves black has, and what the first of them does. */
module Opening {
  import opened Othello
  import opened OthelloFacts

  /** Black's four opening moves, in the order `get_moves` lists them (row `y` first, then `x`). */
  const OpeningMoves: seq<Pos> := [(3, 2), (2, 3), (5, 4), (4, 5)]

  /** The discs of the starting position: white on (3, 3) and (4, 4), black on (3, 4) and (4, 3). */
  ghost predicate StartCells(b: Board) {
    forall c :: OnBoard(c) ==>
      At(b, c) == (if c == (3, 3) || c == (4, 4) then White else if c == (3, 4) || c == (4, 3) then Black else 0)
  }

  /** Every capture black can make from the starting position starts on one of the four opening squares. */
  lemma CaptureOnlyAtOpening(b: Board, q: Pos, j: int)
    requires StartCells(b) && OnBoard(q) && 0 <= j < 8 && Captures(b, q, DirAt(j), Black)
    ensures q in OpeningMoves
  {
    var d := DirAt(j);
    var k := Run(b, q, d, White, 1);
    assert At(b, Step(q, d, 1)) == White;
    assert At(b, Step(q, d, 2)) == Black;
  }

  /** Each of the four opening squares is a legal move for black. */
  lemma OpeningSquareValid(b: Board, q: Pos)
    requires StartCells(b) && q in OpeningMoves
    ensures IsValid(b, Black, q)
  {
    if q == (3, 2) {
      ShortCapture(b, q, 4, (3, 3), (3, 4));
    } else if q == (2, 3) {
      ShortCapture(b, q, 6, (3, 3), (4, 3));
    } else if q == (5, 4) {
      ShortCapture(b, q, 1, (4, 4), (3, 4));
    } else {
      ShortCapture(b, q, 3, (4, 4), (4, 3));
    }
  }

  /** An empty square next to a white disc that is backed by a black one is a legal move for black. */
  lemma ShortCapture(b: Board, q: Pos, i: int, w: Pos, k: Pos)
    requires OnBoard(q) && 0 <= i < 8 && At(b, q) == 0
    requires Step(q, DirAt(i), 1) == w && OnBoard(w) && At(b, w) == White
    requires Step(q, DirAt(i), 2) == k && OnBoard(k) && At(b, k) == Black
    ensures IsValid(b, Black, q)
  {
    assert Brackets(b, q, DirAt(i), Black, 1);
    ValidIffBrackets(b, Black, q);
  }

  /** In the starting position black may play exactly on the four opening squares. */
  lemma OpeningValidIff(b: Board, q: Pos)
    requires StartCells(b) && OnBoard(q)
    ensures IsValid(b, Black, q) <==> q in OpeningMoves
  {
    if q in OpeningMoves {
      OpeningSquareValid(b, q);
    } else {
      forall j | 0 <= j < 8 ensures !Captures(b, q, DirAt(j), Black) {
        if Captures(b, q, DirAt(j), Black) {
          CaptureOnlyAtOpening(b, q, j);
        }
      }
      AnyCaptureIff(b, q, Black, 0);
    }
  }

  lemma LastIndex(r: seq<Pos>, k: int)
    requires forall q :: q in r <==> q in OpeningMoves
    requires forall i, j :: 0 <= i < j < |r| ==> r[i].1 < r[j].1 || (r[i].1 == r[j].1 && r[i].0 < r[j].0)
    requires 3 < |r| && r[3] == (4, 5) && 0 <= k < |r|
    ensures k <= 3
  {
    assert r[k] in OpeningMoves;
  }

  /** A list ordered by (`y`, `x`) that holds exactly the opening squares is the opening list. */
  lemma ScanOrderUnique(r: seq<Pos>)
    requires forall q :: q in r <==> q in OpeningMoves
    requires forall i, j :: 0 <= i < j < |r| ==> r[i].1 < r[j].1 || (r[i].1 == r[j].1 && r[i].0 < r[j].0)
    ensures r == OpeningMoves
  {
    var i0, i1, i2, i3 := OpeningIndices(r);
    SlotsFilled(r, i0, i1, i2, i3);
    LastIndex(r, |r| - 1);
  }

  lemma OpeningIndices(r: seq<Pos>) returns (i0: int, i1: int, i2: int, i3: int)
    requires forall q :: q in r <==> q in OpeningMoves
    requires forall i, j :: 0 <= i < j < |r| ==> r[i].1 < r[j].1 || (r[i].1 == r[j].1 && r[i].0 < r[j].0)
    ensures 0 <= i0 < i1 < i2 < i3 < |r|
    ensures r[i0] == (3, 2) && r[i1] == (2, 3) && r[i2] == (5, 4) && r[i3] == (4, 5)
  {
    assert (3, 2) in r && (2, 3) in r && (5, 4) in r && (4, 5) in r;
    i0 :| 0 <= i0 < |r| && r[i0] == (3, 2);
    i1 :| 0 <= i1 < |r| && r[i1] == (2, 3);
    i2 :| 0 <= i2 < |r| && r[i2] == (5, 4);
    i3 :| 0 <= i3 < |r| && r[i3] == (4, 5);
  }

  lemma SlotsFilled(r: seq<Pos>, i0: int, i1: int, i2: int, i3: int)
    requires forall q :: q in r <==> q in OpeningMoves
    requires 0 <= i0 < i1 < i2 < i3 < |r|
    requires r[i0] == (3, 2) && r[i1] == (2, 3) && r[i2] == (5, 4) && r[i3] == (4, 5)
    requires forall i, j :: 0 <= i < j < |r| ==> r[i].1 < r[j].1 || (r[i].1 == r[j].1 && r[i].0 < r[j].0)
    ensures i0 == 0 && i1 == 1 && i2 == 2 && i3 == 3
  {
    assert r[0] in OpeningMoves;
    assert i0 == 0;
    assert r[1] in OpeningMoves;
    assert i1 == 1;
    assert r[2] in OpeningMoves;
    assert i2 == 2;
    assert r[3] in OpeningMoves;
  }

  /** `get_moves` on the starting position returns the four opening moves in scan order. */
  lemma OpeningMovesListed()
    ensures LegalMoves(Initial().board, Black) == OpeningMoves
  {
    var b := Initial().board;
    OpeningMovesMembers(b);
    ScanOrderUnique(LegalMoves(b, Black));
  }

  lemma OpeningMovesMembers(b: Board)
    requires StartCells(b)
    ensures forall q :: q in LegalMoves(b, Black) <==> q in OpeningMoves
  {
    OpeningValid(b);
    assert forall q :: q in OpeningMoves ==> OnBoard(q);
  }

  lemma OpeningValid(b: Board)
    requires StartCells(b)
    ensures forall q :: OnBoard(q) ==> (IsValid(b, Black, q) <==> q in OpeningMoves)
  {
    forall q | OnBoard(q) ensures IsValid(b, Black, q) <==> q in OpeningMoves {
      OpeningValidIff(b, q);
    }
  }

  lemma FirstMoveFlanks(b: Board)
    requires StartCells(b)
    ensures Flanked(b, (3, 2), Black, (3, 3))
    ensures !Flanked(b, (3, 2), Black, (4, 4))
  {
    var q := (3, 2);
    assert Brackets(b, q, DirAt(4), Black, 1);
    assert Step(q, DirAt(4), 1) == (3, 3);
  }

  /** Black opening on (3, 2) flips the white disc on (3, 3) but not the one on (4, 4). */
  lemma FirstMoveCells()
    ensures var r := MakeMove(Initial(), Some((3, 2)));
      && At(r.board, (3, 2)) == Black && At(r.board, (3, 3)) == Black && At(r.board, (4, 4)) == White
      && r.turn == White && !r.blackPass && !r.whitePass
  {
    var s := Initial();
    FirstMoveCellsFrom(s);
  }

  lemma FirstMoveCellsFrom(s: State)
    requires StartCells(s.board) && s.turn == Black && !s.blackPass && !s.whitePass
    ensures var r := MakeMove(s, Some((3, 2)));
      && At(r.board, (3, 2)) == Black && At(r.board, (3, 3)) == Black && At(r.board, (4, 4)) == White
      && r.turn == White && !r.blackPass && !r.whitePass
  {
    var q := (3, 2);
    PlayCells(s, q);
    FirstMoveFlanks(s.board);
    var r := MakeMove(s, Some(q));
    assert At(r.board, (4, 4)) == (if (4, 4) == q || Flanked(s.board, q, Black, (4, 4)) then Black else At(s.board, (4, 4)));
  }

  /** After that first move black has four discs and white one. */
  lemma FirstMoveCounts()
    ensures var r := MakeMove(Initial(), Some((3, 2))).board;
      NumBlack(r) == 4 && NumWhite(r) == 1 && Count(r, 0) == 59
  {
    InitialCounts();
    FirstMoveCountsFrom(Initial());
  }

  lemma FirstMoveCountsFrom(s: State)
    requires StartCells(s.board) && s.turn == Black && !s.blackPass && !s.whitePass
    requires Count(s.board, Black) == 2 && Count(s.board, White) == 2 && Count(s.board, 0) == 60
    ensures var r := MakeMove(s, Some((3, 2))).board;
      Count(r, Black) == 4 && Count(r, White) == 1 && Count(r, 0) == 59
  {
    FirstMoveCellsFrom(s);
    FirstMoveFlips(s.board);
    SingleFlip(s, (3, 2), (4, 4));
  }

  /** A legal move on an empty square, against an opponent with two discs of
      which one survives, flips exactly one disc. */
  lemma SingleFlip(s: State, q: Pos, w: Pos)
    requires OnBoard(q) && OnBoard(w) && At(s.board, q) == 0 && Flips(s.board, q, s.turn) >= 1
    requires Count(s.board, Opp(s.turn)) == 2 && At(MakeMove(s, Some(q)).board, w) == Opp(s.turn)
    ensures Flips(s.board, q, s.turn) == 1
    ensures var r := MakeMove(s, Some(q)).board;
      && Count(r, s.turn) == Count(s.board, s.turn) + 2
      && Count(r, Opp(s.turn)) == 1
      && Count(r, 0) == Count(s.board, 0) - 1
  {
    PlayCounts(s, q);
    CountPositive(MakeMove(s, Some(q)).board, w);
  }

  /** A disc on the board is counted. */
  lemma CountPositive(b: Board, c: Pos)
    requires OnBoard(c)
    ensures Count(b, At(b, c)) >= 1
  {
    CountZero(b, At(b, c));
  }

  /** The first move is legal, so it flips something. */
  lemma FirstMoveFlips(b: Board)
    requires StartCells(b)
    ensures At(b, (3, 2)) == 0 && Flips(b, (3, 2), Black) >= 1
  {
    OpeningSquareValid(b, (3, 2));
    ValidIffFlips(b, Black, (3, 2));
  }

  /** The starting position has two discs of each colour and sixty empty squares. */
  lemma InitialCounts()
    ensures NumBlack(Initial().board) == 2 && NumWhite(Initial().board) == 2 && Count(Initial().board, 0) == 60
  {
    var b0 := EmptyBoard;
    var b1 := Put(b0, (3, 3), White);
    var b2 := Put(b1, (4, 4), White);
    var b3 := Put(b2, (3, 4), Black);
    var b4 := Put(b3, (4, 3), Black);
    assert Initial().board == b4;
    EmptyCounts();
    StartChainCounts(b0, b1, b2, b3, b4);
  }

  lemma StartChainCounts(b0: Board, b1: Board, b2: Board, b3: Board, b4: Board)
    requires Count(b0, 0) == 64 && Count(b0, Black) == 0 && Count(b0, White) == 0
    requires At(b0, (3, 3)) == 0 && At(b0, (4, 4)) == 0 && At(b0, (3, 4)) == 0 && At(b0, (4, 3)) == 0
    requires b1 == Put(b0, (3, 3), White) && b2 == Put(b1, (4, 4), White)
    requires b3 == Put(b2, (3, 4), Black) && b4 == Put(b3, (4, 3), Black)
    ensures Count(b4, Black) == 2 && Count(b4, White) == 2 && Count(b4, 0) == 60
  {
    PutsCount(b0, (3, 3), White);
    assert At(b1, (4, 4)) == 0;
    PutsCount(b1, (4, 4), White);
    assert At(b2, (3, 4)) == 0;
    PutsCount(b2, (3, 4), Black);
    assert At(b3, (4, 3)) == 0;
    PutsCount(b3, (4, 3), Black);
  }

  lemma PutsCount(b: Board, c: Pos, p: Player)
    requires OnBoard(c) && At(b, c) == 0
    ensures Count(Put(b, c, p), p) == Count(b, p) + 1
    ensures Count(Put(b, c, p), Opp(p)) == Count(b, Opp(p))
    ensures Count(Put(b, c, p), 0) == Count(b, 0) - 1
  {
    PutCount(b, c, p, p);
    PutCount(b, c, p, Opp(p));
    PutCount(b, c, p, 0);
  }

  lemma EmptyCounts()
    ensures Count(EmptyBoard, 0) == 64 && Count(EmptyBoard, Black) == 0 && Count(EmptyBoard, White) == 0
    ensures forall c :: OnBoard(c) ==> At(EmptyBoard, c) == 0
  {
    assert forall c :: OnBoard(c) ==> At(EmptyBoard, c) == 0;
    BlankCounts(EmptyBoard);
  }

  /** A board with no discs counts sixty-four empty squares. */
  lemma BlankCounts(b: Board)
    requires forall c :: OnBoard(c) ==> At(b, c) == 0
    ensures Count(b, 0) == 64 && Count(b, Black) == 0 && Count(b, White) == 0
  {
    CountZero(b, Black);
    CountZero(b, White);
    CountTotal(b);
  }
}
