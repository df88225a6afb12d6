/** Properties of the rules engine: what `make_move` does to every square,
    how it changes the disc counts, the pass bookkeeping and the terminal test. */
module OthelloFacts {
  import opened Othello

  // ---------------------------------------------------------------------
  // Counting squares

  lemma {:induction false} CountRowUpdate(r: seq<Square>, j: int, v: Square, w: Square)
    requires 0 <= j < |r|
    ensures CountRow(r[j := v], w) == CountRow(r, w) - (if r[j] == w then 1 else 0) + (if v == w then 1 else 0)
  {
    if j == 0 {
      assert r[j := v][1..] == r[1..];
    } else {
      CountRowUpdate(r[1..], j - 1, v, w);
      assert r[j := v][1..] == r[1..][j - 1 := v];
    }
  }

  lemma {:induction false} CountUpdate(b: seq<Row>, i: int, row: Row, w: Square)
    requires 0 <= i < |b|
    ensures Count(b[i := row], w) == Count(b, w) - CountRow(b[i], w) + CountRow(row, w)
  {
    if i == 0 {
      assert b[i := row][1..] == b[1..];
    } else {
      CountUpdate(b[1..], i - 1, row, w);
      assert b[i := row][1..] == b[1..][i - 1 := row];
    }
  }

  /** Writing one square moves it from the count of its old value to the count of its new one. */
  lemma PutCount(b: Board, c: Pos, v: Square, w: Square)
    requires OnBoard(c)
    ensures Count(Put(b, c, v), w) == Count(b, w) - (if At(b, c) == w then 1 else 0) + (if v == w then 1 else 0)
  {
    CountRowUpdate(b[c.0], c.1, v, w);
    CountUpdate(b, c.0, b[c.0][c.1 := v], w);
  }

  lemma {:induction false} CountRowTotal(r: seq<Square>)
    ensures CountRow(r, 1) + CountRow(r, -1) + CountRow(r, 0) == |r|
  {
    if |r| > 0 {
      CountRowTotal(r[1..]);
    }
  }

  lemma {:induction false} CountRowsTotal(b: seq<Row>)
    ensures Count(b, 1) + Count(b, -1) + Count(b, 0) == 8 * |b|
  {
    if |b| > 0 {
      CountRowTotal(b[0]);
      CountRowsTotal(b[1..]);
    }
  }

  /** Black discs, white discs and empty squares always add up to 64. */
  lemma CountTotal(b: Board)
    ensures NumBlack(b) + NumWhite(b) + Count(b, 0) == 64
  {
    CountRowsTotal(b);
  }

  lemma {:induction false} CountRowZero(r: seq<Square>, v: Square)
    ensures CountRow(r, v) == 0 <==> forall j :: 0 <= j < |r| ==> r[j] != v
  {
    if |r| > 0 {
      CountRowZero(r[1..], v);
      assert forall j :: 1 <= j < |r| ==> r[j] == r[1..][j - 1];
    }
  }

  lemma {:induction false} CountRowsZero(b: seq<Row>, v: Square)
    ensures Count(b, v) == 0 <==> forall i, j :: 0 <= i < |b| && 0 <= j < 8 ==> b[i][j] != v
  {
    if |b| > 0 {
      CountRowZero(b[0], v);
      CountRowsZero(b[1..], v);
      assert forall i :: 1 <= i < |b| ==> b[i] == b[1..][i - 1];
    }
  }

  /** A colour has count zero exactly when no square holds it. */
  lemma CountZero(b: Board, v: Square)
    ensures Count(b, v) == 0 <==> forall c :: OnBoard(c) ==> At(b, c) != v
  {
    CountRowsZero(b, v);
    if Count(b, v) != 0 {
      var i, j :| 0 <= i < 8 && 0 <= j < 8 && b[i][j] == v;
      assert At(b, (i, j)) == v;
    }
  }

  /** At least one disc is on the board (the evaluation divides by the disc count). */
  predicate HasDisc(b: Board) {
    NumBlack(b) + NumWhite(b) > 0
  }

  lemma HasDiscIff(b: Board)
    ensures HasDisc(b) <==> exists c :: OnBoard(c) && At(b, c) != 0
  {
    CountZero(b, Black);
    CountZero(b, White);
  }

  /** `terminal` holds exactly when both sides have passed or every square is occupied. */
  lemma TerminalIff(s: State)
    ensures Terminal(s) <==> (s.blackPass && s.whitePass) || forall c :: OnBoard(c) ==> At(s.board, c) != 0
  {
    CountZero(s.board, 0);
  }

  // ---------------------------------------------------------------------
  // Geometry of rays

  /** How many steps from `q` along `d` the square `c` would be, if it lies on that ray. */
  function Dist(q: Pos, d: Dir, c: Pos): int {
    if d.0 == 1 then c.0 - q.0
    else if d.0 == -1 then q.0 - c.0
    else if d.1 == 1 then c.1 - q.1
    else q.1 - c.1
  }

  lemma DistStep(q: Pos, d: Dir, m: int)
    requires IsDir(d)
    ensures Dist(q, d, Step(q, d, m)) == m
  {
  }

  /** `c` lies between `lo` and `hi` steps from `q` along `d`. */
  predicate InRun(q: Pos, d: Dir, c: Pos, lo: int, hi: int) {
    var m := Dist(q, d, c);
    lo <= m <= hi && Step(q, d, m) == c
  }

  /** The squares a capturing direction `d` flips: its opponent run. */
  predicate Hit(b: Board, q: Pos, d: Dir, p: Player, c: Pos)
    requires OnBoard(q) && IsDir(d)
  {
    Captures(b, q, d, p) && InRun(q, d, c, 1, Run(b, q, d, Opp(p), 1))
  }

  /** Two boards agree on every square of the ray from `q` along `d`. */
  ghost predicate AgreeOnRay(b: Board, b': Board, q: Pos, d: Dir) {
    forall m :: 1 <= m && OnBoard(Step(q, d, m)) ==> At(b, Step(q, d, m)) == At(b', Step(q, d, m))
  }

  ghost predicate AgreeFrom(b: Board, b': Board, q: Pos, i: int)
    requires 0 <= i <= 8
  {
    forall j :: i <= j < 8 ==> AgreeOnRay(b, b', q, DirAt(j))
  }

  lemma {:induction false} RunAgree(b: Board, b': Board, q: Pos, d: Dir, c: Square, n: int)
    requires OnBoard(q) && IsDir(d) && n >= 1 && AgreeOnRay(b, b', q, d)
    ensures Run(b, q, d, c, n) == Run(b', q, d, c, n)
    decreases 8 - n
  {
    var s := Step(q, d, n);
    if OnBoard(s) && At(b, s) == c {
      StepBound(q, d, n);
      RunAgree(b, b', q, d, c, n + 1);
    }
  }

  /** What a direction captures depends only on the squares of its ray. */
  lemma CapturesAgree(b: Board, b': Board, q: Pos, d: Dir, p: Player)
    requires OnBoard(q) && IsDir(d) && AgreeOnRay(b, b', q, d)
    ensures Run(b, q, d, Opp(p), 1) == Run(b', q, d, Opp(p), 1)
    ensures Captures(b, q, d, p) == Captures(b', q, d, p)
  {
    RunAgree(b, b', q, d, Opp(p), 1);
    var k := Run(b, q, d, Opp(p), 1);
    var e := Step(q, d, k + 1);
    assert OnBoard(e) ==> At(b, e) == At(b', e);
    SameCaptures(b, b', q, d, p);
  }

  /** Equal runs closed by equal squares capture alike. */
  lemma SameCaptures(b: Board, b': Board, q: Pos, d: Dir, p: Player)
    requires OnBoard(q) && IsDir(d)
    requires Run(b, q, d, Opp(p), 1) == Run(b', q, d, Opp(p), 1)
    requires var e := Step(q, d, Run(b, q, d, Opp(p), 1) + 1); OnBoard(e) ==> At(b, e) == At(b', e)
    ensures Captures(b, q, d, p) == Captures(b', q, d, p)
  {
    var k := Run(b, q, d, Opp(p), 1);
    var e := Step(q, d, k + 1);
    CapturesUnfold(b, q, d, p);
    CapturesUnfold(b', q, d, p);
    if OnBoard(e) {
      assert At(b, e) == At(b', e);
    }
  }

  lemma CapturesUnfold(b: Board, q: Pos, d: Dir, p: Player)
    requires OnBoard(q) && IsDir(d)
    ensures var k := Run(b, q, d, Opp(p), 1); var e := Step(q, d, k + 1);
      Captures(b, q, d, p) == (k >= 1 && OnBoard(e) && At(b, e) == p)
  {
  }

  lemma HitAgree(b: Board, b': Board, q: Pos, d: Dir, p: Player, c: Pos)
    requires OnBoard(q) && IsDir(d) && AgreeOnRay(b, b', q, d)
    ensures Hit(b, q, d, p, c) == Hit(b', q, d, p, c)
  {
    CapturesAgree(b, b', q, d, p);
  }

  lemma PutAgrees(b: Board, q: Pos, v: Square, i: int)
    requires OnBoard(q) && 0 <= i <= 8
    ensures AgreeFrom(b, Put(b, q, v), q, i)
  {
    forall j, m | i <= j < 8 && 1 <= m && OnBoard(Step(q, DirAt(j), m))
      ensures At(b, Step(q, DirAt(j), m)) == At(Put(b, q, v), Step(q, DirAt(j), m))
    {
      assert Step(q, DirAt(j), 0) == q;
      if Step(q, DirAt(j), m) == q {
        StepInjective(q, DirAt(j), m, 0);
      }
    }
  }

  // ---------------------------------------------------------------------
  // One ray of make_move

  /** `FlipRun` turns exactly the occupied squares `n..k` steps out into discs of `p`. */
  lemma {:induction false} FlipRunCells(b: Board, q: Pos, d: Dir, p: Player, n: int, k: int)
    requires OnBoard(q) && IsDir(d) && n >= 1
    requires forall m :: n <= m <= k ==> OnBoard(Step(q, d, m))
    ensures forall c :: OnBoard(c) ==>
      At(FlipRun(b, q, d, p, n, k), c) == (if InRun(q, d, c, n, k) && At(b, c) != 0 then p else At(b, c))
    decreases k + 1 - n
  {
    if n <= k {
      var s := Step(q, d, n);
      var b1 := FlipPiece(b, s, p);
      FlipRunCells(b1, q, d, p, n + 1, k);
      forall c | OnBoard(c)
        ensures At(FlipRun(b, q, d, p, n, k), c) == (if InRun(q, d, c, n, k) && At(b, c) != 0 then p else At(b, c))
      {
        DistStep(q, d, n);
        if c != s {
          assert InRun(q, d, c, n, k) == InRun(q, d, c, n + 1, k);
        }
      }
    }
  }

  /** Flipping an opponent run of length `k + 1 - n` moves that many discs from the opponent to `p`. */
  lemma {:induction false} FlipRunCounts(b: Board, q: Pos, d: Dir, p: Player, n: int, k: int)
    requires OnBoard(q) && IsDir(d) && 1 <= n <= k + 1
    requires forall m :: n <= m <= k ==> OnBoard(Step(q, d, m)) && At(b, Step(q, d, m)) == Opp(p)
    ensures Count(FlipRun(b, q, d, p, n, k), p) == Count(b, p) + (k + 1 - n)
    ensures Count(FlipRun(b, q, d, p, n, k), Opp(p)) == Count(b, Opp(p)) - (k + 1 - n)
    ensures Count(FlipRun(b, q, d, p, n, k), 0) == Count(b, 0)
    decreases k + 1 - n
  {
    if n <= k {
      var b1 := FlipPiece(b, Step(q, d, n), p);
      FlipOneCounts(b, Step(q, d, n), p);
      RunRest(b, q, d, p, n, k);
      FlipRunCounts(b1, q, d, p, n + 1, k);
    }
  }

  /** Flipping one disc of the opponent of `p` moves one disc from the opponent's count to `p`'s. */
  lemma FlipOneCounts(b: Board, s: Pos, p: Player)
    requires OnBoard(s) && At(b, s) == Opp(p)
    ensures Count(FlipPiece(b, s, p), p) == Count(b, p) + 1
    ensures Count(FlipPiece(b, s, p), Opp(p)) == Count(b, Opp(p)) - 1
    ensures Count(FlipPiece(b, s, p), 0) == Count(b, 0)
  {
    PutCount(b, s, p, p);
    PutCount(b, s, p, Opp(p));
    PutCount(b, s, p, 0);
  }

  /** Flipping the first disc of an opponent run leaves the rest of the run in place. */
  lemma RunRest(b: Board, q: Pos, d: Dir, p: Player, n: int, k: int)
    requires OnBoard(q) && IsDir(d) && 1 <= n <= k
    requires forall m :: n <= m <= k ==> OnBoard(Step(q, d, m)) && At(b, Step(q, d, m)) == Opp(p)
    ensures forall m :: n + 1 <= m <= k ==>
      OnBoard(Step(q, d, m)) && At(FlipPiece(b, Step(q, d, n), p), Step(q, d, m)) == Opp(p)
  {
    forall m | n + 1 <= m <= k
      ensures OnBoard(Step(q, d, m)) && At(FlipPiece(b, Step(q, d, n), p), Step(q, d, m)) == Opp(p)
    {
      if Step(q, d, m) == Step(q, d, n) {
        StepInjective(q, d, m, n);
      }
    }
  }

  lemma FlipDirCells(b: Board, q: Pos, d: Dir, p: Player)
    requires OnBoard(q) && IsDir(d)
    ensures forall c :: OnBoard(c) ==> At(FlipDir(b, q, d, p), c) == (if Hit(b, q, d, p, c) then p else At(b, c))
  {
    if Captures(b, q, d, p) {
      var k := Run(b, q, d, Opp(p), 1);
      RunFacts(b, q, d, Opp(p), 1);
      FlipRunCells(b, q, d, p, 1, k);
      forall c | OnBoard(c) && InRun(q, d, c, 1, k)
        ensures At(b, c) != 0
      {
        assert At(b, Step(q, d, Dist(q, d, c))) == Opp(p);
      }
    }
  }

  lemma FlipDirCounts(b: Board, q: Pos, d: Dir, p: Player)
    requires OnBoard(q) && IsDir(d)
    ensures var n := if Captures(b, q, d, p) then Run(b, q, d, Opp(p), 1) else 0;
      && Count(FlipDir(b, q, d, p), p) == Count(b, p) + n
      && Count(FlipDir(b, q, d, p), Opp(p)) == Count(b, Opp(p)) - n
      && Count(FlipDir(b, q, d, p), 0) == Count(b, 0)
  {
    if Captures(b, q, d, p) {
      RunFacts(b, q, d, Opp(p), 1);
      FlipRunCounts(b, q, d, p, 1, Run(b, q, d, Opp(p), 1));
    }
  }

  /** Flipping ray `i` leaves every other ray from the same square untouched. */
  lemma FlipDirAgrees(b: Board, q: Pos, i: int, p: Player)
    requires OnBoard(q) && 0 <= i < 8
    ensures AgreeFrom(b, FlipDir(b, q, DirAt(i), p), q, i + 1)
  {
    var b1 := FlipDir(b, q, DirAt(i), p);
    FlipDirCells(b, q, DirAt(i), p);
    forall j, m | i + 1 <= j < 8 && 1 <= m && OnBoard(Step(q, DirAt(j), m))
      ensures At(b, Step(q, DirAt(j), m)) == At(b1, Step(q, DirAt(j), m))
    {
      var c := Step(q, DirAt(j), m);
      if Hit(b, q, DirAt(i), p, c) {
        RaysDisjoint(q, i, j, Dist(q, DirAt(i), c), m);
      }
    }
  }

  // ---------------------------------------------------------------------
  // All eight rays

  /** Square `c` is flipped by one of the directions `i..7`. */
  ghost predicate FlippedFrom(b: Board, q: Pos, p: Player, i: int, c: Pos)
    requires OnBoard(q) && 0 <= i <= 8
  {
    exists j :: i <= j < 8 && Hit(b, q, DirAt(j), p, c)
  }

  /** Number of discs the directions `i..7` flip. */
  function FlipsFrom(b: Board, q: Pos, p: Player, i: int): nat
    requires OnBoard(q) && 0 <= i <= 8
    decreases 8 - i, q  // `q` only blocks literal unrolling, as in `Run`
  {
    if i == 8 then 0
    else (if Captures(b, q, DirAt(i), p) then Run(b, q, DirAt(i), Opp(p), 1) else 0) + FlipsFrom(b, q, p, i + 1)
  }

  /** Number of discs a move of `p` on `q` flips. */
  function Flips(b: Board, q: Pos, p: Player): nat
    requires OnBoard(q)
  {
    FlipsFrom(b, q, p, 0)
  }

  /** Boards that agree on the rays `i..7` from `q` flip the same squares there, and as many of them. */
  lemma AgreeFromFacts(b: Board, b': Board, q: Pos, p: Player, i: int)
    requires OnBoard(q) && 0 <= i <= 8 && AgreeFrom(b, b', q, i)
    ensures FlipsFrom(b, q, p, i) == FlipsFrom(b', q, p, i)
    ensures forall c :: FlippedFrom(b, q, p, i, c) == FlippedFrom(b', q, p, i, c)
  {
    FlipsAgree(b, b', q, p, i);
    forall c ensures FlippedFrom(b, q, p, i, c) == FlippedFrom(b', q, p, i, c) {
      FlippedAgree(b, b', q, p, i, c);
    }
  }

  lemma {:induction false} FlipsAgree(b: Board, b': Board, q: Pos, p: Player, i: int)
    requires OnBoard(q) && 0 <= i <= 8 && AgreeFrom(b, b', q, i)
    ensures FlipsFrom(b, q, p, i) == FlipsFrom(b', q, p, i)
    decreases 8 - i
  {
    if i < 8 {
      CapturesAgree(b, b', q, DirAt(i), p);
      FlipsAgree(b, b', q, p, i + 1);
    }
  }

  lemma FlippedAgree(b: Board, b': Board, q: Pos, p: Player, i: int, c: Pos)
    requires OnBoard(q) && 0 <= i <= 8 && AgreeFrom(b, b', q, i)
    ensures FlippedFrom(b, q, p, i, c) == FlippedFrom(b', q, p, i, c)
  {
    if FlippedFrom(b, q, p, i, c) {
      var j :| i <= j < 8 && Hit(b, q, DirAt(j), p, c);
      HitAgree(b, b', q, DirAt(j), p, c);
    }
    if FlippedFrom(b', q, p, i, c) {
      var j :| i <= j < 8 && Hit(b', q, DirAt(j), p, c);
      HitAgree(b, b', q, DirAt(j), p, c);
    }
  }

  lemma {:induction false} FlipAllCells(b: Board, q: Pos, p: Player, i: int)
    requires OnBoard(q) && 0 <= i <= 8
    ensures forall c :: OnBoard(c) ==>
      At(FlipAll(b, q, p, i), c) == (if FlippedFrom(b, q, p, i, c) then p else At(b, c))
    decreases 8 - i
  {
    if i < 8 {
      var b1 := FlipDir(b, q, DirAt(i), p);
      FlipDirCells(b, q, DirAt(i), p);
      FlipDirAgrees(b, q, i, p);
      AgreeFromFacts(b, b1, q, p, i + 1);
      FlipAllCells(b1, q, p, i + 1);
      assert FlipAll(b, q, p, i) == FlipAll(b1, q, p, i + 1);
      forall c | OnBoard(c)
        ensures At(FlipAll(b, q, p, i), c) == (if FlippedFrom(b, q, p, i, c) then p else At(b, c))
      {
        assert FlippedFrom(b, q, p, i, c) <==> Hit(b, q, DirAt(i), p, c) || FlippedFrom(b, q, p, i + 1, c);
      }
    }
  }

  lemma {:induction false} FlipAllCounts(b: Board, q: Pos, p: Player, i: int)
    requires OnBoard(q) && 0 <= i <= 8
    ensures Count(FlipAll(b, q, p, i), p) == Count(b, p) + FlipsFrom(b, q, p, i)
    ensures Count(FlipAll(b, q, p, i), Opp(p)) == Count(b, Opp(p)) - FlipsFrom(b, q, p, i)
    ensures Count(FlipAll(b, q, p, i), 0) == Count(b, 0)
    decreases 8 - i
  {
    if i < 8 {
      var b1 := FlipDir(b, q, DirAt(i), p);
      FlipDirCounts(b, q, DirAt(i), p);
      FlipDirAgrees(b, q, i, p);
      AgreeFromFacts(b, b1, q, p, i + 1);
      FlipAllCounts(b1, q, p, i + 1);
    }
  }

  lemma {:induction false} FlipsFromPositive(b: Board, q: Pos, p: Player, i: int)
    requires OnBoard(q) && 0 <= i <= 8
    ensures FlipsFrom(b, q, p, i) >= 1 <==> exists j :: i <= j < 8 && Captures(b, q, DirAt(j), p)
    decreases 8 - i
  {
    if i < 8 {
      FlipsFromPositive(b, q, p, i + 1);
      if !Captures(b, q, DirAt(i), p) {
        assert (exists j :: i <= j < 8 && Captures(b, q, DirAt(j), p)) ==
               (exists j :: i + 1 <= j < 8 && Captures(b, q, DirAt(j), p));
      }
    }
  }

  // ---------------------------------------------------------------------
  // make_move

  /** Square `c` lies strictly between `q` and a disc of `p`, on a line of
      opponent discs that starts next to `q`. */
  ghost predicate Flanked(b: Board, q: Pos, p: Player, c: Pos)
    requires OnBoard(q)
  {
    exists i, n, m :: 0 <= i < 8 && Brackets(b, q, DirAt(i), p, n) && 1 <= m <= n && Step(q, DirAt(i), m) == c
  }

  lemma FlippedIffFlanked(b: Board, q: Pos, p: Player, c: Pos)
    requires OnBoard(q)
    ensures FlippedFrom(b, q, p, 0, c) <==> Flanked(b, q, p, c)
  {
    if FlippedFrom(b, q, p, 0, c) {
      var j :| 0 <= j < 8 && Hit(b, q, DirAt(j), p, c);
      var n := Run(b, q, DirAt(j), Opp(p), 1);
      CapturesIff(b, q, DirAt(j), p, n);
      assert Brackets(b, q, DirAt(j), p, n) && 1 <= Dist(q, DirAt(j), c) <= n
        && Step(q, DirAt(j), Dist(q, DirAt(j), c)) == c;
    }
    if Flanked(b, q, p, c) {
      var i, n, m :| 0 <= i < 8 && Brackets(b, q, DirAt(i), p, n) && 1 <= m <= n && Step(q, DirAt(i), m) == c;
      CapturesIff(b, q, DirAt(i), p, n);
      DistStep(q, DirAt(i), m);
      assert Hit(b, q, DirAt(i), p, c);
    }
  }

  /** A placement: the target takes the mover's colour, every flanked
      opponent disc is flipped, every other square is unchanged, the turn
      passes to the opponent and the pass flags are untouched. */
  lemma PlayCells(s: State, q: Pos)
    requires OnBoard(q)
    ensures var r := MakeMove(s, Some(q));
      && (forall c :: OnBoard(c) ==>
            At(r.board, c) == (if c == q || Flanked(s.board, q, s.turn, c) then s.turn else At(s.board, c)))
      && r.turn == Opp(s.turn) && r.blackPass == s.blackPass && r.whitePass == s.whitePass
  {
    var p := s.turn;
    var b0 := Put(s.board, q, p);
    PutAgrees(s.board, q, p, 0);
    AgreeFromFacts(s.board, b0, q, p, 0);
    FlipAllCells(b0, q, p, 0);
    forall c | OnBoard(c)
      ensures At(MakeMove(s, Some(q)).board, c) == (if c == q || Flanked(s.board, q, p, c) then p else At(s.board, c))
    {
      FlippedIffFlanked(s.board, q, p, c);
    }
  }

  /** A placement on an empty square: one fewer empty square, the mover
      gains the new disc plus every flipped one, the opponent loses the
      flipped ones. */
  lemma PlayCounts(s: State, q: Pos)
    requires OnBoard(q) && At(s.board, q) == 0
    ensures var r := MakeMove(s, Some(q)).board;
      var k := Flips(s.board, q, s.turn);
      && Count(r, 0) == Count(s.board, 0) - 1
      && Count(r, s.turn) == Count(s.board, s.turn) + 1 + k
      && Count(r, Opp(s.turn)) == Count(s.board, Opp(s.turn)) - k
  {
    var p := s.turn;
    var b0 := Put(s.board, q, p);
    PutCount(s.board, q, p, p);
    PutCount(s.board, q, p, Opp(p));
    PutCount(s.board, q, p, 0);
    PutAgrees(s.board, q, p, 0);
    AgreeFromFacts(s.board, b0, q, p, 0);
    FlipAllCounts(b0, q, p, 0);
  }

  /** On an empty square a move flips at least one disc exactly when it is valid. */
  lemma ValidIffFlips(b: Board, p: Player, q: Pos)
    requires OnBoard(q) && At(b, q) == 0
    ensures IsValid(b, p, q) <==> Flips(b, q, p) >= 1
  {
    AnyCaptureIff(b, q, p, 0);
    FlipsFromPositive(b, q, p, 0);
  }

  /** Two passes in a row end the game and give the move back to the first side. */
  lemma TwoPassesTerminal(s: State)
    ensures Terminal(MakeMove(MakeMove(s, None), None))
    ensures MakeMove(MakeMove(s, None), None).turn == s.turn
  {
  }

  /** A move never empties a square: the number of discs on the board grows by one. */
  lemma PlayAddsDisc(s: State, q: Pos)
    requires OnBoard(q) && At(s.board, q) == 0
    ensures var r := MakeMove(s, Some(q)).board;
      NumBlack(r) + NumWhite(r) == NumBlack(s.board) + NumWhite(s.board) + 1
  {
    PlayCounts(s, q);
    CountTotal(s.board);
    CountTotal(MakeMove(s, Some(q)).board);
  }
}
