/** The Othello rules engine: an 8x8 board of discs, whose turn it is and
    the two pass flags; move legality, move application with captures,
    and the terminal/winner queries. */
module Othello {

  datatype Option<+T> = None | Some(value: T)

  /** A square holds 1 (black), -1 (white) or 0 (empty). */
  type Square = c: int | -1 <= c <= 1

  /** A side is 1 (black) or -1 (white); the opponent of `p` is `-p`. */
  type Player = p: int | p == 1 || p == -1 witness 1

  const Black: Player := 1
  const White: Player := -1

  type Row = r: seq<Square> | |r| == 8 witness [0, 0, 0, 0, 0, 0, 0, 0]

  const EmptyRow: Row := [0, 0, 0, 0, 0, 0, 0, 0]

  /** `b[x][y]` is the square the source addresses as `board[x, y]`. */
  type Board = b: seq<Row> | |b| == 8
    witness [EmptyRow, EmptyRow, EmptyRow, EmptyRow, EmptyRow, EmptyRow, EmptyRow, EmptyRow]

  const EmptyBoard: Board := [EmptyRow, EmptyRow, EmptyRow, EmptyRow, EmptyRow, EmptyRow, EmptyRow, EmptyRow]

  /** A game position: the board, the side to move and the pass flags. */
  datatype State = State(board: Board, turn: Player, blackPass: bool, whitePass: bool)

  /** A square `(x, y)`, and a direction `(dx, dy)`. */
  type Pos = (int, int)
  type Dir = (int, int)

  predicate OnBoard(q: Pos) {
    0 <= q.0 < 8 && 0 <= q.1 < 8
  }

  /** `get_piece` */
  function At(b: Board, q: Pos): Square
    requires OnBoard(q)
  {
    b[q.0][q.1]
  }

  /** The assignment `board[x, y] = v` performed by `add_piece` and `flip_piece`. */
  function Put(b: Board, q: Pos, v: Square): (r: Board)
    requires OnBoard(q)
    ensures At(r, q) == v
    ensures forall c :: OnBoard(c) && c != q ==> At(r, c) == At(b, c)
  {
    b[q.0 := b[q.0][q.1 := v]]
  }

  /** `flip_piece`: an occupied square takes the colour of the side to move. */
  function FlipPiece(b: Board, q: Pos, p: Player): (r: Board)
    requires OnBoard(q)
  {
    if At(b, q) != 0 then Put(b, q, p) else b
  }

  /** `get_opp` */
  function Opp(p: Player): (o: Player)
    ensures o != p
  {
    if p == Black then White else Black
  }

  predicate IsDir(d: Dir) {
    -1 <= d.0 <= 1 && -1 <= d.1 <= 1 && d != (0, 0)
  }

  /** The eight compass directions, in the order of `sq_dirs`. */
  const Dirs: seq<Dir> := [(-1, -1), (-1, 0), (-1, 1), (0, -1), (0, 1), (1, -1), (1, 0), (1, 1)]

  /** Direction `i` of the table. */
  function DirAt(i: int): (d: Dir)
    requires 0 <= i < 8
    ensures IsDir(d)
  {
    Dirs[i]
  }

  function Scale(k: int, n: int): int {
    if k == 1 then n else if k == -1 then -n else 0
  }

  /** The square `n` steps from `q` in direction `d`. */
  function Step(q: Pos, d: Dir, n: int): Pos {
    (q.0 + Scale(d.0, n), q.1 + Scale(d.1, n))
  }

  /** A ray that starts on the board leaves it within seven steps. */
  lemma StepBound(q: Pos, d: Dir, n: int)
    requires OnBoard(q) && IsDir(d) && n >= 1 && OnBoard(Step(q, d, n))
    ensures n <= 7
  {
  }

  /** Distinct distances along one ray give distinct squares. */
  lemma StepInjective(q: Pos, d: Dir, m: int, n: int)
    requires IsDir(d) && Step(q, d, m) == Step(q, d, n)
    ensures m == n
  {
  }

  /** A ray that is on the board at two distances is on the board in between. */
  lemma StepBetween(q: Pos, d: Dir, n: int, m: int, k: int)
    requires IsDir(d) && n <= m && OnBoard(Step(q, d, n)) && OnBoard(Step(q, d, k))
    ensures m <= k ==> OnBoard(Step(q, d, m))
  {
  }

  /** Rays from one square in two different directions never meet. */
  lemma RaysDisjoint(q: Pos, i: int, j: int, m: int, n: int)
    requires 0 <= i < 8 && 0 <= j < 8 && m >= 1 && n >= 1
    requires Step(q, DirAt(i), m) == Step(q, DirAt(j), n)
    ensures i == j && m == n
  {
  }

  /** Number of consecutive squares holding `c` along `d`, starting `n` steps from `q`. */
  function Run(b: Board, q: Pos, d: Dir, c: Square, n: int): nat
    requires OnBoard(q) && IsDir(d) && n >= 1
    // `q` never changes; naming it keeps the verifier from unrolling calls
    // whose counter is a literal all the way to the edge of the board.
    decreases 8 - n, q
  {
    var s := Step(q, d, n);
    if OnBoard(s) && At(b, s) == c then
      StepBound(q, d, n);
      1 + Run(b, q, d, c, n + 1)
    else
      0
  }

  /** The run is made of squares of colour `c` and is closed by a square off
      the board or of another colour. */
  lemma {:induction false} RunFacts(b: Board, q: Pos, d: Dir, c: Square, n: int)
    requires OnBoard(q) && IsDir(d) && n >= 1
    ensures var k := Run(b, q, d, c, n);
      && (forall m :: n <= m < n + k ==> OnBoard(Step(q, d, m)) && At(b, Step(q, d, m)) == c)
      && (!OnBoard(Step(q, d, n + k)) || At(b, Step(q, d, n + k)) != c)
    decreases 8 - n
  {
    var s := Step(q, d, n);
    if OnBoard(s) && At(b, s) == c {
      StepBound(q, d, n);
      RunFacts(b, q, d, c, n + 1);
      var k := Run(b, q, d, c, n + 1);
      assert Run(b, q, d, c, n) == k + 1;
      forall m | n <= m < n + 1 + k
        ensures OnBoard(Step(q, d, m)) && At(b, Step(q, d, m)) == c
      {
        if m == n {
          assert Step(q, d, m) == s;
        }
      }
    }
  }

  /** Direction `d` captures for `p` from `q`: one or more opponent discs,
      then a disc of `p`, all on the board. */
  predicate Captures(b: Board, q: Pos, d: Dir, p: Player)
    requires OnBoard(q) && IsDir(d)
  {
    var k := Run(b, q, d, Opp(p), 1);
    k >= 1 && OnBoard(Step(q, d, k + 1)) && At(b, Step(q, d, k + 1)) == p
  }

  /** The declarative bracketing condition: the first `n >= 1` squares
      along `d` hold opponent discs and square `n + 1` holds a disc of `p`. */
  ghost predicate Brackets(b: Board, q: Pos, d: Dir, p: Player, n: int)
    requires OnBoard(q)
  {
    && n >= 1
    && (forall m :: 1 <= m <= n ==> OnBoard(Step(q, d, m)) && At(b, Step(q, d, m)) == Opp(p))
    && OnBoard(Step(q, d, n + 1)) && At(b, Step(q, d, n + 1)) == p
  }

  /** A capturing direction brackets exactly its opponent run. */
  lemma CapturesIff(b: Board, q: Pos, d: Dir, p: Player, n: int)
    requires OnBoard(q) && IsDir(d)
    ensures Brackets(b, q, d, p, n) <==> Captures(b, q, d, p) && n == Run(b, q, d, Opp(p), 1)
  {
    if Brackets(b, q, d, p, n) {
      BracketsCaptures(b, q, d, p, n);
    } else if Captures(b, q, d, p) {
      CapturesBrackets(b, q, d, p);
    }
  }

  lemma BracketsCaptures(b: Board, q: Pos, d: Dir, p: Player, n: int)
    requires OnBoard(q) && IsDir(d) && Brackets(b, q, d, p, n)
    ensures Captures(b, q, d, p) && n == Run(b, q, d, Opp(p), 1)
  {
    RunCount(b, q, d, Opp(p), 1, n);
  }

  lemma CapturesBrackets(b: Board, q: Pos, d: Dir, p: Player)
    requires OnBoard(q) && IsDir(d) && Captures(b, q, d, p)
    ensures Brackets(b, q, d, p, Run(b, q, d, Opp(p), 1))
  {
    RunFacts(b, q, d, Opp(p), 1);
  }

  /** A run of `c` covering distances `n` to `m` and ended at `m + 1` has length `m - n + 1`. */
  lemma {:induction false} RunCount(b: Board, q: Pos, d: Dir, c: Square, n: int, m: int)
    requires OnBoard(q) && IsDir(d) && 1 <= n <= m + 1
    requires forall i :: n <= i <= m ==> OnBoard(Step(q, d, i)) && At(b, Step(q, d, i)) == c
    requires !OnBoard(Step(q, d, m + 1)) || At(b, Step(q, d, m + 1)) != c
    ensures Run(b, q, d, c, n) == m - n + 1
    decreases m + 1 - n
  {
    if n <= m {
      RunCount(b, q, d, c, n + 1, m);
    }
  }

  /** Some direction from index `i` on captures. */
  predicate AnyCapture(b: Board, q: Pos, p: Player, i: int)
    requires OnBoard(q) && 0 <= i <= 8
    decreases 8 - i, q  // `q` only blocks literal unrolling, as in `Run`
  {
    i < 8 && (Captures(b, q, DirAt(i), p) || AnyCapture(b, q, p, i + 1))
  }

  lemma {:induction false} AnyCaptureIff(b: Board, q: Pos, p: Player, i: int)
    requires OnBoard(q) && 0 <= i <= 8
    ensures AnyCapture(b, q, p, i) <==> exists j :: i <= j < 8 && Captures(b, q, DirAt(j), p)
    decreases 8 - i
  {
    if i < 8 {
      AnyCaptureIff(b, q, p, i + 1);
      if Captures(b, q, DirAt(i), p) {
        assert AnyCapture(b, q, p, i);
      } else {
        assert AnyCapture(b, q, p, i) == AnyCapture(b, q, p, i + 1);
        assert (exists j :: i <= j < 8 && Captures(b, q, DirAt(j), p)) ==
               (exists j :: i + 1 <= j < 8 && Captures(b, q, DirAt(j), p));
      }
    }
  }

  /** Some direction captures exactly when some direction brackets. */
  lemma AnyCaptureBrackets(b: Board, q: Pos, p: Player)
    requires OnBoard(q)
    ensures AnyCapture(b, q, p, 0) <==> exists i, n :: 0 <= i < 8 && Brackets(b, q, DirAt(i), p, n)
  {
    AnyCaptureIff(b, q, p, 0);
    if AnyCapture(b, q, p, 0) {
      var i :| 0 <= i < 8 && Captures(b, q, DirAt(i), p);
      CapturesIff(b, q, DirAt(i), p, Run(b, q, DirAt(i), Opp(p), 1));
    } else {
      forall i, n | 0 <= i < 8
        ensures !Brackets(b, q, DirAt(i), p, n)
      {
        CapturesIff(b, q, DirAt(i), p, n);
      }
    }
  }

  /** `is_valid`: the square is empty and some direction has a run of one
      or more opponent discs, all on the board, ended by a disc of `p`. */
  predicate IsValid(b: Board, p: Player, q: Pos)
    requires OnBoard(q)
  {
    At(b, q) == 0 && AnyCapture(b, q, p, 0)
  }

  /** The scan of `is_valid` agrees with the declarative rule: an empty square
      with some direction bracketing a run of opponent discs. */
  lemma ValidIffBrackets(b: Board, p: Player, q: Pos)
    requires OnBoard(q)
    ensures IsValid(b, p, q) <==> At(b, q) == 0 && exists i, n :: 0 <= i < 8 && Brackets(b, q, DirAt(i), p, n)
  {
    AnyCaptureBrackets(b, q, p);
  }

  /** Scan position of a square: `get_moves` walks `y` in the outer loop and `x` in the inner one. */
  function Key(q: Pos): int {
    q.1 * 8 + q.0
  }

  lemma KeyInverse(q: Pos)
    requires OnBoard(q)
    ensures 0 <= Key(q) < 64 && q == (Key(q) % 8, Key(q) / 8)
  {
  }

  /** The valid squares whose scan position is `k` or later, in scan order. */
  function MovesFrom(b: Board, p: Player, k: int): (r: seq<Pos>)
    requires 0 <= k <= 64
    ensures forall i :: 0 <= i < |r| ==> OnBoard(r[i]) && k <= Key(r[i]) && IsValid(b, p, r[i])
    ensures forall i, j :: 0 <= i < j < |r| ==> Key(r[i]) < Key(r[j])
    ensures forall q :: OnBoard(q) && k <= Key(q) && IsValid(b, p, q) ==> q in r
    decreases 64 - k, b  // `b` only blocks literal unrolling, as in `Run`
  {
    if k == 64 then []
    else
      var q := (k % 8, k / 8);
      var rest := MovesFrom(b, p, k + 1);
      ScanStep(b, p, k, rest);
      if IsValid(b, p, q) then [q] + rest else rest
  }

  /** One step of the scan: square `k` goes in front of the list for `k + 1` when it is valid. */
  lemma ScanStep(b: Board, p: Player, k: int, rest: seq<Pos>)
    requires 0 <= k < 64
    requires forall i :: 0 <= i < |rest| ==> OnBoard(rest[i]) && k + 1 <= Key(rest[i]) && IsValid(b, p, rest[i])
    requires forall i, j :: 0 <= i < j < |rest| ==> Key(rest[i]) < Key(rest[j])
    requires forall q :: OnBoard(q) && k + 1 <= Key(q) && IsValid(b, p, q) ==> q in rest
    ensures var q := (k % 8, k / 8);
      var r := if IsValid(b, p, q) then [q] + rest else rest;
      && (forall i :: 0 <= i < |r| ==> OnBoard(r[i]) && k <= Key(r[i]) && IsValid(b, p, r[i]))
      && (forall i, j :: 0 <= i < j < |r| ==> Key(r[i]) < Key(r[j]))
      && (forall c :: OnBoard(c) && k <= Key(c) && IsValid(b, p, c) ==> c in r)
  {
    var q := (k % 8, k / 8);
    ScanKeys(k);
    if IsValid(b, p, q) {
      ScanCons(b, p, k, q, rest);
    }
  }

  /** Every square at scan position `k` or later is square `k` or comes after it. */
  lemma ScanKeys(k: int)
    requires 0 <= k < 64
    ensures OnBoard((k % 8, k / 8)) && Key((k % 8, k / 8)) == k
    ensures forall c :: OnBoard(c) && k <= Key(c) && c != (k % 8, k / 8) ==> k + 1 <= Key(c)
  {
    forall c | OnBoard(c) && k <= Key(c) && c != (k % 8, k / 8) ensures k + 1 <= Key(c) { KeyInverse(c); }
  }

  lemma ScanCons(b: Board, p: Player, k: int, q: Pos, rest: seq<Pos>)
    requires OnBoard(q) && Key(q) == k && IsValid(b, p, q)
    requires forall i :: 0 <= i < |rest| ==> OnBoard(rest[i]) && k + 1 <= Key(rest[i]) && IsValid(b, p, rest[i])
    requires forall i, j :: 0 <= i < j < |rest| ==> Key(rest[i]) < Key(rest[j])
    ensures var r := [q] + rest;
      && (forall i :: 0 <= i < |r| ==> OnBoard(r[i]) && k <= Key(r[i]) && IsValid(b, p, r[i]))
      && (forall i, j :: 0 <= i < j < |r| ==> Key(r[i]) < Key(r[j]))
  {
    var r := [q] + rest;
    assert forall i :: 0 < i < |r| ==> r[i] == rest[i - 1];
  }

  /** Every valid square of `p`, each exactly once, ordered by `y` then `x`. */
  function LegalMoves(b: Board, p: Player): (r: seq<Pos>)
    ensures forall q :: q in r <==> OnBoard(q) && IsValid(b, p, q)
    ensures forall i, j :: 0 <= i < j < |r| ==> r[i].1 < r[j].1 || (r[i].1 == r[j].1 && r[i].0 < r[j].0)
  {
    var r := MovesFrom(b, p, 0);
    assert forall i, j :: 0 <= i < j < |r| ==> Key(r[i]) < Key(r[j]);
    r
  }

  /** `get_moves`: None when the side to move has no valid square;
      otherwise the moves, and the mover's pass flag is cleared. */
  function GetMoves(s: State): (r: (Option<seq<Pos>>, State))
    ensures r.0.None? <==> forall q :: OnBoard(q) ==> !IsValid(s.board, s.turn, q)
    ensures r.0.Some? ==> r.0.value == LegalMoves(s.board, s.turn) && |r.0.value| > 0
    ensures r.0.None? ==> r.1 == s
    ensures r.1.board == s.board && r.1.turn == s.turn
    ensures r.0.Some? && s.turn == Black ==> !r.1.blackPass && r.1.whitePass == s.whitePass
    ensures r.0.Some? && s.turn == White ==> !r.1.whitePass && r.1.blackPass == s.blackPass
  {
    var moves := LegalMoves(s.board, s.turn);
    if |moves| == 0 then
      (None, s)
    else
      assert moves[0] in moves;
      if s.turn == Black then (Some(moves), s.(blackPass := false))
      else (Some(moves), s.(whitePass := false))
  }

  /** Flips every occupied square `n..k` steps from `q` along `d`. */
  function FlipRun(b: Board, q: Pos, d: Dir, p: Player, n: int, k: int): (r: Board)
    requires OnBoard(q) && IsDir(d) && n >= 1
    requires n <= k ==> OnBoard(Step(q, d, n)) && OnBoard(Step(q, d, k))
    decreases k + 1 - n
  {
    if n > k then b
    else
      StepBetween(q, d, n, n + 1, k);
      FlipRun(FlipPiece(b, Step(q, d, n), p), q, d, p, n + 1, k)
  }

  /** One ray of `make_move`: the opponent run is flipped when it is closed by a disc of `p`. */
  function FlipDir(b: Board, q: Pos, d: Dir, p: Player): Board
    requires OnBoard(q) && IsDir(d)
  {
    if Captures(b, q, d, p) then FlipRun(b, q, d, p, 1, Run(b, q, d, Opp(p), 1)) else b
  }

  /** The rays of `make_move` for directions `i..7`. */
  function FlipAll(b: Board, q: Pos, p: Player, i: int): Board
    requires OnBoard(q) && 0 <= i <= 8
    decreases 8 - i, q  // `q` only blocks literal unrolling, as in `Run`
  {
    if i == 8 then b else FlipAll(FlipDir(b, q, DirAt(i), p), q, p, i + 1)
  }

  /** `make_move`. A pass (None) hands the turn over and sets the pass flag
      of the side that is now to move; a placement puts a disc of the mover
      on `q`, flips every bracketed opponent run and hands the turn over.
      No legality check is made. */
  function MakeMove(s: State, m: Option<Pos>): (r: State)
    requires m.Some? ==> OnBoard(m.value)
    ensures r.turn == Opp(s.turn)
    ensures m.None? ==> r.board == s.board
    ensures m.None? && r.turn == Black ==> r.blackPass && r.whitePass == s.whitePass
    ensures m.None? && r.turn == White ==> r.whitePass && r.blackPass == s.blackPass
    ensures m.Some? ==> r.blackPass == s.blackPass && r.whitePass == s.whitePass
  {
    match m
    case None =>
      var t := Opp(s.turn);
      if t == Black then State(s.board, t, true, s.whitePass)
      else State(s.board, t, s.blackPass, true)
    case Some(q) =>
      State(FlipAll(Put(s.board, q, s.turn), q, s.turn, 0), Opp(s.turn), s.blackPass, s.whitePass)
  }

  function CountRow(r: seq<Square>, v: Square): nat {
    if |r| == 0 then 0 else (if r[0] == v then 1 else 0) + CountRow(r[1..], v)
  }

  /** Number of squares holding `v` (`np.where(board == v)[0].size`). */
  function Count(b: seq<Row>, v: Square): nat {
    if |b| == 0 then 0 else CountRow(b[0], v) + Count(b[1..], v)
  }

  function NumBlack(b: Board): nat { Count(b, Black) }
  function NumWhite(b: Board): nat { Count(b, White) }

  /** `terminal`: both sides have passed, or no square is empty. */
  predicate Terminal(s: State) {
    (s.blackPass && s.whitePass) || Count(s.board, 0) == 0
  }

  /** `get_winner`: 0 unless terminal, otherwise the side with strictly more discs, 0 on a tie. */
  function Winner(s: State): (w: Square)
    ensures w != 0 ==> Terminal(s)
    ensures w == Black <==> Terminal(s) && NumBlack(s.board) > NumWhite(s.board)
    ensures w == White <==> Terminal(s) && NumWhite(s.board) > NumBlack(s.board)
  {
    if !Terminal(s) then 0
    else if NumBlack(s.board) > NumWhite(s.board) then Black
    else if NumWhite(s.board) > NumBlack(s.board) then White
    else 0
  }

  /** `__init__`: white on (3,3) and (4,4), black on (3,4) and (4,3), black to move, no passes. */
  function Initial(): (s: State)
    ensures forall c :: OnBoard(c) ==>
      At(s.board, c) == (if c == (3, 3) || c == (4, 4) then White
                         else if c == (3, 4) || c == (4, 3) then Black
                         else 0)
    ensures s.turn == Black && !s.blackPass && !s.whitePass
  {
    var b := Put(Put(Put(Put(EmptyBoard, (3, 3), White), (4, 4), White), (3, 4), Black), (4, 3), Black);
    State(b, Black, false, false)
  }
}
