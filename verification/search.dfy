/** The depth-limited alpha-beta search of the computer player, and the
    plain minimax value it is proved to compute. */
module Search {
  import opened Othello
  import opened OthelloFacts
  import opened Evaluation

  // ---------------------------------------------------------------------
  // Extended reals: the search values are floats that may be +inf or -inf

  datatype EReal = NegInf | Fin(r: real) | PosInf

  predicate Le(x: EReal, y: EReal) {
    x.NegInf? || y.PosInf? || (x.Fin? && y.Fin? && x.r <= y.r)
  }

  predicate Lt(x: EReal, y: EReal) {
    Le(x, y) && x != y
  }

  function Max(x: EReal, y: EReal): (r: EReal)
    ensures Le(x, r) && Le(y, r) && (r == x || r == y)
  {
    if Le(x, y) then y else x
  }

  function Min(x: EReal, y: EReal): (r: EReal)
    ensures Le(r, x) && Le(r, y) && (r == x || r == y)
  {
    if Le(x, y) then x else y
  }

  lemma LeTotal(x: EReal, y: EReal)
    ensures Le(x, y) || Le(y, x)
  {
  }

  lemma LeLt(x: EReal, y: EReal, z: EReal)
    ensures Le(x, y) && Le(y, z) ==> Le(x, z)
    ensures Lt(x, y) && Le(y, z) ==> Lt(x, z)
    ensures Le(x, y) && Lt(y, z) ==> Lt(x, z)
  {
  }

  /** `x` forced into the window `[lo, hi]`. */
  function Clamp(lo: EReal, hi: EReal, x: EReal): EReal {
    Min(Max(x, lo), hi)
  }

  // ---------------------------------------------------------------------
  // The game tree

  /** What the search can see below a position: a value fixed without
      looking further (a decided game or the depth limit), a pass that hands
      the same position to the other side one level deeper, or the list of
      moves, each with the tree below the position it leads to. */
  datatype Tree =
    | Leaf(value: EReal)
    | Pass(next: Tree)
    | Branch(kids: seq<(Pos, Tree)>)

  /** The moves offered at the first node where a side can move, looking through passes. */
  function Moves(t: Tree): seq<Pos> {
    match t
    case Leaf(_) => []
    case Pass(n) => Moves(n)
    case Branch(ks) => seq(|ks|, k requires 0 <= k < |ks| => ks[k].0)
  }

  /** Every listed move is an empty square on the board. */
  predicate Playable(s: State, moves: seq<Pos>) {
    forall k :: 0 <= k < |moves| ==> OnBoard(moves[k]) && At(s.board, moves[k]) == 0
  }

  /** The position after playing `q` (the copy-then-`make_move` of the search loops). */
  function Child(s: State, q: Pos): (c: State)
    requires HasDisc(s.board) && OnBoard(q) && At(s.board, q) == 0
    ensures HasDisc(c.board)
  {
    PlayAddsDisc(s, q);
    MakeMove(s, Some(q))
  }

  lemma LegalPlayable(s: State)
    ensures Playable(s, LegalMoves(s.board, s.turn))
  {
    var ms := LegalMoves(s.board, s.turn);
    forall k | 0 <= k < |ms| ensures OnBoard(ms[k]) && At(s.board, ms[k]) == 0 {
      assert ms[k] in ms;
    }
  }

  /** The tree the search of `p` explores from `s` at `depth`. Values are
      from `p`'s point of view at every level: a win for `p` is +inf, a
      loss -inf, and at the depth limit the position is evaluated for `p`.
      A side without moves passes, and the unchanged position is searched
      one level deeper; otherwise the moves are those `get_moves` lists, in
      its order, and each leads to the position `make_move` produces after
      `get_moves` has cleared the mover's pass flag. */
  function GameTree(p: Player, s: State, depth: int, maxDepth: int): (t: Tree)
    requires HasDisc(s.board)
    ensures Winner(s) == p ==> t == Leaf(PosInf)
    ensures Winner(s) == Opp(p) ==> t == Leaf(NegInf)
    ensures Moves(t) == if Winner(s) == p || Winner(s) == Opp(p) || depth >= maxDepth then [] else LegalMoves(s.board, s.turn)
    ensures t.Branch? <==> Winner(s) != p && Winner(s) != Opp(p) && depth < maxDepth && |LegalMoves(s.board, s.turn)| > 0
    decreases maxDepth - depth, 3
  {
    var w := Winner(s);
    if w == p then Leaf(PosInf)
    else if w == Opp(p) then Leaf(NegInf)
    else if depth >= maxDepth then Leaf(Fin(Heuristic(p, s.board)))
    else Open(p, s, depth, maxDepth)
  }

  /** The tree below an undecided position above the depth limit. */
  function Open(p: Player, s: State, depth: int, maxDepth: int): (t: Tree)
    requires HasDisc(s.board) && depth < maxDepth && Winner(s) != p && Winner(s) != Opp(p)
    ensures Moves(t) == LegalMoves(s.board, s.turn)
    ensures t.Branch? <==> |LegalMoves(s.board, s.turn)| > 0
    decreases maxDepth - depth, 2
  {
    var (ms, s1) := GetMoves(s);
    if ms.None? then Passing(p, s, depth, maxDepth)
    else Moving(p, s, depth, maxDepth)
  }

  /** No move: the same position, one level deeper. */
  function Passing(p: Player, s: State, depth: int, maxDepth: int): (t: Tree)
    requires HasDisc(s.board) && depth < maxDepth && |LegalMoves(s.board, s.turn)| == 0
    ensures t.Pass? && Moves(t) == []
    decreases maxDepth - depth, 1
  {
    Pass(GameTree(p, s, depth + 1, maxDepth))
  }

  /** The moves `get_moves` lists, each with the tree below it. */
  function Moving(p: Player, s: State, depth: int, maxDepth: int): (t: Tree)
    requires HasDisc(s.board) && depth < maxDepth && |LegalMoves(s.board, s.turn)| > 0
    ensures t.Branch? && Moves(t) == LegalMoves(s.board, s.turn)
    decreases maxDepth - depth, 1
  {
    var r := GetMoves(s);
    var moves := LegalMoves(s.board, s.turn);
    GetMovesSome(s);
    LegalPlayable(s);
    var ks := Subtrees(p, r.1, moves, depth, maxDepth);
    MovesOfBranch(ks, moves);
    Branch(ks)
  }

  /** One level of the tree, in terms of the rules engine: at the depth
      limit of an undecided game the position is evaluated for `p`; a pass
      node is left when `get_moves` finds nothing, and below it lies the
      tree of the same position one level deeper; a move node lists the
      moves `get_moves` returns, each an empty square, and below each lies
      the tree of the position `make_move` produces from the position
      `get_moves` left behind. */
  lemma GameTreeShape(p: Player, s: State, depth: int, maxDepth: int)
    requires HasDisc(s.board)
    ensures var t := GameTree(p, s, depth, maxDepth);
      && (Winner(s) != p && Winner(s) != Opp(p) && depth >= maxDepth ==> t == Leaf(Fin(Heuristic(p, s.board))))
      && (t.Pass? ==> GetMoves(s).0.None? && t.next == GameTree(p, s, depth + 1, maxDepth))
      && (t.Branch? ==> GetMoves(s).0 == Some(Moves(t)) && |t.kids| > 0)
      && (t.Branch? ==> forall k :: 0 <= k < |t.kids| ==>
            && OnBoard(t.kids[k].0) && At(s.board, t.kids[k].0) == 0
            && t.kids[k].1 == GameTree(p, Child(GetMoves(s).1, t.kids[k].0), depth + 1, maxDepth))
  {
    var t := GameTree(p, s, depth, maxDepth);
    if Winner(s) != p && Winner(s) != Opp(p) && depth < maxDepth {
      assert t == Open(p, s, depth, maxDepth);
      if |LegalMoves(s.board, s.turn)| == 0 {
        assert t == Passing(p, s, depth, maxDepth);
      } else {
        assert t == Moving(p, s, depth, maxDepth);
        MovingKids(p, s, depth, maxDepth);
      }
    }
  }

  /** The children of a move node, as `get_moves` and `make_move` produce them. */
  lemma MovingKids(p: Player, s: State, depth: int, maxDepth: int)
    requires HasDisc(s.board) && depth < maxDepth && |LegalMoves(s.board, s.turn)| > 0
    ensures var t := Moving(p, s, depth, maxDepth);
      && GetMoves(s).0 == Some(Moves(t)) && |t.kids| > 0
      && forall k :: 0 <= k < |t.kids| ==>
            && OnBoard(t.kids[k].0) && At(s.board, t.kids[k].0) == 0
            && t.kids[k].1 == GameTree(p, Child(GetMoves(s).1, t.kids[k].0), depth + 1, maxDepth)
  {
    var t := Moving(p, s, depth, maxDepth);
    GetMovesSome(s);
    LegalPlayable(s);
    var moves := LegalMoves(s.board, s.turn);
    var ks := Subtrees(p, GetMoves(s).1, moves, depth, maxDepth);
    assert t.kids == ks;
    forall k | 0 <= k < |t.kids|
      ensures OnBoard(t.kids[k].0) && At(s.board, t.kids[k].0) == 0
      ensures t.kids[k].1 == GameTree(p, Child(GetMoves(s).1, t.kids[k].0), depth + 1, maxDepth)
    {
      assert t.kids[k] == (moves[k], GameTree(p, Child(GetMoves(s).1, moves[k]), depth + 1, maxDepth));
    }
  }

  lemma GetMovesSome(s: State)
    requires |LegalMoves(s.board, s.turn)| > 0
    ensures GetMoves(s).0 == Some(LegalMoves(s.board, s.turn))
  {
    var ms := LegalMoves(s.board, s.turn);
    assert ms[0] in ms;
  }

  lemma MovesOfBranch(ks: seq<(Pos, Tree)>, moves: seq<Pos>)
    requires |ks| == |moves| && forall k :: 0 <= k < |ks| ==> ks[k].0 == moves[k]
    ensures Moves(Branch(ks)) == moves
  {
  }

  /** Each of `moves` paired with the tree below the position it leads to. */
  function Subtrees(p: Player, s: State, moves: seq<Pos>, depth: int, maxDepth: int): (ks: seq<(Pos, Tree)>)
    requires HasDisc(s.board) && depth < maxDepth && Playable(s, moves)
    ensures |ks| == |moves| && forall k :: 0 <= k < |ks| ==> ks[k].0 == moves[k]
    decreases maxDepth - depth, 0
  {
    seq(|moves|, k requires 0 <= k < |moves| => (moves[k], GameTree(p, Child(s, moves[k]), depth + 1, maxDepth)))
  }

  // ---------------------------------------------------------------------
  // Search

  /** A search result: the value and the move that reached it (None at a leaf or a pass). */
  datatype Outcome = Outcome(value: EReal, move: Option<Pos>)

  /** What a move loop produced: its value and move, and for each child it
      explored, in order, the window bound the child was searched with
      (`alpha` in a maximising loop, `beta` in a minimising one) and the
      value the child returned. */
  datatype Scan = Scan(value: EReal, move: Option<Pos>, bounds: seq<EReal>, seen: seq<EReal>)

  /** `j` is the last position of a largest value in `vs`. */
  predicate LastLargest(vs: seq<EReal>, j: int) {
    && 0 <= j < |vs|
    && (forall k :: 0 <= k < j ==> Le(vs[k], vs[j]))
    && (forall k :: j < k < |vs| ==> Lt(vs[k], vs[j]))
  }

  /** `j` is the first position of a smallest value in `vs`. */
  predicate FirstSmallest(vs: seq<EReal>, j: int) {
    && 0 <= j < |vs|
    && (forall k :: 0 <= k < j ==> Lt(vs[j], vs[k]))
    && (forall k :: j < k < |vs| ==> Le(vs[j], vs[k]))
  }

  /** `MaxValue`: the node where the searching side chooses. Without moves
      the same position goes to a minimising node, whose result is returned
      as it is. With moves, the result is the value of the last explored
      child whose value is the largest, and that child's move. */
  function MaxValue(t: Tree, alpha: EReal, beta: EReal): (o: Outcome)
    ensures o.move.Some? ==> o.move.value in Moves(t)
    ensures t.Branch? && |t.kids| > 0 ==> o.move.Some?
    decreases t, 1, 0
  {
    match t
    case Leaf(v) => Outcome(v, None)
    case Pass(n) => MinValue(n, alpha, beta)
    case Branch(_) =>
      var sc := MaxLoop(t, 0, alpha, beta, NegInf, None);
      Outcome(sc.value, sc.move)
  }

  /** The move loop of `MaxValue` from move `i` on, with the running value,
      best move and lower bound: a child at least as good as the best so
      far replaces it (later moves win ties) and raises `alpha`, and the
      loop stops as soon as the value reaches `beta`. */
  function MaxLoop(t: Tree, i: nat, alpha: EReal, beta: EReal, value: EReal, best: Option<Pos>): (sc: Scan)
    requires t.Branch? && i <= |t.kids|
    ensures Le(value, sc.value)
    ensures sc.move.Some? ==> sc.move == best || sc.move.value in Moves(t)
    ensures best.Some? || (i < |t.kids| && value == NegInf) ==> sc.move.Some?
    ensures |sc.seen| == |sc.bounds| <= |t.kids| - i
    ensures i < |t.kids| ==> 0 < |sc.seen|
    ensures |sc.seen| < |t.kids| - i ==> Le(beta, sc.value)
    ensures 0 < |sc.bounds| ==> sc.bounds[0] == alpha
    ensures forall k :: 0 <= k < |sc.bounds| ==> Le(alpha, sc.bounds[k])
    ensures forall k :: 0 < k < |sc.bounds| ==> Le(sc.bounds[k - 1], sc.bounds[k])
    ensures MaxPicked(t, i, value, best, sc)
    decreases t, 0, |t.kids| - i
  {
    if i == |t.kids| then Scan(value, best, [], [])
    else
      assert t.kids[i] in t.kids;
      var v := MinValue(t.kids[i].1, alpha, beta).value;
      var up := Le(value, v);
      var value' := if up then v else value;
      var best' := if up then Some(t.kids[i].0) else best;
      var alpha' := if up then Max(alpha, value') else alpha;
      assert Moves(t)[i] == t.kids[i].0;
      if Le(beta, value') then
        MaxPickedLast(t, i, value, best, v, alpha);
        Scan(value', best', [alpha], [v])
      else
        var r := MaxLoop(t, i + 1, alpha', beta, value', best');
        MaxPickedStep(t, i, value, best, v, alpha, r);
        Scan(r.value, r.move, [alpha] + r.bounds, [v] + r.seen)
  }

  /** `MinValue`: the node where the opponent chooses; values stay those of
      the searching side. With moves, the result is the value of the first
      explored child whose value is the smallest, and that child's move, or
      no move and +inf when every explored child is worth +inf. */
  function MinValue(t: Tree, alpha: EReal, beta: EReal): (o: Outcome)
    ensures o.move.Some? ==> o.move.value in Moves(t)
    ensures t.Branch? && |t.kids| > 0 ==> (o.move.None? <==> o.value == PosInf)
    decreases t, 1, 0
  {
    match t
    case Leaf(v) => Outcome(v, None)
    case Pass(n) => MaxValue(n, alpha, beta)
    case Branch(_) =>
      var sc := MinLoop(t, 0, alpha, beta, PosInf, None);
      MinChoice(t, sc);
      Outcome(sc.value, sc.move)
  }

  /** The move loop of `MinValue`: only a strictly smaller child replaces
      the best so far (earlier moves win ties) and lowers `beta`, and the
      loop stops as soon as the value drops to `alpha`. */
  function MinLoop(t: Tree, i: nat, alpha: EReal, beta: EReal, value: EReal, best: Option<Pos>): (sc: Scan)
    requires t.Branch? && i <= |t.kids|
    ensures Le(sc.value, value)
    ensures sc.move.Some? ==> sc.move == best || sc.move.value in Moves(t)
    ensures sc.move.None? ==> best.None? && sc.value == value
    ensures |sc.seen| == |sc.bounds| <= |t.kids| - i
    ensures i < |t.kids| ==> 0 < |sc.seen|
    ensures |sc.seen| < |t.kids| - i ==> Le(sc.value, alpha)
    ensures 0 < |sc.bounds| ==> sc.bounds[0] == beta
    ensures forall k :: 0 <= k < |sc.bounds| ==> Le(sc.bounds[k], beta)
    ensures forall k :: 0 < k < |sc.bounds| ==> Le(sc.bounds[k], sc.bounds[k - 1])
    ensures MinPicked(t, i, value, best, sc)
    decreases t, 0, |t.kids| - i
  {
    if i == |t.kids| then Scan(value, best, [], [])
    else
      assert t.kids[i] in t.kids;
      var v := MaxValue(t.kids[i].1, alpha, beta).value;
      var up := Lt(v, value);
      var value' := if up then v else value;
      var best' := if up then Some(t.kids[i].0) else best;
      var beta' := if up then Min(beta, value') else beta;
      assert Moves(t)[i] == t.kids[i].0;
      if Le(value', alpha) then
        MinPickedLast(t, i, value, best, v, beta);
        Scan(value', best', [beta], [v])
      else
        var r := MinLoop(t, i + 1, alpha, beta', value', best');
        MinPickedStep(t, i, value, best, v, beta, r);
        Scan(r.value, r.move, [beta] + r.bounds, [v] + r.seen)
  }

  /** The move a maximising loop from move `i` returns, entered with `value`
      and `best`: `best` with `value` when no explored child reaches `value`,
      otherwise the last explored child of largest value, with that value. */
  predicate MaxPicked(t: Tree, i: nat, value: EReal, best: Option<Pos>, sc: Scan)
    requires t.Branch?
  {
    || (sc.move == best && sc.value == value && forall k :: 0 <= k < |sc.seen| ==> Lt(sc.seen[k], value))
    || (exists j :: 0 <= j < |sc.seen| && LastLargest(sc.seen, j) && Le(value, sc.seen[j]) && sc.value == sc.seen[j]
          && i + j < |t.kids| && sc.move == Some(t.kids[i + j].0))
  }

  /** The move a minimising loop returns: `best` with `value` when no
      explored child is below `value`, otherwise the first explored child of
      smallest value, with that value. */
  predicate MinPicked(t: Tree, i: nat, value: EReal, best: Option<Pos>, sc: Scan)
    requires t.Branch?
  {
    || (sc.move == best && sc.value == value && forall k :: 0 <= k < |sc.seen| ==> Le(value, sc.seen[k]))
    || (exists j :: 0 <= j < |sc.seen| && FirstSmallest(sc.seen, j) && Lt(sc.seen[j], value) && sc.value == sc.seen[j]
          && i + j < |t.kids| && sc.move == Some(t.kids[i + j].0))
  }

  /** With moves, `MaxValue` returns the value of the last explored child
      whose value is the largest, and that child's move. */
  lemma MaxValueChoice(t: Tree, alpha: EReal, beta: EReal)
    requires t.Branch? && |t.kids| > 0
    ensures var o := MaxValue(t, alpha, beta);
      var sc := MaxLoop(t, 0, alpha, beta, NegInf, None);
      && o == Outcome(sc.value, sc.move)
      && exists j :: LastLargest(sc.seen, j) && o.value == sc.seen[j] && o.move == Some(t.kids[j].0)
  {
    var sc := MaxLoop(t, 0, alpha, beta, NegInf, None);
    assert sc.move.Some?;
    var j :| 0 <= j < |sc.seen| && LastLargest(sc.seen, j) && Le(NegInf, sc.seen[j]) && sc.value == sc.seen[j]
      && j < |t.kids| && sc.move == Some(t.kids[j].0);
  }

  /** With moves, `MinValue` returns the value of the first explored child
      whose value is the smallest, and that child's move; or +inf and no
      move exactly when every explored child is worth +inf. */
  lemma MinValueChoice(t: Tree, alpha: EReal, beta: EReal)
    requires t.Branch? && |t.kids| > 0
    ensures var o := MinValue(t, alpha, beta);
      var sc := MinLoop(t, 0, alpha, beta, PosInf, None);
      && o == Outcome(sc.value, sc.move)
      && (o.move.None? <==> forall k :: 0 <= k < |sc.seen| ==> sc.seen[k] == PosInf)
      && (o.move.Some? ==> exists j :: FirstSmallest(sc.seen, j) && o.value == sc.seen[j] && o.move == Some(t.kids[j].0))
  {
    MinChoice(t, MinLoop(t, 0, alpha, beta, PosInf, None));
  }

  /** Before the last of the values `seen`, the running value `value` and
      every value seen stayed below `beta`: a maximising loop moves past a
      child only then. */
  predicate BelowBeta(value: EReal, beta: EReal, seen: seq<EReal>) {
    forall k :: 0 <= k < |seen| - 1 ==> Lt(value, beta) && Lt(seen[k], beta)
  }

  /** Before the last of the values `seen`, the running value and every
      value seen stayed above `alpha`: a minimising loop moves past a child
      only then. */
  predicate AboveAlpha(alpha: EReal, value: EReal, seen: seq<EReal>) {
    forall k :: 0 <= k < |seen| - 1 ==> Lt(alpha, value) && Lt(alpha, seen[k])
  }

  /** The maximising loop stops at the first child that brings its value
      to `beta`: every child before the last one it explores, and the value
      it was entered with, are below `beta`. */
  lemma {:induction false} MaxLoopStops(t: Tree, i: nat, alpha: EReal, beta: EReal, value: EReal, best: Option<Pos>)
    requires t.Branch? && i <= |t.kids|
    ensures BelowBeta(value, beta, MaxLoop(t, i, alpha, beta, value, best).seen)
    decreases |t.kids| - i
  {
    if i < |t.kids| {
      var v := MinValue(t.kids[i].1, alpha, beta).value;
      var up := Le(value, v);
      var value' := if up then v else value;
      var best' := if up then Some(t.kids[i].0) else best;
      var alpha' := if up then Max(alpha, value') else alpha;
      if Le(beta, value') {
        assert MaxLoop(t, i, alpha, beta, value, best).seen == [v];
      } else {
        MaxLoopStops(t, i + 1, alpha', beta, value', best');
        var r := MaxLoop(t, i + 1, alpha', beta, value', best');
        MaxGoesOn(value, v, beta, r.seen);
        assert MaxLoop(t, i, alpha, beta, value, best).seen == [v] + r.seen;
      }
    }
  }

  /** The minimising loop stops at the first child that brings its value
      down to `alpha`: every child before the last one it explores, and the
      value it was entered with, are above `alpha`. */
  lemma {:induction false} MinLoopStops(t: Tree, i: nat, alpha: EReal, beta: EReal, value: EReal, best: Option<Pos>)
    requires t.Branch? && i <= |t.kids|
    ensures AboveAlpha(alpha, value, MinLoop(t, i, alpha, beta, value, best).seen)
    decreases |t.kids| - i
  {
    if i < |t.kids| {
      var v := MaxValue(t.kids[i].1, alpha, beta).value;
      var up := Lt(v, value);
      var value' := if up then v else value;
      var best' := if up then Some(t.kids[i].0) else best;
      var beta' := if up then Min(beta, value') else beta;
      if Le(value', alpha) {
        assert MinLoop(t, i, alpha, beta, value, best).seen == [v];
      } else {
        MinLoopStops(t, i + 1, alpha, beta', value', best');
        var r := MinLoop(t, i + 1, alpha, beta', value', best');
        MinGoesOn(value, v, alpha, r.seen);
        assert MinLoop(t, i, alpha, beta, value, best).seen == [v] + r.seen;
      }
    }
  }

  /** One step of `MaxLoopStops`: moving past child `v` needs the new value below `beta`. */
  lemma MaxGoesOn(value: EReal, v: EReal, beta: EReal, rest: seq<EReal>)
    requires var value' := if Le(value, v) then v else value;
      !Le(beta, value') && BelowBeta(value', beta, rest)
    ensures BelowBeta(value, beta, [v] + rest)
  {
    var value' := if Le(value, v) then v else value;
    LeTotal(value, v);
    LeTotal(beta, value');
    LeLt(value, value', beta);
    LeLt(v, value', beta);
    forall k | 0 <= k < |[v] + rest| - 1 ensures Lt(value, beta) && Lt(([v] + rest)[k], beta) {
      if k > 0 {
        assert ([v] + rest)[k] == rest[k - 1];
      }
    }
  }

  /** One step of `MinLoopStops`: moving past child `v` needs the new value above `alpha`. */
  lemma MinGoesOn(value: EReal, v: EReal, alpha: EReal, rest: seq<EReal>)
    requires var value' := if Lt(v, value) then v else value;
      !Le(value', alpha) && AboveAlpha(alpha, value', rest)
    ensures AboveAlpha(alpha, value, [v] + rest)
  {
    var value' := if Lt(v, value) then v else value;
    LeTotal(value, v);
    LeTotal(value', alpha);
    LeLt(alpha, value', value);
    LeLt(alpha, value', v);
    forall k | 0 <= k < |[v] + rest| - 1 ensures Lt(alpha, value) && Lt(alpha, ([v] + rest)[k]) {
      if k > 0 {
        assert ([v] + rest)[k] == rest[k - 1];
      }
    }
  }

  lemma MaxPickedLast(t: Tree, i: nat, value: EReal, best: Option<Pos>, v: EReal, bound: EReal)
    requires t.Branch? && i < |t.kids|
    ensures var up := Le(value, v);
      MaxPicked(t, i, value, best, Scan(if up then v else value, if up then Some(t.kids[i].0) else best, [bound], [v]))
  {
    if Le(value, v) {
      assert LastLargest([v], 0);
    } else {
      LeTotal(value, v);
    }
  }

  /** Putting a value in front keeps the last largest, shifted, when the new value is not above it. */
  lemma LargestShift(v: EReal, vs: seq<EReal>, j: int)
    requires LastLargest(vs, j) && Le(v, vs[j])
    ensures LastLargest([v] + vs, j + 1)
  {
  }

  /** A value in front of smaller ones is the last largest. */
  lemma LargestHead(v: EReal, vs: seq<EReal>)
    requires forall k :: 0 <= k < |vs| ==> Lt(vs[k], v)
    ensures LastLargest([v] + vs, 0)
  {
  }

  lemma SmallestShift(v: EReal, vs: seq<EReal>, j: int)
    requires FirstSmallest(vs, j) && Lt(vs[j], v)
    ensures FirstSmallest([v] + vs, j + 1)
  {
  }

  lemma SmallestHead(v: EReal, vs: seq<EReal>)
    requires forall k :: 0 <= k < |vs| ==> Le(v, vs[k])
    ensures FirstSmallest([v] + vs, 0)
  {
  }

  lemma MaxPickedStep(t: Tree, i: nat, value: EReal, best: Option<Pos>, v: EReal, bound: EReal, r: Scan)
    requires t.Branch? && i < |t.kids|
    requires var up := Le(value, v); MaxPicked(t, i + 1, if up then v else value, if up then Some(t.kids[i].0) else best, r)
    ensures MaxPicked(t, i, value, best, Scan(r.value, r.move, [bound] + r.bounds, [v] + r.seen))
  {
    var up := Le(value, v);
    var value' := if up then v else value;
    var best' := if up then Some(t.kids[i].0) else best;
    if r.move == best' && r.value == value' && forall k :: 0 <= k < |r.seen| ==> Lt(r.seen[k], value') {
      MaxStepKept(t, i, value, best, v, bound, r);
    } else {
      var j :| 0 <= j < |r.seen| && LastLargest(r.seen, j) && Le(value', r.seen[j]) && r.value == r.seen[j]
        && i + 1 + j < |t.kids| && r.move == Some(t.kids[i + 1 + j].0);
      MaxStepLater(t, i, value, v, bound, r, j);
    }
  }

  /** The rest of the loop kept what it was entered with. */
  lemma MaxStepKept(t: Tree, i: nat, value: EReal, best: Option<Pos>, v: EReal, bound: EReal, r: Scan)
    requires t.Branch? && i < |t.kids|
    requires var up := Le(value, v); var value' := if up then v else value;
      && r.move == (if up then Some(t.kids[i].0) else best) && r.value == value'
      && forall k :: 0 <= k < |r.seen| ==> Lt(r.seen[k], value')
    ensures MaxPicked(t, i, value, best, Scan(r.value, r.move, [bound] + r.bounds, [v] + r.seen))
  {
    var vs := [v] + r.seen;
    if Le(value, v) {
      LargestHead(v, r.seen);
      assert Le(value, vs[0]) && r.value == vs[0] && r.move == Some(t.kids[i + 0].0);
    } else {
      LeTotal(value, v);
      assert forall k :: 0 <= k < |vs| ==> Lt(vs[k], value);
    }
  }

  /** The rest of the loop picked its `j`-th child. */
  lemma MaxStepLater(t: Tree, i: nat, value: EReal, v: EReal, bound: EReal, r: Scan, j: nat)
    requires t.Branch? && i < |t.kids|
    requires var value' := if Le(value, v) then v else value;
      && j < |r.seen| && LastLargest(r.seen, j) && Le(value', r.seen[j]) && r.value == r.seen[j]
      && i + 1 + j < |t.kids| && r.move == Some(t.kids[i + 1 + j].0)
    ensures var sc := Scan(r.value, r.move, [bound] + r.bounds, [v] + r.seen);
      && LastLargest(sc.seen, j + 1) && Le(value, sc.seen[j + 1]) && sc.value == sc.seen[j + 1]
      && i + (j + 1) < |t.kids| && sc.move == Some(t.kids[i + (j + 1)].0)
  {
    var value' := if Le(value, v) then v else value;
    LeTotal(value, v);
    LeLt(v, value', r.seen[j]);
    LeLt(value, value', r.seen[j]);
    LargestShift(v, r.seen, j);
  }

  /** What a minimising loop entered with +inf and no move reports. */
  lemma MinChoice(t: Tree, sc: Scan)
    requires t.Branch? && MinPicked(t, 0, PosInf, None, sc)
    ensures sc.move.None? <==> sc.value == PosInf
    ensures sc.move.None? <==> forall k :: 0 <= k < |sc.seen| ==> sc.seen[k] == PosInf
    ensures sc.move.Some? ==> exists j :: FirstSmallest(sc.seen, j) && sc.value == sc.seen[j] && sc.move == Some(t.kids[j].0)
  {
    if sc.move.Some? {
      var j :| 0 <= j < |sc.seen| && FirstSmallest(sc.seen, j) && Lt(sc.seen[j], PosInf) && sc.value == sc.seen[j]
        && j < |t.kids| && sc.move == Some(t.kids[j].0);
      assert sc.seen[j] != PosInf;
    }
  }

  lemma MinPickedLast(t: Tree, i: nat, value: EReal, best: Option<Pos>, v: EReal, bound: EReal)
    requires t.Branch? && i < |t.kids|
    ensures var up := Lt(v, value);
      MinPicked(t, i, value, best, Scan(if up then v else value, if up then Some(t.kids[i].0) else best, [bound], [v]))
  {
    if Lt(v, value) {
      assert FirstSmallest([v], 0);
    } else {
      LeTotal(value, v);
    }
  }

  lemma MinPickedStep(t: Tree, i: nat, value: EReal, best: Option<Pos>, v: EReal, bound: EReal, r: Scan)
    requires t.Branch? && i < |t.kids|
    requires var up := Lt(v, value); MinPicked(t, i + 1, if up then v else value, if up then Some(t.kids[i].0) else best, r)
    ensures MinPicked(t, i, value, best, Scan(r.value, r.move, [bound] + r.bounds, [v] + r.seen))
  {
    var up := Lt(v, value);
    var value' := if up then v else value;
    var best' := if up then Some(t.kids[i].0) else best;
    if r.move == best' && r.value == value' && forall k :: 0 <= k < |r.seen| ==> Le(value', r.seen[k]) {
      MinStepKept(t, i, value, best, v, bound, r);
    } else {
      var j :| 0 <= j < |r.seen| && FirstSmallest(r.seen, j) && Lt(r.seen[j], value') && r.value == r.seen[j]
        && i + 1 + j < |t.kids| && r.move == Some(t.kids[i + 1 + j].0);
      MinStepLater(t, i, value, v, bound, r, j);
    }
  }

  /** The rest of the loop kept what it was entered with. */
  lemma MinStepKept(t: Tree, i: nat, value: EReal, best: Option<Pos>, v: EReal, bound: EReal, r: Scan)
    requires t.Branch? && i < |t.kids|
    requires var up := Lt(v, value); var value' := if up then v else value;
      && r.move == (if up then Some(t.kids[i].0) else best) && r.value == value'
      && forall k :: 0 <= k < |r.seen| ==> Le(value', r.seen[k])
    ensures MinPicked(t, i, value, best, Scan(r.value, r.move, [bound] + r.bounds, [v] + r.seen))
  {
    var vs := [v] + r.seen;
    if Lt(v, value) {
      SmallestHead(v, r.seen);
      assert Lt(vs[0], value) && r.value == vs[0] && r.move == Some(t.kids[i + 0].0);
    } else {
      LeTotal(value, v);
      assert forall k :: 0 <= k < |vs| ==> Le(value, vs[k]);
    }
  }

  /** The rest of the loop picked its `j`-th child. */
  lemma MinStepLater(t: Tree, i: nat, value: EReal, v: EReal, bound: EReal, r: Scan, j: nat)
    requires t.Branch? && i < |t.kids|
    requires var value' := if Lt(v, value) then v else value;
      && j < |r.seen| && FirstSmallest(r.seen, j) && Lt(r.seen[j], value') && r.value == r.seen[j]
      && i + 1 + j < |t.kids| && r.move == Some(t.kids[i + 1 + j].0)
    ensures var sc := Scan(r.value, r.move, [bound] + r.bounds, [v] + r.seen);
      && FirstSmallest(sc.seen, j + 1) && Lt(sc.seen[j + 1], value) && sc.value == sc.seen[j + 1]
      && i + (j + 1) < |t.kids| && sc.move == Some(t.kids[i + (j + 1)].0)
  {
    var value' := if Lt(v, value) then v else value;
    LeTotal(value, v);
    LeLt(r.seen[j], value', v);
    LeLt(r.seen[j], value', value);
    SmallestShift(v, r.seen, j);
  }

  /** Each value in `sc.seen` is what `MinValue` returns for the matching
      child from `i` on, searched with the recorded `alpha`. */
  ghost predicate MaxTrace(t: Tree, i: nat, beta: EReal, sc: Scan)
    requires t.Branch?
  {
    && |sc.seen| == |sc.bounds| <= |t.kids| - i
    && forall k :: 0 <= k < |sc.seen| ==> sc.seen[k] == MinValue(t.kids[i + k].1, sc.bounds[k], beta).value
  }

  /** Each value in `sc.seen` is what `MaxValue` returns for the matching
      child from `i` on, searched with the recorded `beta`. */
  ghost predicate MinTrace(t: Tree, i: nat, alpha: EReal, sc: Scan)
    requires t.Branch?
  {
    && |sc.seen| == |sc.bounds| <= |t.kids| - i
    && forall k :: 0 <= k < |sc.seen| ==> sc.seen[k] == MaxValue(t.kids[i + k].1, alpha, sc.bounds[k]).value
  }

  /** The values a maximising loop records are those its children return,
      each searched with the `alpha` of the moment. */
  lemma {:induction false} MaxLoopTrace(t: Tree, i: nat, alpha: EReal, beta: EReal, value: EReal, best: Option<Pos>)
    requires t.Branch? && i <= |t.kids|
    ensures MaxTrace(t, i, beta, MaxLoop(t, i, alpha, beta, value, best))
    decreases |t.kids| - i
  {
    if i < |t.kids| {
      var v := MinValue(t.kids[i].1, alpha, beta).value;
      var up := Le(value, v);
      var value' := if up then v else value;
      var best' := if up then Some(t.kids[i].0) else best;
      var alpha' := if up then Max(alpha, value') else alpha;
      if Le(beta, value') {
        MaxTraceStep(t, i, beta, v, alpha, Scan(value', best', [], []), MaxLoop(t, i, alpha, beta, value, best));
      } else {
        MaxLoopTrace(t, i + 1, alpha', beta, value', best');
        MaxTraceStep(t, i, beta, v, alpha, MaxLoop(t, i + 1, alpha', beta, value', best'), MaxLoop(t, i, alpha, beta, value, best));
      }
    }
  }

  /** Recording one more child in front of a trace keeps it a trace. */
  lemma MaxTraceStep(t: Tree, i: nat, beta: EReal, v: EReal, bound: EReal, r: Scan, sc: Scan)
    requires t.Branch? && i < |t.kids|
    requires MaxTrace(t, i + 1, beta, r)
    requires v == MinValue(t.kids[i].1, bound, beta).value
    requires sc.seen == [v] + r.seen && sc.bounds == [bound] + r.bounds
    ensures MaxTrace(t, i, beta, sc)
  {
    forall k | 0 <= k < |sc.seen|
      ensures sc.seen[k] == MinValue(t.kids[i + k].1, sc.bounds[k], beta).value
    {
      if k > 0 {
        assert sc.seen[k] == r.seen[k - 1] && sc.bounds[k] == r.bounds[k - 1];
        assert r.seen[k - 1] == MinValue(t.kids[(i + 1) + (k - 1)].1, r.bounds[k - 1], beta).value;
      }
    }
  }

  /** The values a minimising loop records are those its children return,
      each searched with the `beta` of the moment. */
  lemma {:induction false} MinLoopTrace(t: Tree, i: nat, alpha: EReal, beta: EReal, value: EReal, best: Option<Pos>)
    requires t.Branch? && i <= |t.kids|
    ensures MinTrace(t, i, alpha, MinLoop(t, i, alpha, beta, value, best))
    decreases |t.kids| - i
  {
    if i < |t.kids| {
      var v := MaxValue(t.kids[i].1, alpha, beta).value;
      var up := Lt(v, value);
      var value' := if up then v else value;
      var best' := if up then Some(t.kids[i].0) else best;
      var beta' := if up then Min(beta, value') else beta;
      if Le(value', alpha) {
        MinTraceStep(t, i, alpha, v, beta, Scan(value', best', [], []), MinLoop(t, i, alpha, beta, value, best));
      } else {
        MinLoopTrace(t, i + 1, alpha, beta', value', best');
        MinTraceStep(t, i, alpha, v, beta, MinLoop(t, i + 1, alpha, beta', value', best'), MinLoop(t, i, alpha, beta, value, best));
      }
    }
  }

  /** Recording one more child in front of a trace keeps it a trace. */
  lemma MinTraceStep(t: Tree, i: nat, alpha: EReal, v: EReal, bound: EReal, r: Scan, sc: Scan)
    requires t.Branch? && i < |t.kids|
    requires MinTrace(t, i + 1, alpha, r)
    requires v == MaxValue(t.kids[i].1, alpha, bound).value
    requires sc.seen == [v] + r.seen && sc.bounds == [bound] + r.bounds
    ensures MinTrace(t, i, alpha, sc)
  {
    forall k | 0 <= k < |sc.seen|
      ensures sc.seen[k] == MaxValue(t.kids[i + k].1, alpha, sc.bounds[k]).value
    {
      if k > 0 {
        assert sc.seen[k] == r.seen[k - 1] && sc.bounds[k] == r.bounds[k - 1];
        assert r.seen[k - 1] == MaxValue(t.kids[(i + 1) + (k - 1)].1, alpha, r.bounds[k - 1]).value;
      }
    }
  }

  /** `get_computer_move`: search the tree of the side to move with an open
      window. The value is the minimax value of the tree, and the move is
      one `get_moves` offers, present exactly when the game is undecided,
      the depth allows a move and a move exists: the last root move of
      largest searched value, the search stopping at the first winning one. */
  function ComputerMove(s: State, maxDepth: int): (o: Outcome)
    requires HasDisc(s.board)
    ensures o.value == Minimax(GameTree(s.turn, s, 0, maxDepth), true)
    ensures o.move.Some? ==> o.move.value in LegalMoves(s.board, s.turn)
    ensures o.move.Some? <==> Winner(s) == 0 && 0 < maxDepth && |LegalMoves(s.board, s.turn)| > 0
    ensures var t := GameTree(s.turn, s, 0, maxDepth);
      t.Branch? ==> var sc := MaxLoop(t, 0, NegInf, PosInf, NegInf, None);
        && (exists j :: LastLargest(sc.seen, j) && o.move == Some(t.kids[j].0))
        && BelowBeta(NegInf, PosInf, sc.seen)
  {
    var t := GameTree(s.turn, s, 0, maxDepth);
    RootTree(s, maxDepth);
    var o := MaxValue(t, NegInf, PosInf);
    MaxSound(t, NegInf, PosInf);
    ClampOpen(o.value);
    ClampOpen(Minimax(t, true));
    assert o.move.Some? ==> o.move.value in Moves(t);
    if t.Branch? then
      MaxValueChoice(t, NegInf, PosInf);
      MaxLoopStops(t, 0, NegInf, PosInf, NegInf, None);
      o
    else o
  }

  /** Why the chosen move need not be a best one: at the root, moves (1,1)
      and (2,2) both come back worth 5, because the search of (2,2) stops
      at its first reply once that reply reaches `alpha`; the later move
      wins the tie, although its own minimax value is only 3. */
  lemma TieExample()
    ensures var low := Branch([((0, 1), Leaf(Fin(5.0))), ((0, 2), Leaf(Fin(3.0)))]);
      var t := Branch([((1, 1), Branch([((0, 0), Leaf(Fin(5.0)))])), ((2, 2), low)]);
      && MaxValue(t, NegInf, PosInf) == Outcome(Fin(5.0), Some((2, 2)))
      && Minimax(t, true) == Fin(5.0)
      && Minimax(low, false) == Fin(3.0)
  {
    var five, three := Leaf(Fin(5.0)), Leaf(Fin(3.0));
    var high := Branch([((0, 0), five)]);
    var low := Branch([((0, 1), five), ((0, 2), three)]);
    var t := Branch([((1, 1), high), ((2, 2), low)]);
    // (1,1): the only reply is worth 5, which becomes `alpha`
    assert MaxValue(five, NegInf, PosInf).value == Fin(5.0);
    assert MinLoop(high, 0, NegInf, PosInf, PosInf, None).value == MinLoop(high, 1, NegInf, Fin(5.0), Fin(5.0), Some((0, 0))).value;
    assert MinValue(high, NegInf, PosInf).value == Fin(5.0);
    // (2,2): the first reply is worth 5, which reaches `alpha`, so the loop stops there
    assert MinLoop(low, 0, Fin(5.0), PosInf, PosInf, None).value == Fin(5.0);
    assert MinValue(low, Fin(5.0), PosInf).value == Fin(5.0);
    assert MaxLoop(t, 2, Fin(5.0), PosInf, Fin(5.0), Some((2, 2))).move == Some((2, 2));
    assert Le(Fin(5.0), Fin(5.0)) && Max(Fin(5.0), Fin(5.0)) == Fin(5.0);
    assert MaxLoop(t, 1, Fin(5.0), PosInf, Fin(5.0), Some((1, 1))).move == MaxLoop(t, 2, Fin(5.0), PosInf, Fin(5.0), Some((2, 2))).move;
    assert Best(low, false, 1) == Fin(3.0);
    assert Minimax(low, false) == Best(low, false, 0) == Fin(3.0);
    assert Best(t, true, 2) == NegInf;
    assert Best(t, true, 1) == Fin(3.0);
    assert Best(high, false, 1) == PosInf;
    assert Minimax(high, false) == Best(high, false, 0) == Fin(5.0);
  }

  /** At the root the side to move searches, so the tree offers the legal
      moves exactly when the game is undecided and the depth allows a move. */
  lemma RootTree(s: State, maxDepth: int)
    requires HasDisc(s.board)
    ensures var t := GameTree(s.turn, s, 0, maxDepth);
      && Moves(t) == (if Winner(s) == 0 && 0 < maxDepth then LegalMoves(s.board, s.turn) else [])
      && (t.Branch? <==> Winner(s) == 0 && 0 < maxDepth && |LegalMoves(s.board, s.turn)| > 0)
      && (t.Branch? ==> |t.kids| == |Moves(t)|)
  {
    var w := Winner(s);
    assert w == 0 <==> w != s.turn && w != Opp(s.turn);
  }

  lemma ClampOpen(x: EReal)
    ensures Clamp(NegInf, PosInf, x) == x
  {
  }

  // ---------------------------------------------------------------------
  // The reference: plain minimax over the same tree

  /** The minimax value of `t`, where `isMax` says whether the searching side chooses at the root. */
  function Minimax(t: Tree, isMax: bool): EReal
    decreases t, 1, 0
  {
    match t
    case Leaf(v) => v
    case Pass(n) => Minimax(n, !isMax)
    case Branch(_) => Best(t, isMax, 0)
  }

  /** The best child value over the moves from `i` on: the largest when `isMax`, the smallest otherwise. */
  function Best(t: Tree, isMax: bool, i: nat): EReal
    requires t.Branch? && i <= |t.kids|
    decreases t, 0, |t.kids| - i
  {
    if i == |t.kids| then (if isMax then NegInf else PosInf)
    else
      assert t.kids[i] in t.kids;
      var v := Minimax(t.kids[i].1, !isMax);
      var rest := Best(t, isMax, i + 1);
      if isMax then Max(v, rest) else Min(v, rest)
  }

  /** The minimax value of the child reached by move `k`. */
  function ChildValue(t: Tree, isMax: bool, k: nat): EReal
    requires t.Branch? && k < |t.kids|
  {
    assert t.kids[k] in t.kids;
    Minimax(t.kids[k].1, !isMax)
  }

  lemma LeMax(x: EReal, v: EReal, rest: EReal)
    ensures Le(x, rest) ==> Le(x, Max(v, rest))
    ensures Le(rest, x) ==> Le(Min(v, rest), x)
  {
  }

  /** No child of a maximising node is worth more than its best, and none of a minimising node less. */
  lemma {:induction false} BestBound(t: Tree, isMax: bool, i: nat, k: nat)
    requires t.Branch? && i <= k < |t.kids|
    ensures isMax ==> Le(ChildValue(t, isMax, k), Best(t, isMax, i))
    ensures !isMax ==> Le(Best(t, isMax, i), ChildValue(t, isMax, k))
    decreases k - i
  {
    if i < k {
      BestBound(t, isMax, i + 1, k);
      LeMax(ChildValue(t, isMax, k), ChildValue(t, isMax, i), Best(t, isMax, i + 1));
    }
  }

  /** The best value is the value of some child, or the identity of the fold when there are none. */
  lemma {:induction false} BestAttained(t: Tree, isMax: bool, i: nat) returns (k: nat)
    requires t.Branch? && i <= |t.kids|
    ensures i == |t.kids| ==> Best(t, isMax, i) == (if isMax then NegInf else PosInf)
    ensures i < |t.kids| ==> i <= k < |t.kids| && Best(t, isMax, i) == ChildValue(t, isMax, k)
    decreases |t.kids| - i
  {
    k := i;
    if i + 1 < |t.kids| {
      var j := BestAttained(t, isMax, i + 1);
      if Best(t, isMax, i) != ChildValue(t, isMax, i) {
        k := j;
      }
    }
  }

  // ---------------------------------------------------------------------
  // Soundness of the pruning

  /** One step of the maximising loop when the child improves the value but causes no cut. */
  lemma MaxRaise(alpha: EReal, beta: EReal, value: EReal, v: EReal, cv: EReal, o: EReal, rest: EReal)
    requires Lt(alpha, beta) && Le(value, alpha) && Le(value, v) && Lt(v, beta) && Le(v, o)
    requires Clamp(alpha, beta, v) == Clamp(alpha, beta, cv)
    requires Clamp(Max(alpha, v), beta, o) == Clamp(Max(alpha, v), beta, Max(v, rest))
    ensures Clamp(alpha, beta, o) == Clamp(alpha, beta, Max(value, Max(cv, rest)))
  {
  }

  /** One step of the maximising loop when the child reaches `beta` and cuts. */
  lemma MaxCut(alpha: EReal, beta: EReal, value: EReal, v: EReal, cv: EReal, rest: EReal)
    requires Lt(alpha, beta) && Le(beta, v)
    requires Clamp(alpha, beta, v) == Clamp(alpha, beta, cv)
    ensures Clamp(alpha, beta, v) == Clamp(alpha, beta, Max(value, Max(cv, rest)))
  {
  }

  /** One step of the maximising loop when the child is worse than the value so far. */
  lemma MaxKeep(alpha: EReal, beta: EReal, value: EReal, v: EReal, cv: EReal, o: EReal, rest: EReal)
    requires Lt(alpha, beta) && Le(value, alpha) && Lt(v, value)
    requires Clamp(alpha, beta, v) == Clamp(alpha, beta, cv)
    requires Clamp(alpha, beta, o) == Clamp(alpha, beta, Max(value, rest))
    ensures Clamp(alpha, beta, o) == Clamp(alpha, beta, Max(value, Max(cv, rest)))
  {
  }

  /** One step of the minimising loop when the child lowers the value but causes no cut. */
  lemma MinLower(alpha: EReal, beta: EReal, value: EReal, v: EReal, cv: EReal, o: EReal, rest: EReal)
    requires Lt(alpha, beta) && Le(beta, value) && Lt(v, value) && Lt(alpha, v) && Le(o, v)
    requires Clamp(alpha, beta, v) == Clamp(alpha, beta, cv)
    requires Clamp(alpha, Min(beta, v), o) == Clamp(alpha, Min(beta, v), Min(v, rest))
    ensures Clamp(alpha, beta, o) == Clamp(alpha, beta, Min(value, Min(cv, rest)))
  {
  }

  /** One step of the minimising loop when the child drops to `alpha` and cuts. */
  lemma MinCut(alpha: EReal, beta: EReal, value: EReal, v: EReal, cv: EReal, rest: EReal)
    requires Lt(alpha, beta) && Le(v, alpha)
    requires Clamp(alpha, beta, v) == Clamp(alpha, beta, cv)
    ensures Clamp(alpha, beta, v) == Clamp(alpha, beta, Min(value, Min(cv, rest)))
  {
  }

  /** One step of the minimising loop when the child is no better for the opponent than the value so far. */
  lemma MinKeep(alpha: EReal, beta: EReal, value: EReal, v: EReal, cv: EReal, o: EReal, rest: EReal)
    requires Lt(alpha, beta) && Le(beta, value) && Le(value, v)
    requires Clamp(alpha, beta, v) == Clamp(alpha, beta, cv)
    requires Clamp(alpha, beta, o) == Clamp(alpha, beta, Min(value, rest))
    ensures Clamp(alpha, beta, o) == Clamp(alpha, beta, Min(value, Min(cv, rest)))
  {
  }

  /** Alpha-beta is exact inside its window: clamped to `[alpha, beta]`,
      the value `MaxValue` returns equals the minimax value. */
  lemma {:induction false} MaxSound(t: Tree, alpha: EReal, beta: EReal)
    requires Lt(alpha, beta)
    ensures Clamp(alpha, beta, MaxValue(t, alpha, beta).value) == Clamp(alpha, beta, Minimax(t, true))
    decreases t, 1, 0, 0
  {
    match t
    case Leaf(_) =>
    case Pass(n) => MinSound(n, alpha, beta);
    case Branch(_) => MaxLoopSound(t, 0, alpha, beta, NegInf, None);
  }

  /** The same for `MinValue` and the minimax value with the opponent to choose. */
  lemma {:induction false} MinSound(t: Tree, alpha: EReal, beta: EReal)
    requires Lt(alpha, beta)
    ensures Clamp(alpha, beta, MinValue(t, alpha, beta).value) == Clamp(alpha, beta, Minimax(t, false))
    decreases t, 1, 0, 0
  {
    match t
    case Leaf(_) =>
    case Pass(n) => MaxSound(n, alpha, beta);
    case Branch(_) => MinLoopSound(t, 0, alpha, beta, PosInf, None);
  }

  /** The maximising loop from move `i` on, entered with a value at most
      `alpha`, is exact inside the window on the best of that value and the
      remaining children. */
  lemma {:induction false} MaxLoopSound(t: Tree, i: nat, alpha: EReal, beta: EReal, value: EReal, best: Option<Pos>)
    requires t.Branch? && i <= |t.kids| && Lt(alpha, beta) && Le(value, alpha)
    ensures Clamp(alpha, beta, MaxLoop(t, i, alpha, beta, value, best).value) == Clamp(alpha, beta, Max(value, Best(t, true, i)))
    decreases t, 0, |t.kids| - i, 1
  {
    if i < |t.kids| {
      var v := MinValue(t.kids[i].1, alpha, beta).value;
      if !Le(value, v) {
        MaxStepKeep(t, i, alpha, beta, value, best);
      } else if Le(beta, v) {
        MaxStepCut(t, i, alpha, beta, value, best);
      } else {
        MaxStepRaise(t, i, alpha, beta, value, best);
      }
    }
  }

  lemma {:induction false} MaxStepCut(t: Tree, i: nat, alpha: EReal, beta: EReal, value: EReal, best: Option<Pos>)
    requires t.Branch? && i < |t.kids| && Lt(alpha, beta)
    requires Le(beta, MinValue(t.kids[i].1, alpha, beta).value)
    ensures Clamp(alpha, beta, MaxLoop(t, i, alpha, beta, value, best).value) == Clamp(alpha, beta, Max(value, Best(t, true, i)))
    decreases t, 0, |t.kids| - i, 0
  {
    assert t.kids[i] in t.kids;
    var kid := t.kids[i].1;
    var v := MinValue(kid, alpha, beta).value;
    MinSound(kid, alpha, beta);
    MaxCut(alpha, beta, value, v, Minimax(kid, false), Best(t, true, i + 1));
  }

  lemma {:induction false} MaxStepRaise(t: Tree, i: nat, alpha: EReal, beta: EReal, value: EReal, best: Option<Pos>)
    requires t.Branch? && i < |t.kids| && Lt(alpha, beta) && Le(value, alpha)
    requires Le(value, MinValue(t.kids[i].1, alpha, beta).value) && Lt(MinValue(t.kids[i].1, alpha, beta).value, beta)
    ensures Clamp(alpha, beta, MaxLoop(t, i, alpha, beta, value, best).value) == Clamp(alpha, beta, Max(value, Best(t, true, i)))
    decreases t, 0, |t.kids| - i, 0
  {
    assert t.kids[i] in t.kids;
    var kid := t.kids[i].1;
    var v := MinValue(kid, alpha, beta).value;
    MinSound(kid, alpha, beta);
    var q := Some(t.kids[i].0);
    var o := MaxLoop(t, i + 1, Max(alpha, v), beta, v, q).value;
    MaxLoopSound(t, i + 1, Max(alpha, v), beta, v, q);
    MaxRaise(alpha, beta, value, v, Minimax(kid, false), o, Best(t, true, i + 1));
  }

  lemma {:induction false} MaxStepKeep(t: Tree, i: nat, alpha: EReal, beta: EReal, value: EReal, best: Option<Pos>)
    requires t.Branch? && i < |t.kids| && Lt(alpha, beta) && Le(value, alpha)
    requires !Le(value, MinValue(t.kids[i].1, alpha, beta).value)
    ensures Clamp(alpha, beta, MaxLoop(t, i, alpha, beta, value, best).value) == Clamp(alpha, beta, Max(value, Best(t, true, i)))
    decreases t, 0, |t.kids| - i, 0
  {
    assert t.kids[i] in t.kids;
    var kid := t.kids[i].1;
    var v := MinValue(kid, alpha, beta).value;
    MinSound(kid, alpha, beta);
    var o := MaxLoop(t, i + 1, alpha, beta, value, best).value;
    MaxLoopSound(t, i + 1, alpha, beta, value, best);
    MaxKeep(alpha, beta, value, v, Minimax(kid, false), o, Best(t, true, i + 1));
  }

  /** The minimising loop from move `i` on, entered with a value at least
      `beta`, is exact inside the window on the least of that value and the
      remaining children. */
  lemma {:induction false} MinLoopSound(t: Tree, i: nat, alpha: EReal, beta: EReal, value: EReal, best: Option<Pos>)
    requires t.Branch? && i <= |t.kids| && Lt(alpha, beta) && Le(beta, value)
    ensures Clamp(alpha, beta, MinLoop(t, i, alpha, beta, value, best).value) == Clamp(alpha, beta, Min(value, Best(t, false, i)))
    decreases t, 0, |t.kids| - i, 1
  {
    if i < |t.kids| {
      var v := MaxValue(t.kids[i].1, alpha, beta).value;
      if !Lt(v, value) {
        MinStepKeep(t, i, alpha, beta, value, best);
      } else if Le(v, alpha) {
        MinStepCut(t, i, alpha, beta, value, best);
      } else {
        MinStepLower(t, i, alpha, beta, value, best);
      }
    }
  }

  lemma {:induction false} MinStepCut(t: Tree, i: nat, alpha: EReal, beta: EReal, value: EReal, best: Option<Pos>)
    requires t.Branch? && i < |t.kids| && Lt(alpha, beta)
    requires Lt(MaxValue(t.kids[i].1, alpha, beta).value, value) && Le(MaxValue(t.kids[i].1, alpha, beta).value, alpha)
    ensures Clamp(alpha, beta, MinLoop(t, i, alpha, beta, value, best).value) == Clamp(alpha, beta, Min(value, Best(t, false, i)))
    decreases t, 0, |t.kids| - i, 0
  {
    assert t.kids[i] in t.kids;
    var kid := t.kids[i].1;
    var v := MaxValue(kid, alpha, beta).value;
    MaxSound(kid, alpha, beta);
    MinCut(alpha, beta, value, v, Minimax(kid, true), Best(t, false, i + 1));
  }

  lemma {:induction false} MinStepLower(t: Tree, i: nat, alpha: EReal, beta: EReal, value: EReal, best: Option<Pos>)
    requires t.Branch? && i < |t.kids| && Lt(alpha, beta) && Le(beta, value)
    requires Lt(MaxValue(t.kids[i].1, alpha, beta).value, value) && Lt(alpha, MaxValue(t.kids[i].1, alpha, beta).value)
    ensures Clamp(alpha, beta, MinLoop(t, i, alpha, beta, value, best).value) == Clamp(alpha, beta, Min(value, Best(t, false, i)))
    decreases t, 0, |t.kids| - i, 0
  {
    assert t.kids[i] in t.kids;
    var kid := t.kids[i].1;
    var v := MaxValue(kid, alpha, beta).value;
    MaxSound(kid, alpha, beta);
    var q := Some(t.kids[i].0);
    var o := MinLoop(t, i + 1, alpha, Min(beta, v), v, q).value;
    MinLoopSound(t, i + 1, alpha, Min(beta, v), v, q);
    MinLower(alpha, beta, value, v, Minimax(kid, true), o, Best(t, false, i + 1));
  }

  lemma {:induction false} MinStepKeep(t: Tree, i: nat, alpha: EReal, beta: EReal, value: EReal, best: Option<Pos>)
    requires t.Branch? && i < |t.kids| && Lt(alpha, beta) && Le(beta, value)
    requires !Lt(MaxValue(t.kids[i].1, alpha, beta).value, value)
    ensures Clamp(alpha, beta, MinLoop(t, i, alpha, beta, value, best).value) == Clamp(alpha, beta, Min(value, Best(t, false, i)))
    decreases t, 0, |t.kids| - i, 0
  {
    assert t.kids[i] in t.kids;
    var kid := t.kids[i].1;
    var v := MaxValue(kid, alpha, beta).value;
    MaxSound(kid, alpha, beta);
    var o := MinLoop(t, i + 1, alpha, beta, value, best).value;
    MinLoopSound(t, i + 1, alpha, beta, value, best);
    MinKeep(alpha, beta, value, v, Minimax(kid, true), o, Best(t, false, i + 1));
  }
}
