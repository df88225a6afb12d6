/** Disc stability: `protection` classifies each occupied square along the
    four axes through it, spreading its verdicts along the lines it walks,
    and `stability` buckets the discs by those verdicts. */
module Stability {
  import opened Othello
  import opened OthelloFacts

  /** The verdict for one disc on one axis. */
  datatype Slot = Protected | Unprotected | Takeable

  /** The memo of verdicts: four slots (one per axis) for every occupied square, filled lazily. */
  type Memo = map<Pos, seq<Option<Slot>>>

  /** The four axes, each as its pair of opposite directions, in the source's order. */
  const Axes: seq<(Dir, Dir)> := [((-1, -1), (1, 1)), ((0, -1), (0, 1)), ((1, -1), (-1, 1)), ((-1, 0), (1, 0))]

  function AxisAt(a: int): (r: (Dir, Dir))
    requires 0 <= a < 4
    ensures IsDir(r.0) && IsDir(r.1)
    ensures r.0 == (-r.1.0, -r.1.1)
  {
    Axes[a]
  }

  // ---------------------------------------------------------------------
  // Walking one side of an axis

  /** What one side of an axis walk found: whether it ran off the board,
      whether it crossed a disc of the other colour, and the discs it crossed. */
  datatype Walk = Walk(border: bool, opp: bool, cells: seq<Pos>)

  /** Walk from `q` along `d`, starting `n` steps out, for a disc of colour
      `c`: pass over discs of either colour, stop at an empty square or at
      the edge. */
  function SideWalk(b: Board, q: Pos, d: Dir, c: Player, n: int): Walk
    requires OnBoard(q) && IsDir(d) && n >= 1
    decreases 8 - n, q  // `q` only blocks literal unrolling, as in `Run`
  {
    var s := Step(q, d, n);
    if !OnBoard(s) then Walk(true, false, [])
    else if At(b, s) == 0 then Walk(false, false, [])
    else
      StepBound(q, d, n);
      var w := SideWalk(b, q, d, c, n + 1);
      Walk(w.border, At(b, s) == Opp(c) || w.opp, [s] + w.cells)
  }

  /** A side walk crosses the consecutive occupied squares from `n` steps out. */
  lemma WalkFacts(b: Board, q: Pos, d: Dir, c: Player, n: int)
    requires OnBoard(q) && IsDir(d) && n >= 1
    ensures forall k :: 0 <= k < |SideWalk(b, q, d, c, n).cells| ==>
      && SideWalk(b, q, d, c, n).cells[k] == Step(q, d, n + k)
      && OnBoard(SideWalk(b, q, d, c, n).cells[k])
      && At(b, SideWalk(b, q, d, c, n).cells[k]) != 0
  {
    WalkOccupied(b, q, d, c, n);
    forall k | 0 <= k < |SideWalk(b, q, d, c, n).cells|
      ensures && SideWalk(b, q, d, c, n).cells[k] == Step(q, d, n + k)
              && OnBoard(SideWalk(b, q, d, c, n).cells[k])
              && At(b, SideWalk(b, q, d, c, n).cells[k]) != 0
    {
      WalkCellAt(b, q, d, c, n, k);
      assert SideWalk(b, q, d, c, n).cells[k] in SideWalk(b, q, d, c, n).cells;
    }
  }

  /** Every square a side walk crosses holds a disc. */
  lemma {:induction false} WalkOccupied(b: Board, q: Pos, d: Dir, c: Player, n: int)
    requires OnBoard(q) && IsDir(d) && n >= 1
    ensures forall x :: x in SideWalk(b, q, d, c, n).cells ==> OnBoard(x) && At(b, x) != 0
    decreases 8 - n
  {
    if OnBoard(Step(q, d, n)) && At(b, Step(q, d, n)) != 0 {
      StepBound(q, d, n);
      WalkOccupied(b, q, d, c, n + 1);
      WalkOccupiedStep(b, q, d, c, n);
    } else {
      WalkStop(b, q, d, c, n);
    }
  }

  lemma WalkOccupiedStep(b: Board, q: Pos, d: Dir, c: Player, n: int)
    requires OnBoard(q) && IsDir(d) && n >= 1 && OnBoard(Step(q, d, n)) && At(b, Step(q, d, n)) != 0
    requires forall x :: x in SideWalk(b, q, d, c, n + 1).cells ==> OnBoard(x) && At(b, x) != 0
    ensures forall x :: x in SideWalk(b, q, d, c, n).cells ==> OnBoard(x) && At(b, x) != 0
  {
    WalkStep(b, q, d, c, n);
  }

  /** The `k`-th disc a side walk crosses is the square `n + k` steps out. */
  lemma {:induction false} WalkCellAt(b: Board, q: Pos, d: Dir, c: Player, n: int, k: int)
    requires OnBoard(q) && IsDir(d) && n >= 1 && 0 <= k < |SideWalk(b, q, d, c, n).cells|
    ensures SideWalk(b, q, d, c, n).cells[k] == Step(q, d, n + k)
    decreases k
  {
    WalkNonEmpty(b, q, d, c, n);
    WalkStep(b, q, d, c, n);
    if k > 0 {
      WalkCellAt(b, q, d, c, n + 1, k - 1);
      ShiftCell(q, d, n, k, SideWalk(b, q, d, c, n).cells, SideWalk(b, q, d, c, n + 1).cells);
    }
  }

  /** The `k`-th cell of a walk one square longer than `v`, starting one square earlier, is the `k - 1`-th of `v`. */
  lemma ShiftCell(q: Pos, d: Dir, n: int, k: int, w: seq<Pos>, v: seq<Pos>)
    requires w == [Step(q, d, n)] + v && 1 <= k < |w|
    requires v[k - 1] == Step(q, d, n + 1 + (k - 1))
    ensures w[k] == Step(q, d, n + k)
  {
    assert n + 1 + (k - 1) == n + k;
  }

  lemma WalkNonEmpty(b: Board, q: Pos, d: Dir, c: Player, n: int)
    requires OnBoard(q) && IsDir(d) && n >= 1 && 0 < |SideWalk(b, q, d, c, n).cells|
    ensures OnBoard(Step(q, d, n)) && At(b, Step(q, d, n)) != 0
  {
  }

  /** Over an occupied square the walk records it and carries on one step further. */
  lemma WalkStep(b: Board, q: Pos, d: Dir, c: Player, n: int)
    requires OnBoard(q) && IsDir(d) && n >= 1 && OnBoard(Step(q, d, n)) && At(b, Step(q, d, n)) != 0
    ensures n < 8
    ensures SideWalk(b, q, d, c, n).cells == [Step(q, d, n)] + SideWalk(b, q, d, c, n + 1).cells
    ensures SideWalk(b, q, d, c, n).border == SideWalk(b, q, d, c, n + 1).border
    ensures SideWalk(b, q, d, c, n).opp == (At(b, Step(q, d, n)) == Opp(c) || SideWalk(b, q, d, c, n + 1).opp)
  {
    StepBound(q, d, n);
  }

  /** Where a walk `w` that starts `n` steps out along `d` ends: off the
      board exactly when it reports the border, on an empty square otherwise. */
  predicate EndsRight(b: Board, q: Pos, d: Dir, n: int, w: Walk) {
    && (w.border <==> !OnBoard(Step(q, d, n + |w.cells|)))
    && (!w.border ==> OnBoard(Step(q, d, n + |w.cells|)) && At(b, Step(q, d, n + |w.cells|)) == 0)
  }

  /** A side walk stops at the edge (`border`) or at an empty square. */
  lemma {:induction false} WalkEnd(b: Board, q: Pos, d: Dir, c: Player, n: int)
    requires OnBoard(q) && IsDir(d) && n >= 1
    ensures EndsRight(b, q, d, n, SideWalk(b, q, d, c, n))
    decreases 8 - n
  {
    var s := Step(q, d, n);
    if OnBoard(s) && At(b, s) != 0 {
      StepBound(q, d, n);
      WalkEnd(b, q, d, c, n + 1);
      WalkEndStep(b, q, d, c, n);
    } else {
      WalkStop(b, q, d, c, n);
      assert n + |SideWalk(b, q, d, c, n).cells| == n;
    }
  }

  lemma WalkEndStep(b: Board, q: Pos, d: Dir, c: Player, n: int)
    requires OnBoard(q) && IsDir(d) && n >= 1 && OnBoard(Step(q, d, n)) && At(b, Step(q, d, n)) != 0
    requires EndsRight(b, q, d, n + 1, SideWalk(b, q, d, c, n + 1))
    ensures EndsRight(b, q, d, n, SideWalk(b, q, d, c, n))
  {
    WalkStep(b, q, d, c, n);
    var w, v := SideWalk(b, q, d, c, n), SideWalk(b, q, d, c, n + 1);
    ShiftEnd(b, q, d, n, w, v);
  }

  lemma WalkStop(b: Board, q: Pos, d: Dir, c: Player, n: int)
    requires OnBoard(q) && IsDir(d) && n >= 1
    requires !OnBoard(Step(q, d, n)) || At(b, Step(q, d, n)) == 0
    ensures SideWalk(b, q, d, c, n).cells == []
    ensures SideWalk(b, q, d, c, n).border <==> !OnBoard(Step(q, d, n))
  {
  }

  /** A walk one square longer than `v`, starting one square earlier, ends where `v` ends. */
  lemma ShiftEnd(b: Board, q: Pos, d: Dir, n: int, w: Walk, v: Walk)
    requires |w.cells| == 1 + |v.cells| && w.border == v.border
    requires EndsRight(b, q, d, n + 1, v)
    ensures EndsRight(b, q, d, n, w)
  {
    assert n + |w.cells| == n + 1 + |v.cells|;
  }

  lemma {:induction false} WalkOpp(b: Board, q: Pos, d: Dir, c: Player, n: int)
    requires OnBoard(q) && IsDir(d) && n >= 1
    ensures SideWalk(b, q, d, c, n).opp <==> SeesOpp(b, c, SideWalk(b, q, d, c, n).cells)
    decreases 8 - n
  {
    var s := Step(q, d, n);
    if OnBoard(s) && At(b, s) != 0 {
      StepBound(q, d, n);
      WalkOpp(b, q, d, c, n + 1);
      WalkOppStep(b, q, d, c, n);
    } else {
      WalkStop(b, q, d, c, n);
    }
  }

  lemma WalkOppStep(b: Board, q: Pos, d: Dir, c: Player, n: int)
    requires OnBoard(q) && IsDir(d) && n >= 1 && OnBoard(Step(q, d, n)) && At(b, Step(q, d, n)) != 0
    requires SideWalk(b, q, d, c, n + 1).opp <==> SeesOpp(b, c, SideWalk(b, q, d, c, n + 1).cells)
    ensures SideWalk(b, q, d, c, n).opp <==> SeesOpp(b, c, SideWalk(b, q, d, c, n).cells)
  {
    WalkStep(b, q, d, c, n);
    var w, v := SideWalk(b, q, d, c, n), SideWalk(b, q, d, c, n + 1);
    OppShift(b, c, Step(q, d, n), w, v);
  }

  /** A walk that first crosses `s` and then walks `v` sees the opponent where `s` or `v` does. */
  lemma OppShift(b: Board, c: Player, s: Pos, w: Walk, v: Walk)
    requires OnBoard(s) && w.cells == [s] + v.cells && w.opp == (At(b, s) == Opp(c) || v.opp)
    requires v.opp <==> SeesOpp(b, c, v.cells)
    ensures w.opp <==> SeesOpp(b, c, w.cells)
  {
    OppCons(b, c, s, v.cells, v.opp);
  }

  /** Some square of `cells` holds a disc of the opponent of `c`. */
  predicate SeesOpp(b: Board, c: Player, cells: seq<Pos>) {
    exists x :: x in cells && OnBoard(x) && At(b, x) == Opp(c)
  }

  lemma OppCons(b: Board, c: Player, s: Pos, cells: seq<Pos>, o: bool)
    requires OnBoard(s)
    requires o <==> SeesOpp(b, c, cells)
    ensures (At(b, s) == Opp(c) || o) <==> SeesOpp(b, c, [s] + cells)
  {
    if o {
      var x :| x in cells && OnBoard(x) && At(b, x) == Opp(c);
      assert x in [s] + cells;
    }
    if At(b, s) == Opp(c) {
      assert s in [s] + cells;
    }
    if SeesOpp(b, c, [s] + cells) {
      var x :| x in [s] + cells && OnBoard(x) && At(b, x) == Opp(c);
      if x != s {
        assert x in cells;
      }
    }
  }


  /** The crossed discs in the order the source records them: one step to
      the left, then one step to the right, and so on, each side dropping
      out once it has stopped. */
  function Interleave(l: seq<Pos>, r: seq<Pos>): (m: seq<Pos>)
    ensures |m| == |l| + |r|
    ensures forall x :: x in m <==> x in l || x in r
    ensures forall k :: 0 <= k < |l| && k < |r| ==> m[2 * k] == l[k] && m[2 * k + 1] == r[k]
    ensures |l| <= |r| ==> m[2 * |l|..] == r[|l|..]
    ensures |r| <= |l| ==> m[2 * |r|..] == l[|r|..]
    decreases |l| + |r|
  {
    if |l| == 0 then r
    else if |r| == 0 then l
    else [l[0], r[0]] + Interleave(l[1..], r[1..])
  }

  /** The verdict for an axis from its two side walks. */
  function Classify(left: Walk, right: Walk): (v: Slot)
    ensures v == Protected <==> left.border || right.border || (left.opp && right.opp)
    ensures v == Takeable <==> !left.border && !right.border && (left.opp != right.opp)
  {
    if left.border || right.border then Protected
    else if left.opp && right.opp then Protected
    else if left.opp || right.opp then Takeable
    else Unprotected
  }

  // ---------------------------------------------------------------------
  // The verdict in terms of the board

  /** Every square from one to `n - 1` steps out from `q` along `d` holds a disc. */
  ghost predicate Filled(b: Board, q: Pos, d: Dir, n: int) {
    forall m :: 1 <= m < n ==> OnBoard(Step(q, d, m)) && At(b, Step(q, d, m)) != 0
  }

  /** The unbroken line of discs from `q` along `d` runs into the edge of the board. */
  ghost predicate ReachesEdge(b: Board, q: Pos, d: Dir) {
    exists n :: 1 <= n && !OnBoard(Step(q, d, n)) && Filled(b, q, d, n)
  }

  /** The unbroken line of discs from `q` along `d` holds a disc of the opponent of `c`. */
  ghost predicate MeetsOpp(b: Board, q: Pos, d: Dir, c: Player) {
    exists n :: 1 <= n && OnBoard(Step(q, d, n)) && At(b, Step(q, d, n)) == Opp(c) && Filled(b, q, d, n)
  }

  /** The squares a side walk crosses, together with the square it stops at, are
      those of the line of discs from `q`: it fills everything before its end. */
  lemma WalkFilled(b: Board, q: Pos, d: Dir, c: Player)
    requires OnBoard(q) && IsDir(d)
    ensures Filled(b, q, d, 1 + |SideWalk(b, q, d, c, 1).cells|)
    ensures EndsRight(b, q, d, 1, SideWalk(b, q, d, c, 1))
  {
    var w := SideWalk(b, q, d, c, 1);
    WalkFacts(b, q, d, c, 1);
    WalkEnd(b, q, d, c, 1);
    forall m | 1 <= m < 1 + |w.cells| ensures OnBoard(Step(q, d, m)) && At(b, Step(q, d, m)) != 0 {
      assert w.cells[m - 1] == Step(q, d, 1 + (m - 1));
    }
  }

  /** A side walk reports the border exactly when its line of discs reaches the edge. */
  lemma WalkBorder(b: Board, q: Pos, d: Dir, c: Player)
    requires OnBoard(q) && IsDir(d)
    ensures SideWalk(b, q, d, c, 1).border <==> ReachesEdge(b, q, d)
  {
    var w := SideWalk(b, q, d, c, 1);
    var e := 1 + |w.cells|;
    WalkFilled(b, q, d, c);
    WalkFacts(b, q, d, c, 1);
    if w.border {
      assert !OnBoard(Step(q, d, e)) && Filled(b, q, d, e);
    }
  }

  /** A side walk reports a disc of the other colour exactly when its line of discs holds one. */
  lemma WalkMeets(b: Board, q: Pos, d: Dir, c: Player)
    requires OnBoard(q) && IsDir(d)
    ensures SideWalk(b, q, d, c, 1).opp <==> MeetsOpp(b, q, d, c)
  {
    WalkOpp(b, q, d, c, 1);
    if SideWalk(b, q, d, c, 1).opp {
      SeenMeets(b, q, d, c);
    }
    if MeetsOpp(b, q, d, c) {
      MeetsSeen(b, q, d, c);
    }
  }

  lemma SeenMeets(b: Board, q: Pos, d: Dir, c: Player)
    requires OnBoard(q) && IsDir(d) && SeesOpp(b, c, SideWalk(b, q, d, c, 1).cells)
    ensures MeetsOpp(b, q, d, c)
  {
    var w := SideWalk(b, q, d, c, 1);
    var x :| x in w.cells && OnBoard(x) && At(b, x) == Opp(c);
    var k :| 0 <= k < |w.cells| && w.cells[k] == x;
    CellMeets(b, q, d, c, k);
  }

  lemma CellMeets(b: Board, q: Pos, d: Dir, c: Player, k: int)
    requires OnBoard(q) && IsDir(d) && 0 <= k < |SideWalk(b, q, d, c, 1).cells|
    requires OnBoard(SideWalk(b, q, d, c, 1).cells[k]) && At(b, SideWalk(b, q, d, c, 1).cells[k]) == Opp(c)
    ensures MeetsOpp(b, q, d, c)
  {
    forall m | 1 <= m < k + 1 ensures OnBoard(Step(q, d, m)) && At(b, Step(q, d, m)) != 0 {
      WalkCell(b, q, d, c, m - 1);
    }
    WalkCell(b, q, d, c, k);
    MeetsAt(b, q, d, c, k + 1);
  }

  lemma MeetsAt(b: Board, q: Pos, d: Dir, c: Player, n: int)
    requires 1 <= n && OnBoard(Step(q, d, n)) && At(b, Step(q, d, n)) == Opp(c) && Filled(b, q, d, n)
    ensures MeetsOpp(b, q, d, c)
  {
  }

  lemma MeetsSeen(b: Board, q: Pos, d: Dir, c: Player)
    requires OnBoard(q) && IsDir(d) && MeetsOpp(b, q, d, c)
    ensures SeesOpp(b, c, SideWalk(b, q, d, c, 1).cells)
  {
    var w := SideWalk(b, q, d, c, 1);
    var e := 1 + |w.cells|;
    WalkFilled(b, q, d, c);
    var n :| 1 <= n && OnBoard(Step(q, d, n)) && At(b, Step(q, d, n)) == Opp(c) && Filled(b, q, d, n);
    if n != e {
      assert n < e;
      WalkCellAt(b, q, d, c, 1, n - 1);
      assert w.cells[n - 1] == Step(q, d, 1 + (n - 1));
      assert w.cells[n - 1] in w.cells;
    }
  }

  /** The verdict of `protection` for one axis, read off the board: protected
      when a line of discs on either side reaches the edge or both lines hold a
      disc of the other colour; takeable when neither reaches the edge and
      exactly one holds such a disc. */
  lemma AxisVerdictIff(b: Board, piece: Pos, a: int)
    requires OnBoard(piece) && At(b, piece) != 0 && 0 <= a < 4
    ensures var c: Player := At(b, piece);
      var (l, r) := AxisAt(a);
      && (AxisVerdict(b, piece, a) == Protected <==>
            ReachesEdge(b, piece, l) || ReachesEdge(b, piece, r) || (MeetsOpp(b, piece, l, c) && MeetsOpp(b, piece, r, c)))
      && (AxisVerdict(b, piece, a) == Takeable <==>
            !ReachesEdge(b, piece, l) && !ReachesEdge(b, piece, r) && MeetsOpp(b, piece, l, c) != MeetsOpp(b, piece, r, c))
  {
    var c: Player := At(b, piece);
    WalkBorder(b, piece, AxisAt(a).0, c);
    WalkBorder(b, piece, AxisAt(a).1, c);
    WalkMeets(b, piece, AxisAt(a).0, c);
    WalkMeets(b, piece, AxisAt(a).1, c);
  }

  // ---------------------------------------------------------------------
  // Where a recorded verdict comes from

  /** Every square from `q` to `t` steps along `e`, both ends included, holds a disc (`t` may be negative). */
  ghost predicate Linked(b: Board, q: Pos, e: Dir, t: int) {
    forall s :: (0 <= s <= t || t <= s <= 0) ==> OnBoard(Step(q, e, s)) && At(b, Step(q, e, s)) != 0
  }

  /** `x` lies on axis `a` through `q`, joined to it by an unbroken line of discs. */
  ghost predicate OnLine(b: Board, q: Pos, a: int, x: Pos)
    requires 0 <= a < 4
  {
    exists t :: Linked(b, q, AxisAt(a).1, t) && Step(q, AxisAt(a).1, t) == x
  }

  /** Verdict `v` on axis `a` of `q` is the verdict `protection` reaches on that
      axis for some disc of `q`'s colour joined to `q` along it by an unbroken
      line of discs (possibly `q` itself). */
  ghost predicate Justified(b: Board, q: Pos, a: int, v: Slot)
    requires 0 <= a < 4
  {
    && OnBoard(q)
    && exists t :: Linked(b, q, AxisAt(a).1, t) && At(b, Step(q, AxisAt(a).1, t)) == At(b, q)
         && v == AxisVerdict(b, Step(q, AxisAt(a).1, t), a)
  }

  /** Every decided slot of the memo holds a justified verdict. */
  ghost predicate SlotsSound(b: Board, memo: Memo) {
    forall q, a :: q in memo && 0 <= a < 4 && a < |memo[q]| && memo[q][a].Some? ==> Justified(b, q, a, memo[q][a].value)
  }

  /** The verdict a disc reaches for itself is justified. */
  lemma SelfJustified(b: Board, q: Pos, a: int)
    requires OnBoard(q) && At(b, q) != 0 && 0 <= a < 4
    ensures Justified(b, q, a, AxisVerdict(b, q, a))
  {
    var e := AxisAt(a).1;
    assert Step(q, e, 0) == q;
    assert Linked(b, q, e, 0);
  }

  lemma StepAdd(q: Pos, e: Dir, s: int, t: int)
    ensures Step(Step(q, e, s), e, t) == Step(q, e, s + t)
  {
  }

  lemma StepFlip(q: Pos, e: Dir, n: int)
    requires IsDir(e)
    ensures Step(q, (-e.0, -e.1), n) == Step(q, e, -n)
  {
  }

  lemma LinkedAt(b: Board, q: Pos, e: Dir, t: int, s: int)
    requires Linked(b, q, e, t) && (0 <= s <= t || t <= s <= 0)
    ensures OnBoard(Step(q, e, s)) && At(b, Step(q, e, s)) != 0
  {
  }

  /** The `j`-th disc a walk from `q` crosses is `1 + j` steps out, and holds a disc. */
  lemma WalkCell(b: Board, q: Pos, d: Dir, c: Player, j: int)
    requires OnBoard(q) && IsDir(d) && 0 <= j < |SideWalk(b, q, d, c, 1).cells|
    ensures SideWalk(b, q, d, c, 1).cells[j] == Step(q, d, 1 + j)
    ensures OnBoard(Step(q, d, 1 + j)) && At(b, Step(q, d, 1 + j)) != 0
  {
    WalkCellAt(b, q, d, c, 1, j);
    WalkOccupied(b, q, d, c, 1);
    assert SideWalk(b, q, d, c, 1).cells[j] in SideWalk(b, q, d, c, 1).cells;
  }

  /** The line from a disc to the `k`-th disc its walk crosses is unbroken. */
  lemma WalkLinked(b: Board, q: Pos, d: Dir, c: Player, k: int)
    requires OnBoard(q) && At(b, q) != 0 && IsDir(d) && 0 <= k < |SideWalk(b, q, d, c, 1).cells|
    ensures Linked(b, q, d, 1 + k) && SideWalk(b, q, d, c, 1).cells[k] == Step(q, d, 1 + k)
  {
    forall s | 0 <= s <= 1 + k || 1 + k <= s <= 0 ensures OnBoard(Step(q, d, s)) && At(b, Step(q, d, s)) != 0 {
      if s == 0 {
        assert Step(q, d, s) == q;
      } else {
        WalkCell(b, q, d, c, s - 1);
      }
    }
    WalkCell(b, q, d, c, k);
  }

  /** An unbroken line read in the opposite direction. */
  lemma LinkedFlip(b: Board, q: Pos, e: Dir, t: int)
    requires IsDir(e) && Linked(b, q, (-e.0, -e.1), t)
    ensures Linked(b, q, e, -t)
  {
    forall s | 0 <= s <= -t || -t <= s <= 0 ensures OnBoard(Step(q, e, s)) && At(b, Step(q, e, s)) != 0 {
      StepFlip(q, e, -s);
      LinkedAt(b, q, (-e.0, -e.1), t, -s);
    }
  }

  /** Two unbroken lines from `q` along `e` give an unbroken line between their ends. */
  lemma LinkedShift(b: Board, q: Pos, e: Dir, t1: int, t2: int)
    requires Linked(b, q, e, t1) && Linked(b, q, e, t2)
    ensures Linked(b, Step(q, e, t1), e, t2 - t1)
    ensures Step(Step(q, e, t1), e, t2 - t1) == Step(q, e, t2)
  {
    var x := Step(q, e, t1);
    forall s | 0 <= s <= t2 - t1 || t2 - t1 <= s <= 0 ensures OnBoard(Step(x, e, s)) && At(b, Step(x, e, s)) != 0 {
      StepAdd(q, e, t1, s);
      if 0 <= t1 + s <= t1 || t1 <= t1 + s <= 0 {
        LinkedAt(b, q, e, t1, t1 + s);
      } else {
        LinkedAt(b, q, e, t2, t1 + s);
      }
    }
    StepAdd(q, e, t1, t2 - t1);
  }

  /** A disc crossed by a side walk of axis `a` lies on that axis, joined to the walk's origin. */
  lemma WalkOnLine(b: Board, q: Pos, a: int, d: Dir, c: Player, x: Pos)
    requires OnBoard(q) && At(b, q) != 0 && 0 <= a < 4
    requires d == AxisAt(a).0 || d == AxisAt(a).1
    requires x in SideWalk(b, q, d, c, 1).cells
    ensures OnLine(b, q, a, x)
  {
    var e := AxisAt(a).1;
    var w := SideWalk(b, q, d, c, 1);
    var k :| 0 <= k < |w.cells| && w.cells[k] == x;
    WalkLinked(b, q, d, c, k);
    var t := if d == e then 1 + k else -(1 + k);
    if d != e {
      LinkedFlip(b, q, e, 1 + k);
      StepFlip(q, e, 1 + k);
    }
    OnLineAt(b, q, a, t, x);
  }

  lemma OnLineAt(b: Board, q: Pos, a: int, t: int, x: Pos)
    requires 0 <= a < 4 && Linked(b, q, AxisAt(a).1, t) && Step(q, AxisAt(a).1, t) == x
    ensures OnLine(b, q, a, x)
  {
  }

  /** A verdict justified for `piece` is justified for every disc of its colour joined to it on that axis. */
  lemma JustifiedAlong(b: Board, piece: Pos, q: Pos, a: int, v: Slot)
    requires 0 <= a < 4 && Justified(b, piece, a, v) && OnLine(b, piece, a, q)
    requires OnBoard(q) && At(b, q) == At(b, piece)
    ensures Justified(b, q, a, v)
  {
    var e := AxisAt(a).1;
    var t2 :| Linked(b, piece, e, t2) && At(b, Step(piece, e, t2)) == At(b, piece)
      && v == AxisVerdict(b, Step(piece, e, t2), a);
    var t1 :| Linked(b, piece, e, t1) && Step(piece, e, t1) == q;
    LinkedShift(b, piece, e, t1, t2);
    assert Linked(b, q, e, t2 - t1) && Step(q, e, t2 - t1) == Step(piece, e, t2);
  }

  /** Recording a justified verdict keeps the memo sound. */
  lemma SoundUpdate(b: Board, memo: Memo, q: Pos, a: int, v: Slot)
    requires SlotsSound(b, memo) && q in memo && 0 <= a < 4 && a < |memo[q]| && Justified(b, q, a, v)
    ensures SlotsSound(b, memo[q := memo[q][a := Some(v)]])
  {
    var m: Memo := memo[q := memo[q][a := Some(v)]];
    forall x, k | x in m && 0 <= k < 4 && k < |m[x]| && m[x][k].Some? ensures Justified(b, x, k, m[x][k].value) {
      if x != q || k != a {
        assert m[x][k] == memo[x][k];
      }
    }
  }

  // ---------------------------------------------------------------------
  // The memo

  /** The memo has a four-slot entry for every occupied square and nothing else. */
  ghost predicate MemoFor(b: Board, memo: Memo) {
    && (forall q :: q in memo <==> OnBoard(q) && At(b, q) != 0)
    && (forall q :: q in memo ==> |memo[q]| == 4)
  }

  /** The slots not yet decided. */
  function Unfilled(memo: Memo): set<(Pos, int)> {
    set q, a | q in memo && 0 <= a < |memo[q]| && memo[q][a].None? :: (q, a)
  }

  lemma {:induction false} SubsetCard<T>(x: set<T>, y: set<T>)
    requires x <= y
    ensures |x| <= |y|
    ensures x < y ==> |x| < |y|
  {
    if x != {} {
      var e :| e in x;
      SubsetCard(x - {e}, y - {e});
    } else if x < y {
      var e :| e in y;
    }
  }

  /** Writing a decided slot never creates an undecided one. */
  lemma FillShrinks(memo: Memo, q: Pos, a: int, v: Slot)
    requires q in memo && 0 <= a < |memo[q]|
    ensures Unfilled(memo[q := memo[q][a := Some(v)]]) == Unfilled(memo) - {(q, a)}
  {
    var m := memo[q := memo[q][a := Some(v)]];
    forall e ensures e in Unfilled(m) <==> e in Unfilled(memo) - {(q, a)} {
      if e in Unfilled(m) {
        assert e.0 in m && 0 <= e.1 < |m[e.0]| && m[e.0][e.1].None?;
      }
      if e in Unfilled(memo) - {(q, a)} {
        assert e.0 in memo && 0 <= e.1 < |memo[e.0]| && memo[e.0][e.1].None?;
      }
    }
  }

  /** The discs a walk crosses are occupied squares other than its origin. */
  lemma WalkCells(b: Board, q: Pos, d: Dir, c: Player, memo: Memo)
    requires MemoFor(b, memo) && OnBoard(q) && IsDir(d)
    ensures forall x :: x in SideWalk(b, q, d, c, 1).cells ==> x in memo && x != q
  {
    var w := SideWalk(b, q, d, c, 1);
    WalkFacts(b, q, d, c, 1);
    forall x | x in w.cells ensures x in memo && x != q {
      var k :| 0 <= k < |w.cells| && w.cells[k] == x;
      assert Step(q, d, 0) == q;
      if x == q {
        StepInjective(q, d, 1 + k, 0);
      }
    }
  }

  // ---------------------------------------------------------------------
  // protection

  /** `protection(piece)`: decide every undecided slot of `piece`. */
  function Protect(b: Board, piece: Pos, memo: Memo): (m: Memo)
    requires MemoFor(b, memo) && piece in memo && SlotsSound(b, memo)
    ensures MemoFor(b, m) && Unfilled(m) <= Unfilled(memo)
    ensures forall a :: 0 <= a < 4 ==> m[piece][a].Some?
    ensures SlotsSound(b, m)
    decreases |Unfilled(memo)|, 2, 0
  {
    ProtectAxes(b, piece, memo, 0)
  }

  /** The verdict `protection` reaches for `piece` on axis `a` from the two side walks. */
  function AxisVerdict(b: Board, piece: Pos, a: int): Slot
    requires OnBoard(piece) && At(b, piece) != 0 && 0 <= a < 4
  {
    var c: Player := At(b, piece);
    Classify(SideWalk(b, piece, AxisAt(a).0, c, 1), SideWalk(b, piece, AxisAt(a).1, c, 1))
  }

  /** The discs crossed on axis `a` from `piece`, in the order they are recorded. */
  function AxisPassed(b: Board, piece: Pos, a: int, memo: Memo): (r: seq<Pos>)
    requires MemoFor(b, memo) && OnBoard(piece) && At(b, piece) != 0 && 0 <= a < 4
    ensures forall x :: x in r ==> x in memo && x != piece && OnLine(b, piece, a, x)
  {
    var c: Player := At(b, piece);
    WalkCells(b, piece, AxisAt(a).0, c, memo);
    WalkCells(b, piece, AxisAt(a).1, c, memo);
    WalksOnLine(b, piece, a);
    Interleave(SideWalk(b, piece, AxisAt(a).0, c, 1).cells, SideWalk(b, piece, AxisAt(a).1, c, 1).cells)
  }

  /** Every disc crossed on axis `a` from `piece` is joined to it along that axis. */
  lemma WalksOnLine(b: Board, piece: Pos, a: int)
    requires OnBoard(piece) && At(b, piece) != 0 && 0 <= a < 4
    ensures var c: Player := At(b, piece);
      forall x :: x in SideWalk(b, piece, AxisAt(a).0, c, 1).cells || x in SideWalk(b, piece, AxisAt(a).1, c, 1).cells ==>
        OnLine(b, piece, a, x)
  {
    var c: Player := At(b, piece);
    forall x | x in SideWalk(b, piece, AxisAt(a).0, c, 1).cells || x in SideWalk(b, piece, AxisAt(a).1, c, 1).cells
      ensures OnLine(b, piece, a, x)
    {
      if x in SideWalk(b, piece, AxisAt(a).0, c, 1).cells {
        WalkOnLine(b, piece, a, AxisAt(a).0, c, x);
      } else {
        WalkOnLine(b, piece, a, AxisAt(a).1, c, x);
      }
    }
  }

  /** Record verdict `v` in the undecided slot `a` of `piece`. */
  function Decide(b: Board, piece: Pos, a: int, v: Slot, memo: Memo): (m: Memo)
    requires MemoFor(b, memo) && piece in memo && 0 <= a < 4 && memo[piece][a].None?
    ensures MemoFor(b, m) && Unfilled(m) <= Unfilled(memo) && |Unfilled(m)| < |Unfilled(memo)|
    ensures m == memo[piece := memo[piece][a := Some(v)]]
    ensures m[piece][a] == Some(v)
    ensures forall k :: 0 <= k < 4 && memo[piece][k].Some? ==> m[piece][k].Some?
  {
    var m := memo[piece := memo[piece][a := Some(v)]];
    FillShrinks(memo, piece, a, v);
    assert (piece, a) in Unfilled(memo);
    SubsetCard(Unfilled(m), Unfilled(memo));
    m
  }

  /** The loop of `protection` over the axes `a..3`. A slot that is already
      decided (possibly by a recursive call made for an earlier axis) is skipped. */
  function ProtectAxes(b: Board, piece: Pos, memo: Memo, a: int): (m: Memo)
    requires MemoFor(b, memo) && piece in memo && 0 <= a <= 4 && SlotsSound(b, memo)
    requires forall k :: 0 <= k < a ==> memo[piece][k].Some?
    ensures MemoFor(b, m) && Unfilled(m) <= Unfilled(memo)
    ensures forall k :: 0 <= k < 4 ==> m[piece][k].Some?
    ensures SlotsSound(b, m)
    decreases |Unfilled(memo)|, 1, 4 - a
  {
    if a == 4 then memo
    else if memo[piece][a].Some? then ProtectAxes(b, piece, memo, a + 1)
    else
      var v := AxisVerdict(b, piece, a);
      var m1 := Decide(b, piece, a, v, memo);
      SelfJustified(b, piece, a);
      SoundUpdate(b, memo, piece, a, v);
      var m2 := Spread(b, piece, a, AxisPassed(b, piece, a, m1), m1);
      SubsetCard(Unfilled(m2), Unfilled(m1));
      StaysDecided(memo, m1, m2, piece, a, v);
      ProtectAxes(b, piece, m2, a + 1)
  }

  /** Deciding slot `a` of `piece` and then opening no slot keeps slots `0..a` of `piece` decided. */
  lemma StaysDecided(memo: Memo, m1: Memo, m2: Memo, piece: Pos, a: int, v: Slot)
    requires piece in memo && |memo[piece]| == 4 && 0 <= a < 4
    requires forall k :: 0 <= k < a ==> memo[piece][k].Some?
    requires m1 == memo[piece := memo[piece][a := Some(v)]]
    requires piece in m2 && |m2[piece]| == 4 && Unfilled(m2) <= Unfilled(m1)
    ensures forall k :: 0 <= k <= a ==> m2[piece][k].Some?
  {
    forall k | 0 <= k <= a ensures m2[piece][k].Some? {
      assert m1[piece][k].Some?;
      assert (piece, k) !in Unfilled(m1);
      assert (piece, k) !in Unfilled(m2);
    }
  }

  /** The loop of `protection` over the crossed discs: a disc of the same
      colour inherits the verdict just reached for this axis, and every
      crossed disc is then processed in turn. */
  function Spread(b: Board, piece: Pos, a: int, passed: seq<Pos>, memo: Memo): (m: Memo)
    requires MemoFor(b, memo) && piece in memo && 0 <= a < 4 && memo[piece][a].Some? && SlotsSound(b, memo)
    requires forall x :: x in passed ==> x in memo && x != piece && OnLine(b, piece, a, x)
    ensures MemoFor(b, m) && Unfilled(m) <= Unfilled(memo)
    ensures m[piece][a].Some?
    ensures SlotsSound(b, m)
    decreases |Unfilled(memo)| + 1, 0, |passed|
  {
    if |passed| == 0 then memo
    else
      var q := passed[0];
      var m1 := if At(b, q) == At(b, piece) then memo[q := memo[q][a := memo[piece][a]]] else memo;
      assert Unfilled(m1) <= Unfilled(memo) && SlotsSound(b, m1) by {
        if At(b, q) == At(b, piece) {
          FillShrinks(memo, q, a, memo[piece][a].value);
          JustifiedAlong(b, piece, q, a, memo[piece][a].value);
          SoundUpdate(b, memo, q, a, memo[piece][a].value);
        }
      }
      SubsetCard(Unfilled(m1), Unfilled(memo));
      var m2 := Protect(b, q, m1);
      assert m2[piece][a].Some? by {
        assert (piece, a) !in Unfilled(m2);
      }
      SubsetCard(Unfilled(m2), Unfilled(memo));
      Spread(b, piece, a, passed[1..], m2)
  }

  // ---------------------------------------------------------------------
  // stability

  /** Position in the order `np.where` lists occupied squares: `x` outer, `y` inner. */
  function Index(q: Pos): int {
    q.0 * 8 + q.1
  }

  lemma IndexInverse(q: Pos)
    requires OnBoard(q)
    ensures 0 <= Index(q) < 64 && q == (Index(q) / 8, Index(q) % 8)
  {
  }

  /** The occupied squares whose index is `k` or later, in index order. */
  function DiscsFrom(b: Board, k: int): (r: seq<Pos>)
    requires 0 <= k <= 64
    ensures forall i :: 0 <= i < |r| ==> OnBoard(r[i]) && k <= Index(r[i]) && At(b, r[i]) != 0
    ensures forall i, j :: 0 <= i < j < |r| ==> Index(r[i]) < Index(r[j])
    ensures forall q :: OnBoard(q) && k <= Index(q) && At(b, q) != 0 ==> q in r
    decreases 64 - k, b  // `b` only blocks literal unrolling, as in `Run`
  {
    if k == 64 then []
    else
      var q := (k / 8, k % 8);
      var rest := DiscsFrom(b, k + 1);
      DiscStep(b, k, rest);
      if At(b, q) != 0 then [q] + rest else rest
  }

  /** One step of the scan: square `k` goes in front of the list for `k + 1` when it is occupied. */
  lemma DiscStep(b: Board, k: int, rest: seq<Pos>)
    requires 0 <= k < 64
    requires forall i :: 0 <= i < |rest| ==> OnBoard(rest[i]) && k + 1 <= Index(rest[i]) && At(b, rest[i]) != 0
    requires forall i, j :: 0 <= i < j < |rest| ==> Index(rest[i]) < Index(rest[j])
    requires forall q :: OnBoard(q) && k + 1 <= Index(q) && At(b, q) != 0 ==> q in rest
    ensures var q := (k / 8, k % 8);
      var r := if At(b, q) != 0 then [q] + rest else rest;
      && (forall i :: 0 <= i < |r| ==> OnBoard(r[i]) && k <= Index(r[i]) && At(b, r[i]) != 0)
      && (forall i, j :: 0 <= i < j < |r| ==> Index(r[i]) < Index(r[j]))
      && (forall c :: OnBoard(c) && k <= Index(c) && At(b, c) != 0 ==> c in r)
  {
    var q := (k / 8, k % 8);
    IndexKeys(k);
    if At(b, q) != 0 {
      DiscCons(b, k, q, rest);
    }
  }

  /** Every square at index `k` or later is square `k` or comes after it. */
  lemma IndexKeys(k: int)
    requires 0 <= k < 64
    ensures OnBoard((k / 8, k % 8)) && Index((k / 8, k % 8)) == k
    ensures forall c :: OnBoard(c) && k <= Index(c) && c != (k / 8, k % 8) ==> k + 1 <= Index(c)
  {
    forall c | OnBoard(c) && k <= Index(c) && c != (k / 8, k % 8) ensures k + 1 <= Index(c) { IndexInverse(c); }
  }

  lemma DiscCons(b: Board, k: int, q: Pos, rest: seq<Pos>)
    requires OnBoard(q) && Index(q) == k && At(b, q) != 0
    requires forall i :: 0 <= i < |rest| ==> OnBoard(rest[i]) && k + 1 <= Index(rest[i]) && At(b, rest[i]) != 0
    requires forall i, j :: 0 <= i < j < |rest| ==> Index(rest[i]) < Index(rest[j])
    ensures var r := [q] + rest;
      && (forall i :: 0 <= i < |r| ==> OnBoard(r[i]) && k <= Index(r[i]) && At(b, r[i]) != 0)
      && (forall i, j :: 0 <= i < j < |r| ==> Index(r[i]) < Index(r[j]))
  {
    var r := [q] + rest;
    assert forall i :: 0 < i < |r| ==> r[i] == rest[i - 1];
  }

  /** The `discs` list of `stability`: every occupied square once, `x` outer, `y` inner. */
  function Discs(b: Board): (r: seq<Pos>)
    ensures forall q :: q in r <==> OnBoard(q) && At(b, q) != 0
    ensures forall i, j :: 0 <= i < j < |r| ==> r[i].0 < r[j].0 || (r[i].0 == r[j].0 && r[i].1 < r[j].1)
  {
    var r := DiscsFrom(b, 0);
    forall i, j | 0 <= i < j < |r| ensures r[i].0 < r[j].0 || (r[i].0 == r[j].0 && r[i].1 < r[j].1) {
      IndexInverse(r[i]);
      IndexInverse(r[j]);
    }
    r
  }

  lemma DiscsNonEmpty(b: Board)
    ensures HasDisc(b) <==> |Discs(b)| > 0
  {
    HasDiscIff(b);
    if HasDisc(b) {
      var c :| OnBoard(c) && At(b, c) != 0;
      assert c in Discs(b);
    }
    if |Discs(b)| > 0 {
      assert Discs(b)[0] in Discs(b);
    }
  }

  /** The memo `stability` starts from: every occupied square with four undecided slots. */
  function FreshMemo(b: Board): (m: Memo)
    ensures MemoFor(b, m)
    ensures forall q :: q in m ==> m[q] == [None, None, None, None]
  {
    map q | q in Discs(b) :: [None, None, None, None]
  }

  /** The memo after `protection` has run from the first disc. */
  function Verdicts(b: Board): (m: Memo)
    requires HasDisc(b)
    ensures MemoFor(b, m) && SlotsSound(b, m)
    ensures |Discs(b)| > 0 && forall a :: 0 <= a < 4 ==> m[Discs(b)[0]][a].Some?
  {
    DiscsNonEmpty(b);
    assert SlotsSound(b, FreshMemo(b));
    Protect(b, Discs(b)[0], FreshMemo(b))
  }

  /** The three buckets of `stability`. */
  datatype Bucket = Stable | Danger | Unsafe

  /** All four verdicts protected: stable; otherwise any verdict takeable:
      in danger; otherwise (including undecided slots) unprotected. */
  function BucketOf(slots: seq<Option<Slot>>): (r: Bucket)
    requires |slots| == 4
    ensures r == Stable <==> forall a :: 0 <= a < 4 ==> slots[a] == Some(Protected)
    ensures r == Danger <==> (exists a :: 0 <= a < 4 && slots[a] == Some(Takeable))
  {
    if forall a :: 0 <= a < 4 ==> slots[a] == Some(Protected) then Stable
    else if exists a :: 0 <= a < 4 && slots[a] == Some(Takeable) then Danger
    else Unsafe
  }

  /** The six counters of `stability`: stable, in-danger and unprotected
      discs, for the player and for the opponent. */
  datatype Counts = Counts(stable: nat, stableOpp: nat, danger: nat, dangerOpp: nat, unprot: nat, unprotOpp: nat)

  function Total(t: Counts): nat {
    t.stable + t.stableOpp + t.danger + t.dangerOpp + t.unprot + t.unprotOpp
  }

  /** The same counts seen from the other side. */
  function Swap(t: Counts): Counts {
    Counts(t.stableOpp, t.stable, t.dangerOpp, t.danger, t.unprotOpp, t.unprot)
  }

  function Bump(t: Counts, k: Bucket, mine: bool): (r: Counts)
    ensures Total(r) == Total(t) + 1
  {
    match k
    case Stable => if mine then t.(stable := t.stable + 1) else t.(stableOpp := t.stableOpp + 1)
    case Danger => if mine then t.(danger := t.danger + 1) else t.(dangerOpp := t.dangerOpp + 1)
    case Unsafe => if mine then t.(unprot := t.unprot + 1) else t.(unprotOpp := t.unprotOpp + 1)
  }

  lemma BumpSwap(t: Counts, k: Bucket, mine: bool)
    ensures Bump(Swap(t), k, !mine) == Swap(Bump(t, k, mine))
  {
  }

  /** The counting loop of `stability` over `ds`: a disc not of colour `p` counts for the opponent. */
  function CountBuckets(b: Board, p: Player, memo: Memo, ds: seq<Pos>): (t: Counts)
    requires MemoFor(b, memo) && forall q :: q in ds ==> q in memo
    ensures Total(t) == |ds|
  {
    if |ds| == 0 then Counts(0, 0, 0, 0, 0, 0)
    else Bump(CountBuckets(b, p, memo, ds[1..]), BucketOf(memo[ds[0]]), At(b, ds[0]) == p)
  }

  /** `stability`: run `protection` from the first disc and bucket every disc. */
  function StabilityCounts(p: Player, b: Board): (t: Counts)
    requires HasDisc(b)
    ensures Total(t) == |Discs(b)|
  {
    CountBuckets(b, p, Verdicts(b), Discs(b))
  }

  /** Counting for the opponent swaps mine and theirs, provided every counted square holds a disc. */
  lemma {:induction false} CountBucketsSwap(b: Board, p: Player, memo: Memo, ds: seq<Pos>)
    requires MemoFor(b, memo) && forall q :: q in ds ==> q in memo
    ensures CountBuckets(b, Opp(p), memo, ds) == Swap(CountBuckets(b, p, memo, ds))
  {
    if |ds| > 0 {
      CountBucketsSwap(b, p, memo, ds[1..]);
      assert (At(b, ds[0]) == Opp(p)) == !(At(b, ds[0]) == p);
      BumpSwap(CountBuckets(b, p, memo, ds[1..]), BucketOf(memo[ds[0]]), At(b, ds[0]) == p);
    }
  }

  /** The stability counts of the opponent are the player's with the two sides exchanged. */
  lemma StabilitySwap(p: Player, b: Board)
    requires HasDisc(b)
    ensures StabilityCounts(Opp(p), b) == Swap(StabilityCounts(p, b))
  {
    CountBucketsSwap(b, p, Verdicts(b), Discs(b));
  }
}
