/** The static evaluation of a position from one side's point of view:
    disc parity, mobility, corners held, discs next to empty corners and
    stability, combined with fixed weights. */
module Evaluation {
  import opened Othello
  import opened OthelloFacts
  import opened Stability

  /** `100 * (x - y) / (x + y)`: the share by which `x` leads `y`, in percent. */
  function Percent(x: nat, y: nat): (r: real)
    requires x + y > 0
    ensures -100.0 <= r <= 100.0
    ensures r > 0.0 <==> x > y
    ensures r == 0.0 <==> x == y
  {
    var d := (x - y) as real;
    var s := (x + y) as real;
    Ratio(d, s);
    100.0 * (d / s)
  }

  /** A quotient whose numerator is no larger in size than its positive denominator. */
  lemma Ratio(d: real, s: real)
    requires s > 0.0 && -s <= d <= s
    ensures -1.0 <= d / s <= 1.0
    ensures d / s > 0.0 <==> d > 0.0
    ensures d / s == 0.0 <==> d == 0.0
  {
    var q := d / s;
    assert q * s == d;
  }

  lemma PercentSwap(x: nat, y: nat)
    requires x + y > 0
    ensures Percent(y, x) == -Percent(x, y)
  {
  }

  // ---------------------------------------------------------------------
  // coin_parity

  /** `coin_parity`: disc-count lead of `p` in percent of all discs. The
      source divides by the disc count, so the board must hold a disc. */
  function CoinParity(p: Player, b: Board): (r: real)
    requires HasDisc(b)
    ensures -100.0 <= r <= 100.0
    ensures r > 0.0 <==> Count(b, p) > Count(b, Opp(p))
    ensures r == 0.0 <==> Count(b, p) == Count(b, Opp(p))
  {
    if p == Black then Percent(NumBlack(b), NumWhite(b)) else Percent(NumWhite(b), NumBlack(b))
  }

  lemma CoinParitySwap(p: Player, b: Board)
    requires HasDisc(b)
    ensures CoinParity(Opp(p), b) == -CoinParity(p, b)
  {
    PercentSwap(NumBlack(b), NumWhite(b));
  }

  // ---------------------------------------------------------------------
  // mobility

  /** The number of moves `get_moves` offers `p` on board `b`; None counts as none. */
  function MoveCount(b: Board, p: Player): (n: nat)
    ensures n == |LegalMoves(b, p)|
    ensures n == 0 <==> forall q :: OnBoard(q) ==> !IsValid(b, p, q)
  {
    match GetMoves(State(b, p, false, false)).0
    case None => 0
    case Some(ms) => |ms|
  }

  /** `mobility`: move-count lead of `p` in percent of all moves, 0 when neither side can move. */
  function Mobility(p: Player, b: Board): (r: real)
    ensures -100.0 <= r <= 100.0
    ensures r > 0.0 <==> MoveCount(b, p) > MoveCount(b, Opp(p))
    ensures r == 0.0 <==> MoveCount(b, p) == MoveCount(b, Opp(p))
  {
    var mine := MoveCount(b, p);
    var theirs := MoveCount(b, Opp(p));
    if mine == 0 && theirs == 0 then 0.0 else Percent(mine, theirs)
  }

  lemma MobilitySwap(p: Player, b: Board)
    ensures Mobility(Opp(p), b) == -Mobility(p, b)
  {
    var mine := MoveCount(b, p);
    var theirs := MoveCount(b, Opp(p));
    if mine + theirs > 0 {
      PercentSwap(mine, theirs);
    }
  }

  // ---------------------------------------------------------------------
  // Tallying squares

  /** Over the squares `cs`: how many hold a disc of `p`, and how many a disc of the opponent. */
  function Tally(b: Board, p: Player, cs: seq<Pos>, i: nat): (t: (nat, nat))
    requires i <= |cs| && forall k :: 0 <= k < |cs| ==> OnBoard(cs[k])
    ensures t.0 + t.1 <= |cs| - i
    decreases |cs| - i, b  // `b` only blocks literal unrolling, as in `Run`
  {
    if i == |cs| then (0, 0)
    else
      var t := Tally(b, p, cs, i + 1);
      if At(b, cs[i]) == p then (t.0 + 1, t.1)
      else if At(b, cs[i]) == Opp(p) then (t.0, t.1 + 1)
      else t
  }

  /** The first count is full exactly when every square holds `p`, the second exactly when every square holds the opponent. */
  lemma {:induction false} TallyFull(b: Board, p: Player, cs: seq<Pos>, i: nat)
    requires i <= |cs| && forall k :: 0 <= k < |cs| ==> OnBoard(cs[k])
    ensures Tally(b, p, cs, i).0 == |cs| - i <==> forall k :: i <= k < |cs| ==> At(b, cs[k]) == p
    ensures Tally(b, p, cs, i).1 == |cs| - i <==> forall k :: i <= k < |cs| ==> At(b, cs[k]) == Opp(p)
    decreases |cs| - i
  {
    if i < |cs| {
      TallyFull(b, p, cs, i + 1);
    }
  }

  lemma {:induction false} TallySwap(b: Board, p: Player, cs: seq<Pos>, i: nat)
    requires i <= |cs| && forall k :: 0 <= k < |cs| ==> OnBoard(cs[k])
    ensures Tally(b, Opp(p), cs, i) == (Tally(b, p, cs, i).1, Tally(b, p, cs, i).0)
    decreases |cs| - i
  {
    if i < |cs| {
      TallySwap(b, p, cs, i + 1);
    }
  }

  // ---------------------------------------------------------------------
  // corners_captured

  /** The corners, in the order `corners_captured` visits them. */
  const Corners: seq<Pos> := [(0, 0), (7, 0), (0, 7), (7, 7)]

  /** `corners_captured`: 25 points per corner held by `p`, minus 25 per corner held by the opponent. */
  function CornersCaptured(p: Player, b: Board): (r: int)
    ensures -100 <= r <= 100
    ensures r == 100 <==> forall k :: 0 <= k < 4 ==> At(b, Corners[k]) == p
    ensures r == -100 <==> forall k :: 0 <= k < 4 ==> At(b, Corners[k]) == Opp(p)
  {
    var t := Tally(b, p, Corners, 0);
    TallyFull(b, p, Corners, 0);
    25 * (t.0 - t.1)
  }

  lemma CornersSwap(p: Player, b: Board)
    ensures CornersCaptured(Opp(p), b) == -CornersCaptured(p, b)
  {
    TallySwap(b, p, Corners, 0);
  }

  // ---------------------------------------------------------------------
  // corner_closeness

  /** Each corner with its three neighbours, in the order `corner_closeness` visits them. */
  const Zones: seq<(Pos, seq<Pos>)> := [
    ((0, 0), [(0, 1), (1, 0), (1, 1)]),
    ((0, 7), [(0, 6), (1, 7), (1, 6)]),
    ((7, 0), [(7, 1), (6, 0), (6, 1)]),
    ((7, 7), [(7, 6), (6, 7), (6, 6)])]

  /** Over the zones `zs` whose corner is empty: discs of `p` and of the opponent next to it. */
  function ZoneTally(b: Board, p: Player, zs: seq<(Pos, seq<Pos>)>, i: nat): (t: (nat, nat))
    requires i <= |zs|
    requires forall k :: 0 <= k < |zs| ==> OnBoard(zs[k].0) && |zs[k].1| == 3
    requires forall k, j :: 0 <= k < |zs| && 0 <= j < 3 ==> OnBoard(zs[k].1[j])
    ensures t.0 + t.1 <= 3 * (|zs| - i)
    ensures (forall k :: i <= k < |zs| ==> At(b, zs[k].0) != 0) ==> t == (0, 0)
    decreases |zs| - i, b  // `b` only blocks literal unrolling, as in `Run`
  {
    if i == |zs| then (0, 0)
    else
      var rest := ZoneTally(b, p, zs, i + 1);
      if At(b, zs[i].0) == 0 then
        var t := Tally(b, p, zs[i].1, 0);
        (t.0 + rest.0, t.1 + rest.1)
      else rest
  }

  /** The squares next to the empty corners among `zs[i..]`, zone by zone. */
  function OpenSquares(b: Board, zs: seq<(Pos, seq<Pos>)>, i: nat): (r: seq<Pos>)
    requires i <= |zs|
    requires forall k :: 0 <= k < |zs| ==> OnBoard(zs[k].0)
    ensures forall x :: x in r <==> exists k :: i <= k < |zs| && At(b, zs[k].0) == 0 && x in zs[k].1
    decreases |zs| - i
  {
    if i == |zs| then []
    else if At(b, zs[i].0) == 0 then zs[i].1 + OpenSquares(b, zs, i + 1)
    else OpenSquares(b, zs, i + 1)
  }

  /** Counting over two lists one after the other adds the counts. */
  lemma {:induction false} TallyAppend(b: Board, p: Player, xs: seq<Pos>, ys: seq<Pos>, i: nat)
    requires i <= |xs|
    requires forall k :: 0 <= k < |xs| ==> OnBoard(xs[k])
    requires forall k :: 0 <= k < |ys| ==> OnBoard(ys[k])
    ensures forall k :: 0 <= k < |xs + ys| ==> OnBoard((xs + ys)[k])
    ensures var t, u, v := Tally(b, p, xs + ys, i), Tally(b, p, xs, i), Tally(b, p, ys, 0);
      t == (u.0 + v.0, u.1 + v.1)
    decreases |xs| - i
  {
    if i == |xs| {
      TallyShift(b, p, xs, ys, 0);
    } else {
      TallyAppend(b, p, xs, ys, i + 1);
      assert (xs + ys)[i] == xs[i];
    }
  }

  /** Counting the tail `ys` of `xs + ys` from its start counts `ys`. */
  lemma {:induction false} TallyShift(b: Board, p: Player, xs: seq<Pos>, ys: seq<Pos>, j: nat)
    requires j <= |ys|
    requires forall k :: 0 <= k < |xs| ==> OnBoard(xs[k])
    requires forall k :: 0 <= k < |ys| ==> OnBoard(ys[k])
    ensures forall k :: 0 <= k < |xs + ys| ==> OnBoard((xs + ys)[k])
    ensures Tally(b, p, xs + ys, |xs| + j) == Tally(b, p, ys, j)
    decreases |ys| - j
  {
    if j < |ys| {
      TallyShift(b, p, xs, ys, j + 1);
      assert (xs + ys)[|xs| + j] == ys[j];
      assert |xs| + j + 1 == |xs| + (j + 1);
    }
  }

  /** `corner_closeness` counts exactly the discs next to empty corners: the
      zone of an occupied corner contributes nothing. */
  lemma {:induction false} ZoneTallyOpen(b: Board, p: Player, zs: seq<(Pos, seq<Pos>)>, i: nat)
    requires i <= |zs|
    requires forall k :: 0 <= k < |zs| ==> OnBoard(zs[k].0) && |zs[k].1| == 3
    requires forall k, j :: 0 <= k < |zs| && 0 <= j < 3 ==> OnBoard(zs[k].1[j])
    ensures forall k :: 0 <= k < |OpenSquares(b, zs, i)| ==> OnBoard(OpenSquares(b, zs, i)[k])
    ensures ZoneTally(b, p, zs, i) == Tally(b, p, OpenSquares(b, zs, i), 0)
    decreases |zs| - i
  {
    var r := OpenSquares(b, zs, i);
    forall k | 0 <= k < |r| ensures OnBoard(r[k]) {
      assert r[k] in r;
    }
    if i < |zs| {
      ZoneTallyOpen(b, p, zs, i + 1);
      if At(b, zs[i].0) == 0 {
        TallyAppend(b, p, zs[i].1, OpenSquares(b, zs, i + 1), 0);
      }
    }
  }

  lemma {:induction false} ZoneTallySwap(b: Board, p: Player, zs: seq<(Pos, seq<Pos>)>, i: nat)
    requires i <= |zs|
    requires forall k :: 0 <= k < |zs| ==> OnBoard(zs[k].0) && |zs[k].1| == 3
    requires forall k, j :: 0 <= k < |zs| && 0 <= j < 3 ==> OnBoard(zs[k].1[j])
    ensures ZoneTally(b, Opp(p), zs, i) == (ZoneTally(b, p, zs, i).1, ZoneTally(b, p, zs, i).0)
    decreases |zs| - i
  {
    if i < |zs| {
      ZoneTallySwap(b, p, zs, i + 1);
      TallySwap(b, p, zs[i].1, 0);
    }
  }

  /** `corner_closeness`: 12.5 points per disc of `p` next to an empty
      corner, minus 12.5 per such disc of the opponent. */
  function CornerCloseness(p: Player, b: Board): (r: real)
    ensures -150.0 <= r <= 150.0
    ensures (forall k :: 0 <= k < 4 ==> At(b, Corners[k]) != 0) ==> r == 0.0
  {
    var t := ZoneTally(b, p, Zones, 0);
    assert forall k :: 0 <= k < 4 ==> Zones[k].0 in Corners;
    25.0 / 2.0 * (t.0 - t.1) as real
  }

  lemma ClosenessSwap(p: Player, b: Board)
    ensures CornerCloseness(Opp(p), b) == -CornerCloseness(p, b)
  {
    ZoneTallySwap(b, p, Zones, 0);
  }

  // ---------------------------------------------------------------------
  // stability_heuristic

  /** Weighted stability score of one side: 1 per stable disc, -1 per
      disc in danger, -0.05 per unprotected disc. */
  function Weighted(stable: nat, danger: nat, unprot: nat): real {
    stable as real - danger as real - unprot as real / 20.0
  }

  /** `100 * (x - y) / (x + y)` for two scores that may be negative; 0 when they sum to 0. */
  function Relative(x: real, y: real): (r: real)
    ensures x == y ==> r == 0.0
    ensures x + y > 0.0 ==> (r > 0.0 <==> x > y)
  {
    if x + y != 0.0 then
      var r := 100.0 * (x - y) / (x + y);
      assert r * (x + y) == 100.0 * (x - y);
      r
    else 0.0
  }

  lemma RelativeSwap(x: real, y: real)
    ensures Relative(y, x) == -Relative(x, y)
  {
    if x + y != 0.0 {
      var r := Relative(x, y);
      assert r * (x + y) == 100.0 * (x - y);
      assert -r * (y + x) == 100.0 * (y - x);
    }
  }

  /** `stability_heuristic`: lead of `p` in weighted stability, relative to
      the sum of both scores; 0 when that sum is 0. */
  function StabilityScore(p: Player, b: Board): real
    requires HasDisc(b)
  {
    var t := StabilityCounts(p, b);
    Relative(Weighted(t.stable, t.danger, t.unprot), Weighted(t.stableOpp, t.dangerOpp, t.unprotOpp))
  }

  lemma StabilityScoreSwap(p: Player, b: Board)
    requires HasDisc(b)
    ensures StabilityScore(Opp(p), b) == -StabilityScore(p, b)
  {
    StabilitySwap(p, b);
    var t := StabilityCounts(p, b);
    RelativeSwap(Weighted(t.stable, t.danger, t.unprot), Weighted(t.stableOpp, t.dangerOpp, t.unprotOpp));
  }

  // ---------------------------------------------------------------------
  // heuristic

  /** `heuristic`: the weighted sum of the five measures from `p`'s point of view. */
  function Heuristic(p: Player, b: Board): real
    requires HasDisc(b)
  {
    10.0 * Mobility(p, b) + 70.0 * CoinParity(p, b) + 800.0 * CornersCaptured(p, b) as real
      + 50.0 * StabilityScore(p, b) - 300.0 * CornerCloseness(p, b)
  }

  /** The evaluation is zero-sum: the opponent's evaluation of a board is the negation of `p`'s. */
  lemma HeuristicSwap(p: Player, b: Board)
    requires HasDisc(b)
    ensures Heuristic(Opp(p), b) == -Heuristic(p, b)
  {
    MobilitySwap(p, b);
    CoinParitySwap(p, b);
    CornersSwap(p, b);
    StabilityScoreSwap(p, b);
    ClosenessSwap(p, b);
  }

  /** Apart from stability every measure is bounded, so the rest of the sum lies within 133,000 of 0. */
  lemma HeuristicRest(p: Player, b: Board)
    requires HasDisc(b)
    ensures -133000.0 <= Heuristic(p, b) - 50.0 * StabilityScore(p, b) <= 133000.0
  {
    var m := Mobility(p, b);
    var cp := CoinParity(p, b);
    var c := CornersCaptured(p, b);
    var l := CornerCloseness(p, b);
    var rest := 10.0 * m + 70.0 * cp + 800.0 * c as real - 300.0 * l;
    assert -133000.0 <= rest <= 133000.0;
    assert Heuristic(p, b) == rest + 50.0 * StabilityScore(p, b);
  }
}
