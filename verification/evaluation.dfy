/** The static evaluation `Agent1.evaluate` and its helpers: integer
    arithmetic over group sizes, liberty counts and point sets. */
module Evaluation {
  import opened GoBoard

  /** The score of a decided game. */
  const WinScore: int := 100000

  /** The point the centre-influence bonus is measured from. */
  const Centre: Point := (10, 10)

  // ---------------------------------------------------------------------
  // Per-group tables
  // ---------------------------------------------------------------------

  /** Liberty valuation of one group; a group with no liberty scores 0. */
  function LibertyScore(liberties: nat): (r: int)
    ensures -200 <= r <= 100
    ensures r < 0 <==> liberties == 1 || liberties == 2
  {
    if liberties == 1 then -200
    else if liberties == 2 then -50
    else if liberties == 3 then 20
    else if liberties == 4 then 60
    else if liberties >= 5 then 100
    else 0
  }

  /** Size valuation of one group: between 10 and 15 points per stone. */
  function SizeScore(size: nat): (r: int)
    ensures 10 * size <= r <= 15 * size
  {
    if size == 1 then 10
    else if size == 2 then 25
    else if size <= 4 then size * 15
    else 60 + (size - 4) * 10
  }

  /** A larger group is always worth strictly more. */
  lemma SizeScoreStrictlyIncreasing(n: nat, m: nat)
    requires n < m
    ensures SizeScore(n) < SizeScore(m)
  {
  }

  /** From one liberty upwards, more liberties are never worth less. */
  lemma LibertyScoreMonotone(n: nat, m: nat)
    requires 1 <= n <= m
    ensures LibertyScore(n) <= LibertyScore(m)
  {
  }

  // ---------------------------------------------------------------------
  // Connectivity: adjacent pairs of stones inside a group
  // ---------------------------------------------------------------------

  /** The inner loop of `_evaluate_group_connectivity`: how many points of
      `l` other than `p` are neighbours of `p`. */
  function Links(p: Point, l: seq<Point>): (r: nat)
    ensures r <= |l|
    ensures r == 0 <==> forall i :: 0 <= i < |l| ==> !(p != l[i] && Adjacent(p, l[i]))
  {
    if |l| == 0 then 0
    else (if p != l[0] && Adjacent(p, l[0]) then 1 else 0) + Links(p, l[1..])
  }

  /** The outer loop: the number of ordered adjacent pairs (p, q), p taken
      from `rows` and q from `l`. */
  function OrderedLinks(rows: seq<Point>, l: seq<Point>): nat {
    if |rows| == 0 then 0
    else Links(rows[0], l) + OrderedLinks(rows[1..], l)
  }

  /** The number of unordered adjacent pairs l[i], l[j] with i < j. */
  function AdjacentPairs(l: seq<Point>): nat {
    if |l| == 0 then 0
    else Links(l[0], l[1..]) + AdjacentPairs(l[1..])
  }

  lemma {:induction false} LinksAppend(p: Point, a: seq<Point>, c: seq<Point>)
    ensures Links(p, a + c) == Links(p, a) + Links(p, c)
    decreases |a|
  {
    if |a| == 0 {
      assert a + c == c;
    } else {
      assert (a + c)[1..] == a[1..] + c;
      LinksAppend(p, a[1..], c);
    }
  }

  lemma {:induction false} OrderedLinksAppend(rows: seq<Point>, a: seq<Point>, c: seq<Point>)
    ensures OrderedLinks(rows, a + c) == OrderedLinks(rows, a) + OrderedLinks(rows, c)
    decreases |rows|
  {
    if |rows| > 0 {
      LinksAppend(rows[0], a, c);
      OrderedLinksAppend(rows[1..], a, c);
    }
  }

  /** Linking every row against the single point x counts the neighbours of
      x among the rows, because adjacency is symmetric. */
  lemma {:induction false} OrderedLinksColumn(rows: seq<Point>, x: Point)
    ensures OrderedLinks(rows, [x]) == Links(x, rows)
    decreases |rows|
  {
    if |rows| > 0 {
      AdjacentSymmetric(rows[0], x);
      OrderedLinksColumn(rows[1..], x);
    }
  }

  /** The ordered pair count is exactly twice the unordered one, so the
      halving in `_evaluate_group_connectivity` loses nothing. */
  lemma {:induction false} OrderedLinksTwiceAdjacentPairs(l: seq<Point>)
    ensures OrderedLinks(l, l) == 2 * AdjacentPairs(l)
    decreases |l|
  {
    if |l| > 0 {
      var x, t := l[0], l[1..];
      assert l == [x] + t;
      LinksAppend(x, [x], t);
      OrderedLinksAppend(t, [x], t);
      OrderedLinksColumn(t, x);
      OrderedLinksTwiceAdjacentPairs(t);
    }
  }

  /** `_evaluate_group_connectivity`: the number of unordered pairs of
      adjacent stones in the group, computed as the ordered count halved. */
  ghost function Connectivity(g: Group): (r: nat)
    ensures r == AdjacentPairs(Listing(g.points))
    ensures 2 * r == OrderedLinks(Listing(g.points), Listing(g.points))
  {
    var l := Listing(g.points);
    OrderedLinksTwiceAdjacentPairs(l);
    if |g.points| <= 1 then 0
    else OrderedLinks(l, l) / 2
  }

  // ---------------------------------------------------------------------
  // Eye potential: adjacent pairs of liberties surrounded by friends
  // ---------------------------------------------------------------------

  /** How many of the points `ns` carry a stone of colour `c`. */
  function FriendlyCount(b: Board, c: Color, ns: seq<Point>): (r: nat)
    ensures r <= |ns|
    ensures r == 0 <==> forall i :: 0 <= i < |ns| ==> !Occupied(b, c, ns[i])
    ensures r == |ns| <==> forall i :: 0 <= i < |ns| ==> Occupied(b, c, ns[i])
  {
    if |ns| == 0 then 0
    else (if Occupied(b, c, ns[0]) then 1 else 0) + FriendlyCount(b, c, ns[1..])
  }

  /** The contribution of one adjacent liberty pair. */
  function PairBonus(b: Board, c: Color, p: Point, q: Point): (r: nat)
    ensures r <= 2
    ensures r == 0 <==> FriendlyCount(b, c, Neighbors(p) + Neighbors(q)) < 3
  {
    var friendly := FriendlyCount(b, c, Neighbors(p) + Neighbors(q));
    if friendly >= 4 then 2
    else if friendly >= 3 then 1
    else 0
  }

  /** The inner loop of `_evaluate_eye_potential` for the liberty `p`. */
  function EyeRow(b: Board, c: Color, p: Point, rest: seq<Point>): (r: nat)
    ensures r <= 2 * Links(p, rest)
  {
    if |rest| == 0 then 0
    else (if Adjacent(p, rest[0]) then PairBonus(b, c, p, rest[0]) else 0) + EyeRow(b, c, p, rest[1..])
  }

  /** The outer loop: each liberty against the liberties listed after it. */
  function EyePairs(b: Board, c: Color, l: seq<Point>): (r: nat)
    ensures r <= 2 * AdjacentPairs(l)
  {
    if |l| == 0 then 0
    else EyeRow(b, c, l[0], l[1..]) + EyePairs(b, c, l[1..])
  }

  /** `_evaluate_eye_potential`: at most 2 per adjacent pair of liberties. */
  ghost function EyePotential(b: Board, g: Group, c: Color): (r: nat)
    ensures r <= 2 * AdjacentPairs(Listing(g.liberties))
  {
    if |g.liberties| < 2 then 0
    else EyePairs(b, c, Listing(g.liberties))
  }

  // ---------------------------------------------------------------------
  // Per-player score
  // ---------------------------------------------------------------------

  /** The contribution of one group to `_evaluate_player`. */
  ghost function GroupScore(b: Board, c: Color, g: Group): (r: int)
    ensures r >= LibertyScore(|g.liberties|) + SizeScore(|g.points|)
    ensures r >= -200 + 10 * |g.points|
  {
    LibertyScore(|g.liberties|) + SizeScore(|g.points|)
      + Connectivity(g) * 8 + EyePotential(b, g, c) * 15
  }

  /** The sum of `GroupScore` over the groups `gs`. */
  ghost function GroupsScore(b: Board, c: Color, gs: seq<Group>): (r: int)
    ensures r >= -200 * |gs|
  {
    if |gs| == 0 then 0
    else GroupScore(b, c, gs[0]) + GroupsScore(b, c, gs[1..])
  }

  /** `_evaluate_player`: a player loses at most 200 per group, and a player
      none of whose groups has one or two liberties never scores below zero. */
  ghost function PlayerScore(b: Board, c: Color): (r: int)
    ensures r >= -200 * |Groups(b, c)|
    ensures (forall i :: 0 <= i < |Groups(b, c)| ==> !Endangered(Groups(b, c)[i])) ==> r >= 0
  {
    SafeGroupsScore(b, c, Groups(b, c));
    GroupsScore(b, c, Groups(b, c))
  }

  /** A group with one or two liberties: the liberty table scores it
      negatively and the tactical term counts it. */
  predicate Endangered(g: Group) {
    |g.liberties| == 1 || |g.liberties| == 2
  }

  /** Groups that are not endangered all score non-negatively. */
  lemma {:induction false} SafeGroupsScore(b: Board, c: Color, gs: seq<Group>)
    ensures (forall i :: 0 <= i < |gs| ==> !Endangered(gs[i])) ==> GroupsScore(b, c, gs) >= 0
    decreases |gs|
  {
    if |gs| > 0 && forall i :: 0 <= i < |gs| ==> !Endangered(gs[i]) {
      assert !Endangered(gs[0]);
      SafeGroupsScore(b, c, gs[1..]);
      assert forall i :: 0 <= i < |gs[1..]| ==> !Endangered(gs[1..][i]) by {
        forall i | 0 <= i < |gs[1..]| ensures !Endangered(gs[1..][i]) {
          assert gs[1..][i] == gs[i + 1];
        }
      }
    }
  }

  // ---------------------------------------------------------------------
  // Tactical threats
  // ---------------------------------------------------------------------

  predicate InAtari(g: Group) {
    |g.liberties| == 1
  }

  /** The atari loop: 300 plus 20 per stone for every group in atari. */
  function AtariTerm(gs: seq<Group>): (r: int)
    ensures r >= 0
    ensures r == 0 <==> forall i :: 0 <= i < |gs| ==> !InAtari(gs[i])
  {
    if |gs| == 0 then 0
    else (if InAtari(gs[0]) then 300 + |gs[0].points| * 20 else 0) + AtariTerm(gs[1..])
  }

  /** The two-liberty loop: how many groups have exactly two liberties. */
  function WeakGroups(gs: seq<Group>): (r: nat)
    ensures r <= |gs|
    ensures r == 0 <==> forall i :: 0 <= i < |gs| ==> |gs[i].liberties| != 2
  {
    if |gs| == 0 then 0
    else (if |gs[0].liberties| == 2 then 1 else 0) + WeakGroups(gs[1..])
  }

  /** `_evaluate_tactical_threats` from the point of view of `me`: it can
      only favour the opponent when one of our groups is endangered, and only
      favour us when one of theirs is. */
  function TacticalThreats(b: Board, me: Color): (r: int)
    ensures (forall i :: 0 <= i < |Groups(b, me)| ==> !Endangered(Groups(b, me)[i])) ==> r >= 0
    ensures (forall i :: 0 <= i < |Groups(b, Opponent(me))| ==> !Endangered(Groups(b, Opponent(me))[i])) ==> r <= 0
  {
    var opp := Opponent(me);
    AtariTerm(Groups(b, opp)) - AtariTerm(Groups(b, me))
      + 80 * WeakGroups(Groups(b, opp)) - 80 * WeakGroups(Groups(b, me))
  }

  /** The tactical term is a mirror image: swapping the colours negates it. */
  lemma TacticalThreatsAntisymmetric(b: Board, me: Color)
    ensures TacticalThreats(b, Opponent(me)) == -TacticalThreats(b, me)
  {
  }

  // ---------------------------------------------------------------------
  // Influence and territory
  // ---------------------------------------------------------------------

  /** The union of the liberties of the groups `gs`. */
  function Influence(gs: seq<Group>): (s: set<Point>)
    ensures forall p :: p in s <==> exists i :: 0 <= i < |gs| && p in gs[i].liberties
  {
    if |gs| == 0 then {}
    else gs[0].liberties + Influence(gs[1..])
  }

  function Abs(x: int): nat {
    if x < 0 then -x else x
  }

  /** Manhattan distance from the centre point. */
  function CentreDistance(p: Point): nat {
    Abs(p.0 - Centre.0) + Abs(p.1 - Centre.1)
  }

  function CentreBonus(p: Point): (r: nat)
    ensures r <= 8
    ensures r > 0 <==> CentreDistance(p) <= 6
  {
    var d := CentreDistance(p);
    if d <= 3 then 8
    else if d <= 6 then 3
    else 0
  }

  /** The centre-control loop over the listed influence points. */
  function CentreSum(l: seq<Point>): (r: nat)
    ensures r <= 8 * |l|
    ensures r == 0 <==> forall i :: 0 <= i < |l| ==> CentreDistance(l[i]) > 6
  {
    if |l| == 0 then 0
    else CentreBonus(l[0]) + CentreSum(l[1..])
  }

  /** The points of `l` within distance 3 of the centre. */
  function NearCentre(l: seq<Point>): set<Point> {
    set p | p in l && CentreDistance(p) <= 3
  }

  /** The points of `l` at distance 4 to 6 from the centre. */
  function AroundCentre(l: seq<Point>): set<Point> {
    set p | p in l && 3 < CentreDistance(p) <= 6
  }

  /** Over a list without repetitions the centre sum does not depend on the
      order: 8 per near point and 3 per surrounding point. */
  lemma {:induction false} CentreSumCounts(l: seq<Point>)
    requires Distinct(l)
    ensures CentreSum(l) == 8 * |NearCentre(l)| + 3 * |AroundCentre(l)|
    decreases |l|
  {
    if |l| > 0 {
      var x, t := l[0], l[1..];
      assert Distinct(t);
      CentreSumCounts(t);
      assert x !in t;
      assert l == [x] + t;
      CentreSetsCons(x, t);
    }
  }

  lemma CentreSetsCons(x: Point, t: seq<Point>)
    requires x !in t
    ensures |NearCentre([x] + t)| == |NearCentre(t)| + (if CentreDistance(x) <= 3 then 1 else 0)
    ensures |AroundCentre([x] + t)| == |AroundCentre(t)| + (if 3 < CentreDistance(x) <= 6 then 1 else 0)
  {
    var l := [x] + t;
    assert forall p :: p in l <==> p == x || p in t;
    if CentreDistance(x) <= 3 {
      assert NearCentre(l) == NearCentre(t) + {x};
    } else {
      assert NearCentre(l) == NearCentre(t);
    }
    if 3 < CentreDistance(x) <= 6 {
      assert AroundCentre(l) == AroundCentre(t) + {x};
    } else {
      assert AroundCentre(l) == AroundCentre(t);
    }
  }

  /** `_evaluate_influence_and_territory` from the point of view of `me`:
      at least -5 per opposing influence point and at most 13 per own one. */
  ghost function Territory(b: Board, me: Color): (r: int)
    ensures -5 * |Influence(Groups(b, Opponent(me)))| <= r <= 13 * |Influence(Groups(b, me))|
  {
    var own := Influence(Groups(b, me));
    var theirs := Influence(Groups(b, Opponent(me)));
    assert own == (own - theirs) + own * theirs;
    assert theirs == (theirs - own) + own * theirs;
    var uncontestedOwn := own - theirs;
    var uncontestedTheirs := theirs - own;
    var contested := own * theirs;
    |uncontestedOwn| * 5 - |uncontestedTheirs| * 5 + |contested| * 1
      + CentreSum(Listing(own))
  }

  /** The contested/uncontested split partitions each colour's influence,
      so the territory term is 5 per own point, -5 per opposing point, +1
      per contested point, plus a centre bonus that depends only on the set
      of own influence points. */
  lemma TerritoryClosedForm(b: Board, me: Color)
    ensures var own := Influence(Groups(b, me));
            var theirs := Influence(Groups(b, Opponent(me)));
            && |own - theirs| + |own * theirs| == |own|
            && |theirs - own| + |own * theirs| == |theirs|
            && Territory(b, me)
               == 5 * |own| - 5 * |theirs| + |own * theirs|
                  + 8 * |NearCentre(Listing(own))| + 3 * |AroundCentre(Listing(own))|
  {
    var own := Influence(Groups(b, me));
    var theirs := Influence(Groups(b, Opponent(me)));
    assert own == (own - theirs) + own * theirs;
    assert theirs == (theirs - own) + own * theirs;
    CentreSumCounts(Listing(own));
  }

  // ---------------------------------------------------------------------
  // The whole evaluation
  // ---------------------------------------------------------------------

  /** `Agent1.evaluate(board)` for the agent playing `me`. */
  ghost function Evaluate(b: Board, me: Color): int {
    if b.winner == Some(me) then WinScore
    else if b.winner == Some(Opponent(me)) then -WinScore
    else
      PlayerScore(b, me) - PlayerScore(b, Opponent(me))
        + TacticalThreats(b, me) + Territory(b, me)
  }

  /** A decided game scores exactly +-100000, and on a decided board the two
      colours' evaluations are each other's negation. */
  lemma EvaluateDecided(b: Board, me: Color)
    requires b.winner.Some?
    ensures Evaluate(b, me) == (if b.winner.value == me then WinScore else -WinScore)
    ensures Evaluate(b, Opponent(me)) == -Evaluate(b, me)
  {
  }

  /** On an undecided board the player and tactical terms cancel between
      the two colours, so only the territory terms can make the two
      evaluations disagree. */
  lemma EvaluateColourSum(b: Board)
    requires b.winner.None?
    ensures Evaluate(b, Black) + Evaluate(b, White) == Territory(b, Black) + Territory(b, White)
  {
    TacticalThreatsAntisymmetric(b, Black);
  }

  /** With one black group and no white stones, Black's territory is its
      liberties plus their centre bonus and White's is minus the liberties. */
  lemma OneGroupTerritory(b: Board, g: Group)
    requires b.black == [g] && b.white == []
    ensures Territory(b, Black) == 5 * |g.liberties| + CentreSum(Listing(g.liberties))
    ensures Territory(b, White) == -5 * |g.liberties|
  {
    assert [g][1..] == [];
    assert Influence(Groups(b, Black)) == g.liberties;
    assert Influence(Groups(b, White)) == {};
    assert Listing({}) == [];
  }

  /** The whole evaluation is not a mirror image under a colour swap: for a
      lone black stone at (10, 9) with its four liberties, the territory
      term is worth 52 to Black (20 for the points, 32 centre bonus) but
      only -20 to White, so the two evaluations sum to 32. */
  lemma EvaluateNotAntisymmetric()
    ensures var g := Group({(10, 9)}, {(9, 9), (11, 9), (10, 8), (10, 10)});
            var b := Board(None, [g], [], 0);
            Evaluate(b, Black) + Evaluate(b, White) == 32
  {
    var libs: set<Point> := {(9, 9), (11, 9), (10, 8), (10, 10)};
    LoneStoneCentre(libs);
    OneGroupEvaluateSum(Board(None, [Group({(10, 9)}, libs)], [], 0), Group({(10, 9)}, libs));
  }

  /** The centre bonus of the four liberties of (10, 9). */
  lemma LoneStoneCentre(libs: set<Point>)
    requires libs == {(9, 9), (11, 9), (10, 8), (10, 10)}
    ensures |libs| == 4 && CentreSum(Listing(libs)) == 32
  {
    assert |libs| == 4;
    assert forall p :: p in libs ==> CentreDistance(p) <= 3 by {
      assert CentreDistance((9, 9)) == 2 && CentreDistance((11, 9)) == 2;
      assert CentreDistance((10, 8)) == 2 && CentreDistance((10, 10)) == 0;
    }
    NearCentreSum(libs);
  }

  /** A set of points all within distance 3 of the centre earns 8 each. */
  lemma NearCentreSum(s: set<Point>)
    requires forall p :: p in s ==> CentreDistance(p) <= 3
    ensures CentreSum(Listing(s)) == 8 * |s|
  {
    var l := Listing(s);
    assert NearCentre(l) == s;
    assert AroundCentre(l) == {};
    CentreSumCounts(l);
  }

  /** With one black group and no white stone on an undecided board, the
      two colours' evaluations sum to Black's centre bonus. */
  lemma OneGroupEvaluateSum(b: Board, g: Group)
    requires b.winner.None? && b.black == [g] && b.white == []
    ensures Evaluate(b, Black) + Evaluate(b, White) == CentreSum(Listing(g.liberties))
  {
    OneGroupTerritory(b, g);
    EvaluateColourSum(b);
  }
}
