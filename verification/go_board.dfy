/** The part of the Go board engine the agent reads.  The engine itself
    (legal-move generation, successor states, group and liberty maintenance)
    is foreign code; here it is a record of the data the agent looks at plus
    a `Rules` record of uninterpreted functions. */
module GoBoard {

  datatype Option<T> = None | Some(value: T)

  datatype Color = Black | White

  function Opponent(c: Color): (o: Color)
    ensures o != c
  {
    if c == Black then White else Black
  }

  /** A board intersection, as the engine's `(row, column)` tuple. */
  type Point = (int, int)

  /** The 4-neighbourhood of a point on the integer grid. */
  function Neighbors(p: Point): (ns: seq<Point>)
    ensures |ns| == 4
    ensures p !in ns
  {
    [(p.0 - 1, p.1), (p.0 + 1, p.1), (p.0, p.1 - 1), (p.0, p.1 + 1)]
  }

  predicate Adjacent(p: Point, q: Point) {
    q in Neighbors(p)
  }

  /** Adjacency is symmetric and irreflexive. */
  lemma AdjacentSymmetric(p: Point, q: Point)
    ensures Adjacent(p, q) <==> Adjacent(q, p)
    ensures !Adjacent(p, p)
  {
  }

  /** A maximal connected set of same-coloured stones and its liberties. */
  datatype Group = Group(points: set<Point>, liberties: set<Point>)

  /** A board snapshot: the winner flag and the groups of each colour, plus
      `engine`, an opaque token for the engine state the agent never reads
      (side to move, ko point, history). */
  datatype Board = Board(winner: Option<Color>, black: seq<Group>, white: seq<Group>, engine: nat)

  /** `board.groups[color]`. */
  function Groups(b: Board, c: Color): seq<Group> {
    if c == Black then b.black else b.white
  }

  /** `board.stonedict.get_groups(color, p)` is non-empty: a stone of
      colour `c` sits on `p`. */
  predicate Occupied(b: Board, c: Color, p: Point) {
    exists g :: g in Groups(b, c) && p in g.points
  }

  /** `board.libertydict.get_groups(color, p)`: the groups of colour `c`,
      in board order, that have `p` as a liberty. */
  function LibertyGroups(b: Board, c: Color, p: Point): (r: seq<Group>)
    ensures forall g :: g in r <==> g in Groups(b, c) && p in g.liberties
    ensures forall i :: 0 <= i < |r| ==> p in r[i].liberties
  {
    Having(Groups(b, c), p)
  }

  function Having(gs: seq<Group>, p: Point): (r: seq<Group>)
    ensures forall g :: g in r <==> g in gs && p in g.liberties
    ensures |r| <= |gs|
  {
    if |gs| == 0 then []
    else if p in gs[0].liberties then [gs[0]] + Having(gs[1..], p)
    else Having(gs[1..], p)
  }

  /** The engine's rules: `board.get_legal_actions()` and
      `board.generate_successor_state(action)`. */
  datatype Rules = Rules(legal: Board -> seq<Point>, successor: (Board, Point) -> Board)

  predicate Distinct(l: seq<Point>) {
    forall i, j :: 0 <= i < j < |l| ==> l[i] != l[j]
  }

  /** `list(s)`: the elements of a set in the engine's (unspecified but
      fixed) iteration order. */
  ghost function Listing(s: set<Point>): (l: seq<Point>)
    ensures |l| == |s|
    ensures forall p :: p in l <==> p in s
    ensures Distinct(l)
    decreases |s|
  {
    if s == {} then []
    else
      var p :| p in s;
      [p] + Listing(s - {p})
  }
}
