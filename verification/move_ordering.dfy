/** `Agent1._order_moves`: a stable four-way partition of the legal actions
    into captures, defences, threats and the rest. */
module MoveOrdering {
  import opened GoBoard

  datatype Bucket = Capture | Defense | Threat | Other

  /** The position of a bucket in the ordered result. */
  function Rank(k: Bucket): nat {
    match k
    case Capture => 0
    case Defense => 1
    case Threat => 2
    case Other => 3
  }

  // ---------------------------------------------------------------------
  // Classification of one action
  // ---------------------------------------------------------------------

  /** Playing at `p` takes the last liberty of an opposing group. */
  predicate CapturesAt(b: Board, me: Color, p: Point) {
    exists g :: g in Groups(b, Opponent(me)) && p in g.liberties && |g.liberties| == 1
  }

  /** `p` is a liberty of one of our groups with at most two liberties. */
  predicate DefendsAt(b: Board, me: Color, p: Point) {
    exists g :: g in Groups(b, me) && p in g.liberties && |g.liberties| <= 2
  }

  /** `p` is a liberty of an opposing group with at most three liberties. */
  predicate ThreatensAt(b: Board, me: Color, p: Point) {
    exists g :: g in Groups(b, Opponent(me)) && p in g.liberties && |g.liberties| <= 3
  }

  /** The loop over the opposing groups at `p`, with its early `break` on a
      group in atari; returns `(is_capture, is_threat)`. */
  function ScanOpponent(gs: seq<Group>, threat: bool): (r: (bool, bool))
    ensures r.0 <==> exists g :: g in gs && |g.liberties| == 1
    ensures !r.0 ==> (r.1 <==> threat || exists g :: g in gs && |g.liberties| <= 3)
  {
    if |gs| == 0 then (false, threat)
    else if |gs[0].liberties| == 1 then (true, threat)
    else
      assert forall g :: g in gs <==> g == gs[0] || g in gs[1..];
      ScanOpponent(gs[1..], threat || |gs[0].liberties| <= 3)
  }

  /** The loop over our own groups at `p`, with its early `break`. */
  function ScanOwn(gs: seq<Group>): (r: bool)
    ensures r <==> exists g :: g in gs && |g.liberties| <= 2
  {
    if |gs| == 0 then false
    else if |gs[0].liberties| <= 2 then true
    else
      assert forall g :: g in gs <==> g == gs[0] || g in gs[1..];
      ScanOwn(gs[1..])
  }

  /** The bucket of the action `p`, as `_order_moves` decides it. */
  function Classify(b: Board, me: Color, p: Point): Bucket {
    var (isCapture, isThreat) := ScanOpponent(LibertyGroups(b, Opponent(me), p), false);
    var isDefense := if !isCapture then ScanOwn(LibertyGroups(b, me, p)) else false;
    if isCapture then Capture
    else if isDefense then Defense
    else if isThreat then Threat
    else Other
  }

  /** The classification priority: a capture wins outright (the defence scan
      is skipped), then defence of an own group with at most two liberties,
      then a threat to an opposing group with at most three liberties. */
  lemma ClassifyPriority(b: Board, me: Color, p: Point)
    ensures Classify(b, me, p) == Capture <==> CapturesAt(b, me, p)
    ensures Classify(b, me, p) == Defense <==> !CapturesAt(b, me, p) && DefendsAt(b, me, p)
    ensures Classify(b, me, p) == Threat
            <==> !CapturesAt(b, me, p) && !DefendsAt(b, me, p) && ThreatensAt(b, me, p)
    ensures Classify(b, me, p) == Other
            <==> !CapturesAt(b, me, p) && !DefendsAt(b, me, p) && !ThreatensAt(b, me, p)
  {
    var theirs := LibertyGroups(b, Opponent(me), p);
    var ours := LibertyGroups(b, me, p);
    var r := ScanOpponent(theirs, false);
    assert r.0 <==> CapturesAt(b, me, p);
    assert !r.0 ==> (r.1 <==> ThreatensAt(b, me, p));
    assert ScanOwn(ours) <==> DefendsAt(b, me, p);
  }

  // ---------------------------------------------------------------------
  // The partition
  // ---------------------------------------------------------------------

  /** The classification of every action on the board `b`. */
  function Classifier(b: Board, me: Color): Point -> Bucket {
    p => Classify(b, me, p)
  }

  /** The actions of `acts` in bucket `k`, in their original order. */
  function Select(cls: Point -> Bucket, acts: seq<Point>, k: Bucket): (r: seq<Point>)
    ensures |r| <= |acts|
  {
    if |acts| == 0 then []
    else if cls(acts[0]) == k then [acts[0]] + Select(cls, acts[1..], k)
    else Select(cls, acts[1..], k)
  }

  /** A selection holds exactly the actions of its bucket. */
  lemma {:induction false} SelectMembers(cls: Point -> Bucket, acts: seq<Point>, k: Bucket)
    ensures forall i :: 0 <= i < |Select(cls, acts, k)| ==> cls(Select(cls, acts, k)[i]) == k
    ensures forall p :: p in Select(cls, acts, k) <==> p in acts && cls(p) == k
    decreases |acts|
  {
    if |acts| > 0 {
      SelectMembers(cls, acts[1..], k);
      assert forall p :: p in acts <==> p == acts[0] || p in acts[1..];
    }
  }

  datatype Buckets = Buckets(captures: seq<Point>, defenses: seq<Point>, threats: seq<Point>, others: seq<Point>)

  /** Append `p` to the bucket `k`. */
  function Put(into: Buckets, k: Bucket, p: Point): Buckets {
    match k
    case Capture => into.(captures := into.captures + [p])
    case Defense => into.(defenses := into.defenses + [p])
    case Threat => into.(threats := into.threats + [p])
    case Other => into.(others := into.others + [p])
  }

  /** The loop of `_order_moves`: append each action to its bucket. */
  function Distribute(cls: Point -> Bucket, acts: seq<Point>, into: Buckets): Buckets
    decreases |acts|
  {
    if |acts| == 0 then into
    else Distribute(cls, acts[1..], Put(into, cls(acts[0]), acts[0]))
  }

  /** Each bucket the loop builds is the order-preserving selection of its
      actions. */
  lemma {:induction false} DistributeSelects(cls: Point -> Bucket, acts: seq<Point>, into: Buckets)
    ensures Distribute(cls, acts, into)
         == Buckets(into.captures + Select(cls, acts, Capture),
                    into.defenses + Select(cls, acts, Defense),
                    into.threats + Select(cls, acts, Threat),
                    into.others + Select(cls, acts, Other))
    decreases |acts|
  {
    if |acts| == 0 {
      assert into.captures + [] == into.captures;
      assert into.defenses + [] == into.defenses;
      assert into.threats + [] == into.threats;
      assert into.others + [] == into.others;
    } else {
      var p, rest := acts[0], acts[1..];
      DistributeSelects(cls, rest, Put(into, cls(p), p));
      forall s: seq<Point>, t: seq<Point> ensures s + [p] + t == s + ([p] + t) {
      }
    }
  }

  /** The four selections together hold every action exactly as often as
      the input does. */
  lemma {:induction false} SelectsPermutation(cls: Point -> Bucket, acts: seq<Point>)
    ensures multiset(Select(cls, acts, Capture)) + multiset(Select(cls, acts, Defense))
          + multiset(Select(cls, acts, Threat)) + multiset(Select(cls, acts, Other))
         == multiset(acts)
    decreases |acts|
  {
    if |acts| > 0 {
      SelectsPermutation(cls, acts[1..]);
      assert acts == [acts[0]] + acts[1..];
    }
  }

  /** Actions listed bucket by bucket: captures, then defences, then
      threats, then the rest. */
  predicate RankOrdered(cls: Point -> Bucket, s: seq<Point>) {
    forall i, j :: 0 <= i < j < |s| ==> Rank(cls(s[i])) <= Rank(cls(s[j]))
  }

  lemma RankOrderedAppend(cls: Point -> Bucket, s: seq<Point>, t: seq<Point>, k: Bucket)
    requires forall i :: 0 <= i < |s| ==> cls(s[i]) == k
    requires forall j :: 0 <= j < |t| ==> Rank(k) <= Rank(cls(t[j]))
    requires RankOrdered(cls, t)
    ensures RankOrdered(cls, s + t)
  {
    forall i, j | 0 <= i < j < |s + t|
      ensures Rank(cls((s + t)[i])) <= Rank(cls((s + t)[j]))
    {
      if j < |s| {
        assert (s + t)[i] == s[i] && (s + t)[j] == s[j];
      } else if i < |s| {
        assert (s + t)[i] == s[i] && (s + t)[j] == t[j - |s|];
      } else {
        assert (s + t)[i] == t[i - |s|] && (s + t)[j] == t[j - |s|];
      }
    }
  }

  /** The four buckets of `acts` concatenated in priority order. */
  function Arrange(cls: Point -> Bucket, acts: seq<Point>): (r: seq<Point>)
    ensures r == Select(cls, acts, Capture) + Select(cls, acts, Defense)
               + Select(cls, acts, Threat) + Select(cls, acts, Other)
    ensures multiset(r) == multiset(acts)
    ensures RankOrdered(cls, r)
  {
    var empty := Buckets([], [], [], []);
    var out := Distribute(cls, acts, empty);
    DistributeSelects(cls, acts, empty);
    SelectsPermutation(cls, acts);
    var c, d, t, o := Select(cls, acts, Capture), Select(cls, acts, Defense),
                      Select(cls, acts, Threat), Select(cls, acts, Other);
    SelectMembers(cls, acts, Capture);
    SelectMembers(cls, acts, Defense);
    SelectMembers(cls, acts, Threat);
    SelectMembers(cls, acts, Other);
    RankOrderedAppend(cls, o, [], Other);
    RankOrderedAppend(cls, t, o, Threat);
    RankOrderedAppend(cls, d, t + o, Defense);
    RankOrderedAppend(cls, c, d + (t + o), Capture);
    assert c + d + t + o == c + (d + (t + o));
    out.captures + out.defenses + out.threats + out.others
  }

  /** `_order_moves(board, actions)`: the same actions, each bucket in input
      order, the buckets in priority order. */
  function OrderMoves(b: Board, me: Color, acts: seq<Point>): (r: seq<Point>)
    ensures r == Select(Classifier(b, me), acts, Capture) + Select(Classifier(b, me), acts, Defense)
               + Select(Classifier(b, me), acts, Threat) + Select(Classifier(b, me), acts, Other)
    ensures multiset(r) == multiset(acts)
    ensures RankOrdered(Classifier(b, me), r)
  {
    Arrange(Classifier(b, me), acts)
  }

  /** Every capturing action comes before every action that does not
      capture. */
  lemma CapturesFirst(b: Board, me: Color, acts: seq<Point>, i: int, j: int)
    requires 0 <= i < |OrderMoves(b, me, acts)| && 0 <= j < |OrderMoves(b, me, acts)|
    requires CapturesAt(b, me, OrderMoves(b, me, acts)[i])
    requires !CapturesAt(b, me, OrderMoves(b, me, acts)[j])
    ensures i < j
  {
    var r := OrderMoves(b, me, acts);
    ClassifyPriority(b, me, r[i]);
    ClassifyPriority(b, me, r[j]);
    assert Classifier(b, me)(r[i]) == Capture;
  }
}
