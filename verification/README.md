# Agent1: a Go move picker, modelled in Dafny

`Agent1` (in `group1.py`) picks a move on a Go board. It runs a depth-5 minimax search with alpha-beta pruning. Moves are ordered before the search: captures, then defences, then threats, then the rest. The leaves are scored by a hand-tuned static evaluation. This project models the three pieces as pure functions over an abstract board and proves the properties the code relies on.

- `ext_int.dfy` (`ExtendedInt`): integers extended with the two infinities. They replace `float('-inf')` and `float('inf')` in the search window and in the running best score.
- `go_board.dfy` (`GoBoard`): what the agent reads from the board engine.
  - The winner flag and the groups of each colour. Each group has a set of points and a set of liberties.
  - `Occupied` stands for `stonedict.get_groups(color, p)` being non-empty. `LibertyGroups` stands for `libertydict.get_groups(color, p)`.
  - The symmetric 4-neighbourhood `Neighbors`.
  - A `Rules` record of uninterpreted functions: the legal actions and the successor board.
  - `Listing(s)`, a fixed but unspecified enumeration of a set. It plays the part of Python's set iteration order.
- `evaluation.dfy` (`Evaluation`): `evaluate` and its helpers. These are the liberty and size tables, connectivity, eye potential, tactical threats, and influence/territory.
- `move_ordering.dfy` (`MoveOrdering`): `_order_moves`. It is the classification of one action plus a stable four-way partition.
- `search.dfy` (`Search`): `minimax` is modelled as `AlphaBeta`, and its `for` loops with `break` become the recursive folds `MaxLoop`/`MinLoop`. It also holds `get_action`, and a plain unpruned `Minimax` that serves as the reference.

Main results:
- **Window lemma.** `AlphaBetaWindow` is the fail-soft alpha-beta property against plain minimax.
  - Its corollary `AlphaBetaIsMinimax`: with the root window (-inf, +inf), pruning never changes the score.
  - Minimax explores the legal actions in board order, while the pruned search explores them in move order. So the proof also uses the fact that the ordering is a permutation (`OrderMoves`, `ValuesIgnoreOrder`).
- **Tie rule.** `SearchKeepsFirstBest`: at every non-leaf node the search returns the first action in move order whose scanned score is the best seen. This follows from the strict `>` and `<` of the two loops (`MaxLoopFirstBest`, `MinLoopFirstBest`). Below the root the callers discard that action, so only the root's choice is visible.
- **Chosen move.** `GetActionPlaysFirstOptimal`: on an undecided board with a legal action, `get_action` plays the first action in move order whose successor has the board's minimax value.
- **Random fallback.** `FallbackOnlyOnDecidedBoard`: the random fallback in `get_action` is taken exactly when the board has a winner and the engine still lists a legal action. With no legal action `get_action` returns `None` before any draw, and whether the engine lists legal actions on a decided board is up to the engine, which is not part of this model.
  - At such a board the search stops at the root and names no action, so the code draws a random legal action.
  - On an undecided board the fallback is dead code, and the result does not depend on the draw.

## Model

| member | source | states |
|---|---|---|
| `ExtendedInt.Max` | group1.py:69 | the new alpha is an upper bound of the old alpha and the child score, and equals one of them |
| `ExtendedInt.Min` | group1.py:86 | the new beta is a lower bound of the old beta and the child score, and equals one of them |
| `GoBoard.LibertyGroups` | group1.py:308 | the groups returned for a point are exactly the board's groups of that colour having the point as a liberty |
| `Evaluation.LibertyScore` | group1.py:131-140 | the liberty term lies in [-200, 100] and is negative exactly for groups with one or two liberties |
| `Evaluation.LibertyScoreMonotone` | group1.py:131-140 | from one liberty upwards, more liberties never score less |
| `Evaluation.SizeScore` | group1.py:144-151 | the size term of a group of n stones lies between 10n and 15n |
| `Evaluation.SizeScoreStrictlyIncreasing` | group1.py:144-151 | a larger group always has a strictly larger size term |
| `Evaluation.Links` | group1.py:176-178 | the inner connectivity loop counts at most one per listed point, and zero exactly when no listed point other than the stone itself is its neighbour |
| `Evaluation.OrderedLinks` | group1.py:174-178 | no contract of its own: `OrderedLinksTwiceAdjacentPairs` equates the double loop with twice the unordered adjacent-pair count |
| `Evaluation.OrderedLinksTwiceAdjacentPairs` | group1.py:172-180 | the ordered count of adjacent stone pairs is exactly twice the unordered count, so the halving is exact |
| `Evaluation.Connectivity` | group1.py:164-180 | connectivity equals the number of unordered pairs of adjacent stones in the group, which is 0 for groups of at most one stone |
| `Evaluation.FriendlyCount` | group1.py:202-205 | the friendly count is at most the number of neighbour points looked at, zero exactly when none holds a friendly stone, and full exactly when all do |
| `Evaluation.PairBonus` | group1.py:197-210 | one adjacent liberty pair contributes 0, 1 or 2, and 0 exactly when fewer than three of the neighbours hold friendly stones |
| `Evaluation.EyeRow` | group1.py:195-210 | one liberty's pass contributes at most 2 per later liberty adjacent to it |
| `Evaluation.EyePairs` | group1.py:194-212 | the eye loop yields at most twice the number of adjacent liberty pairs |
| `Evaluation.EyePotential` | group1.py:182-212 | eye potential is at most twice the number of adjacent liberty pairs of the group |
| `Evaluation.GroupScore` | group1.py:125-160 | a group scores at least its liberty and size terms, since connectivity and eye potential are never negative |
| `Evaluation.PlayerScore` | group1.py:121-162 | a player's score is at least -200 per group, and never negative when none of its groups has one or two liberties |
| `Evaluation.GroupsScore` | group1.py:121-162 | a player's group sum is at least -200 per group |
| `Evaluation.AtariTerm` | group1.py:222-230 | the atari term of a colour is non-negative, and zero exactly when none of its groups is in atari |
| `Evaluation.WeakGroups` | group1.py:236-244 | the two-liberty count is at most the number of groups, and zero exactly when no group has two liberties |
| `Evaluation.TacticalThreats` | group1.py:214-246 | the tactical term is non-negative when none of the agent's groups has one or two liberties and non-positive when none of the opponent's has; its colour symmetry is `TacticalThreatsAntisymmetric` |
| `Evaluation.TacticalThreatsAntisymmetric` | group1.py:214-246 | swapping the agent's colour negates the tactical term |
| `Evaluation.Influence` | group1.py:255-263 | a point is in a colour's influence exactly when it is a liberty of one of its groups |
| `Evaluation.CentreBonus` | group1.py:276-282 | a point's centre bonus is at most 8, and positive exactly within Manhattan distance 6 of (10, 10) |
| `Evaluation.CentreSum` | group1.py:277-282 | the centre-control loop adds at most 8 per point, and nothing exactly when every point is farther than 6 from the centre |
| `Evaluation.CentreSumCounts` | group1.py:277-282 | the centre bonus sum is 8 per point within distance 3 plus 3 per point at distance 4 to 6, in whatever order the points are listed |
| `Evaluation.Territory` | group1.py:248-284 | the territory term lies between -5 per opposing influence point and 13 per own influence point; the exact closed form is `TerritoryClosedForm` |
| `Evaluation.TerritoryClosedForm` | group1.py:248-284 | the uncontested and contested sets partition each colour's influence; the territory term is 5 per own point, -5 per opposing point, +1 per contested point, plus the centre bonus |
| `Evaluation.EvaluateColourSum` | group1.py:100-119 | on an undecided board the player and tactical terms cancel between the two colours, so the two evaluations sum to the two territory terms |
| `Evaluation.OneGroupEvaluateSum` | group1.py:248-284 | with a single black group and no white stone, the two colours' evaluations sum to the centre bonus of the group's liberties |
| `Evaluation.EvaluateNotAntisymmetric` | group1.py:265-282 | for a lone black stone at (10, 9) with its four liberties the two colours' evaluations sum to 32, not 0, because the centre bonus counts only own influence |
| `Evaluation.Evaluate` | group1.py:92-119 | no contract of its own: `EvaluateDecided` states the decided scores, `EvaluateColourSum` how the undecided terms cancel between colours, and each undecided term carries its own contract |
| `Evaluation.EvaluateDecided` | group1.py:100-104 | a won game scores exactly +100000 and a lost one -100000, and the two colours' scores are each other's negation |
| `MoveOrdering.ScanOpponent` | group1.py:308-314 | the loop with `break` reports a capture exactly when an opposing group there is in atari; otherwise it reports a threat exactly when one has at most three liberties |
| `MoveOrdering.ScanOwn` | group1.py:317-322 | the defence loop reports a defence exactly when one of the agent's groups there has at most two liberties |
| `MoveOrdering.Classify` | group1.py:302-332 | no contract of its own: `ClassifyPriority` characterises the bucket chosen for each action |
| `MoveOrdering.ClassifyPriority` | group1.py:302-332 | capture iff an opposing group has the action as its last liberty; defence iff no capture and an own group with at most two liberties; threat iff neither and an opposing group with at most three liberties; otherwise other |
| `MoveOrdering.SelectMembers` | group1.py:324-332 | a bucket holds exactly the input actions of that class |
| `MoveOrdering.Distribute` | group1.py:302-333 | no contract of its own: `DistributeSelects` states that each bucket it builds is the input filtered to that class, in input order |
| `MoveOrdering.DistributeSelects` | group1.py:302-332 | each bucket the loop builds is the input filtered to that class, in input order |
| `MoveOrdering.SelectsPermutation` | group1.py:302-335 | the four buckets together are a permutation of the input |
| `MoveOrdering.OrderMoves` | group1.py:286-335 | the result is captures ++ defences ++ threats ++ others, each in input order, is a permutation of the input, and is ordered by bucket rank |
| `MoveOrdering.CapturesFirst` | group1.py:325-335 | every capturing action precedes every non-capturing one |
| `Search.MaxValueIsMaximum` | group1.py:56-73 | the reference value of a max node is attained by some child and bounds every child |
| `Search.MinValueIsMinimum` | group1.py:74-90 | the reference value of a min node is attained by some child and is below every child |
| `Search.ValuesIgnoreOrder` | group1.py:54 | reordering the actions does not change the minimax value of a node |
| `Search.AlphaBeta` | group1.py:34-90 | no contract of its own: `AlphaBetaWindow` relates its score to plain minimax, `AlphaBetaFinite` keeps it finite, `SearchActionLegal` states which action it names |
| `Search.MaxLoop` | group1.py:56-73 | no contract of its own: `MaxLoopWindow` states its window property, `MaxLoopAction` that the action it keeps was scanned, and `MaxLoopFirstBest` the strict-`>` tie rule |
| `Search.MinLoop` | group1.py:74-90 | no contract of its own: `MinLoopWindow` states its window property, `MinLoopAction` that the action it keeps was scanned, and `MinLoopFirstBest` the strict-`<` tie rule |
| `Search.AlphaBetaWindow` | group1.py:34-90 | fail-soft window lemma: inside (alpha, beta) the pruned result equals the minimax value; at or below alpha it lies between the value and alpha; at or above beta it lies between beta and the value |
| `Search.MaxLoopWindow` | group1.py:56-73 | the maximizing loop with its beta cutoff keeps the window lemma for the best of the remaining actions |
| `Search.MinLoopWindow` | group1.py:74-90 | the minimizing loop with its alpha cutoff keeps the window lemma for the worst of the remaining actions |
| `Search.AlphaBetaIsMinimax` | group1.py:26 | with the root window (-inf, +inf) the pruned search returns exactly the minimax score |
| `Search.AlphaBetaFinite` | group1.py:45-90 | the search score is always finite, never an infinity |
| `Search.MaxLoopAction` | group1.py:56-73 | the maximizing loop names an action as soon as it has seen one, and that action is one of those scanned |
| `Search.MinLoopAction` | group1.py:74-90 | the minimizing loop names an action as soon as it has seen one, and that action is one of those scanned |
| `Search.SearchActionLegal` | group1.py:45-90 | a leaf (depth 0, a winner, or no legal action) returns no action and its evaluation; any other node returns a legal action |
| `Search.MaxLoopFirstBest` | group1.py:59-73 | the maximizing loop returns `(best_action, max_eval)` unchanged when no scanned score beats the running best; otherwise it returns a scanned action with its score, where that score beats the running best and every earlier scanned score, and no later scanned score beats it, so ties go to the earliest |
| `Search.MinLoopFirstBest` | group1.py:77-90 | the dual for the minimizing loop: the first scanned action reaching the lowest scanned score, or the running best when nothing is lower |
| `Search.SearchKeepsFirstBest` | group1.py:55-90 | at every non-leaf node, at any depth and window, the action returned is the first in move order whose scanned score is the best seen |
| `Search.RootLoopPicksFirstOptimal` | group1.py:56-73 | at the root nothing is pruned, the score is the best child value, and the action is the first best child in move order |
| `Search.GetAction` | group1.py:14-32 | get_action returns no action exactly when there is no legal action, and otherwise a legal action |
| `Search.GetActionPlaysFirstOptimal` | group1.py:21-32 | on an undecided board get_action plays an optimal action: the first in move order whose successor has the board's minimax value |
| `Search.FallbackOnlyOnDecidedBoard` | group1.py:26-32 | when the engine lists at least one legal action, the random fallback is used exactly on a board that already has a winner; on an undecided board the result does not depend on the draw |
| `Search.AlphaBetaDecided` | group1.py:46-47 | a decided board is scored +-100000 at every depth and window, with no action |

## Left out

- The board engine (`game.go`) is not part of this model: legal-move generation, successor states, group and liberty maintenance, `stonedict`/`libertydict` internals and `cal_liberty`.
  - Legal moves and successors are uninterpreted functions in `Rules`.
  - The two dictionaries are read through the groups: a stone of a colour is on a point when the point belongs to a group of that colour, and a point's liberty groups are the groups that have it as a liberty.
  - The board keeps an opaque `engine` token for the state the agent never reads (side to move, ko, history).
- `random.choice` (group1.py:30) becomes the parameter `pick`, an index into the legal actions.
- The unused `cal_liberty` call (group1.py:175): its result is discarded, so it cannot change a score.
- Python set iteration order: `Listing` fixes one arbitrary enumeration of each set. The order cannot change connectivity, which is a pair count, or the centre sum, which `CentreSumCounts` proves order-free. The eye potential is stated only for that listing.
- `neighbors` is the unclipped 4-neighbourhood. Off-board points are never stones and never group points. So clipping at the edges changes no score as long as the groups lie on the board.
- Colours are the two constructors of `Color`. The source's upper-casing of colour strings is not modelled.
- Float infinities are `ExtInt` values. No other floating point occurs, since all scores are integers.
- Evaluate: no contract of its own. `EvaluateDecided` states the decided-game scores. The undecided branch is a plain sum of its terms: each term carries its own contract, and `EvaluateColourSum` states how they cancel between the colours, but the sum as a whole has no independent reference definition.
- Whole-evaluation colour antisymmetry is not claimed, because it does not hold. The contested +1 and the centre bonus, which counts only own influence (group1.py:273-282), break it, and `EvaluateNotAntisymmetric` exhibits a board where it fails. Only the tactical term and decided games are antisymmetric.
- The size table's increments are 15, 20, 15, 10, 10, …, so they are not diminishing despite the comment at group1.py:142. Only strict growth and the 10n..15n bound are proved.

## Notes on the source

- The docstring of `_order_moves` lists "captures > threats > defense". The code and its closing comment put defences before threats. The model follows the code.
- A "capture" is an action that is the last liberty of an opposing group. The action does not merely leave such a group at one liberty.
- `get_action` does not check for a winner before searching. On a decided board with legal actions, the search returns no action and the random fallback plays (`FallbackOnlyOnDecidedBoard`).
