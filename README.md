# Multi-agent game-tree search for Pacman, in Dafny

This project models the adversarial search agents of `multi_agents.py`:
`MinimaxAgent`, `AlphaBetaAgent` and `ExpectimaxAgent`. Pacman is agent 0
and maximises. Agents 1 .. N-1 are the ghosts. They minimise (minimax,
alpha-beta) or move uniformly at random (expectimax). The search looks
`depth` full rounds ahead. One round is one move of every agent. It
evaluates a state with the configured evaluation function when the state is
won or lost, when no depth is left, or when the agent to move has no legal
action.

The game itself is not modelled. A state is a type parameter `S` and an
action a type parameter `A`. `Games.Game` is a record of the queries the
search makes: `is_win`, `is_lose`, `get_legal_actions`, `generate_successor`,
`get_num_agents` and `get_score`. `Games.Config` holds the agent's
`evaluation_function` and `depth`.

Structure:

- `ext.dfy` (`ExtReal`): reals extended with -inf and +inf. The source uses
  `float('-inf')` and `float('inf')` for its accumulators and for the alpha-beta
  window. It also defines running max, min and sum folds.
- `games.dfy` (`Games`): the game record and the agent configuration. It holds
  the turn order (`Next`, `ChildTurn`, `Advance`) and the root choice shared
  by the three `get_action` methods (`FirstMax`, `Choice`).
  `ScoreEvaluation` models `score_evaluation_function`, the agents' default
  evaluation; the scenarios search with it.
- `minimax.dfy`, `alphabeta.dfy`, `expectimax.dfy`: one module per agent
  class. The dispatchers `minimax_value`, `alpha_beta_value` and
  `expectimax_value` are the pure functions `Value`. Their node combiners
  are the functions `MaxNode`, `MinNode` and `ChanceNode`. Alpha-beta's
  loops are the functions `MaxLoop` and `MinLoop`, which model the `break`.
  The loops of `max_value`, `min_value`, `exp_value` and `get_action` are
  methods with loop invariants, each proved equal to those functions.
- `scenarios.dfy` (`Scenarios`): two small hand-built games worked out in
  full. One is a two-ply tree on which alpha-beta prunes. The other is a
  single chance node.

Termination is proved by the `decreases` clauses. Each recursive call moves
to a strictly later turn: the same depth with a higher agent index, or a
smaller depth.

Behaviour of the code that the model keeps:

- `get_action` keeps the first action whose value is strictly greater than
  every earlier one. Ties are not broken at random.
- With no legal action for Pacman, `get_action` returns `None`.
- A won or lost state is worth `evaluation_function(state)`, like any other
  state where the search stops.

## Model

| member | source | states |
|---|---|---|
| `Games.Next` | multi_agents.py:227-233 | the turn wraps to agent 0 exactly when the mover is the last ghost, and then the depth drops by exactly one; otherwise the next agent is agent + 1 at the same depth |
| `Games.ChildTurn` | multi_agents.py:213-237 | after Pacman the children are searched from agent 1 at the same depth; every node's children are searched from a strictly later turn, which is why the search terminates |
| `Games.AdvanceRound` | multi_agents.py:227-233 | k moves inside a round keep the depth and advance the agent by k; the move of the last ghost hands the turn to Pacman with one round fewer |
| `Games.FullRound` | multi_agents.py:227-233 | from Pacman's turn, one full round visits agents 1 .. N-1 at the same depth and returns to Pacman with the depth lowered by exactly one |
| `Games.MaxNodeNextTurn` | multi_agents.py:213-215 | the max node's hard-coded hand-over to agent 1 at the same depth agrees with the general next-turn rule |
| `Games.FirstMax` | multi_agents.py:184-193 | the root loop ends on the first index whose value is at least every value and strictly greater than every earlier value |
| `Games.FirstMaxUnique` | multi_agents.py:191-193 | that index is determined by the values alone |
| `Games.Choice` | multi_agents.py:178-195 | the root picks None exactly when Pacman has no legal action, otherwise an action at a first maximal index |
| `ExtReal.MaxFold` | multi_agents.py:207-218 | a running maximum from -inf is -inf for no values, otherwise one of the values and at least every value |
| `ExtReal.MinFold` | multi_agents.py:221-240 | a running minimum from +inf is +inf for no values, otherwise one of the values and at most every value |
| `ExtReal.MeanBetween` | multi_agents.py:395-401 | the total divided by the number of values lies between the smallest and the largest value |
| `Minimax.MaxNode` | multi_agents.py:206-218 | with no legal action the value is the evaluation of the state; otherwise it is a child value at least every child value, each child searched from agent 1 at the same depth |
| `Minimax.MinNode` | multi_agents.py:220-240 | with no legal action the value is the evaluation of the state; otherwise it is a child value at most every child value, each child searched from the next turn |
| `Minimax.Value` | multi_agents.py:197-204 | at a won or lost state, at depth 0, or when the agent to move has no legal action, the value is the evaluation of the state (the rest of its meaning is in `MaxNode` and `MinNode`) |
| `Minimax.ValueIsAnEvaluation` | multi_agents.py:197-240 | every minimax value is the evaluation of one of the states at which the search of that node stops |
| `Minimax.Expanded` | multi_agents.py:206-240 | minimax generates no successor at a cutoff and otherwise at least one per legal action of the agent to move |
| `Minimax.ZeroDepthRoot` | multi_agents.py:182-188 | with depth 0 the root still compares Pacman's actions, each worth the evaluation of its successor |
| `Minimax.MaxValue` | multi_agents.py:206-218 | the running-maximum loop returns the max node's value |
| `Minimax.MinValue` | multi_agents.py:220-240 | the next-turn computation and running-minimum loop return the min node's value |
| `Minimax.GetAction` | multi_agents.py:155-195 | returns None when Pacman has no legal action, otherwise the first legal action whose minimax value is the greatest |
| `AlphaBeta.Value` | multi_agents.py:278-285 | whatever the window, a won or lost state, depth 0, or no legal action for the agent to move gives the evaluation of the state (its relation to minimax is `FailSoft`) |
| `AlphaBeta.MaxNode` | multi_agents.py:287-292 | with no legal action for Pacman the value is the evaluation of the state (the loop's result is bounded by `MaxNodeFailSoft`) |
| `AlphaBeta.MinNode` | multi_agents.py:305-313 | with no legal action for the ghost the value is the evaluation of the state (the loop's result is bounded by `MinNodeFailSoft`) |
| `AlphaBeta.MaxLoop` | multi_agents.py:294-301 | once one action has been examined the loop's result is a finite value |
| `AlphaBeta.MinLoop` | multi_agents.py:321-328 | once one action has been examined the loop's result is a finite value |
| `AlphaBeta.MaxStep` | multi_agents.py:296-301 | one turn of the max loop keeps the loop invariant, and the loop breaks only once the children's minimax maximum exceeds beta |
| `AlphaBeta.MinStep` | multi_agents.py:323-328 | one turn of the min loop keeps the loop invariant, and the loop breaks only once the children's minimax minimum is below alpha |
| `AlphaBeta.FailSoft` | multi_agents.py:278-330 | for every window with alpha <= beta: a minimax value inside the window is returned exactly, one at most alpha gives a result at most alpha, one at least beta gives a result at least beta |
| `AlphaBeta.MaxNodeFailSoft` | multi_agents.py:287-303 | the fail-soft bound at a max node |
| `AlphaBeta.MaxLoopFailSoft` | multi_agents.py:294-301 | the max loop, from any state that satisfies its invariant, ends within the fail-soft bound of the maximum of all children's minimax values |
| `AlphaBeta.MinNodeFailSoft` | multi_agents.py:305-330 | the fail-soft bound at a min node |
| `AlphaBeta.MinLoopFailSoft` | multi_agents.py:321-328 | the min loop, from any state that satisfies its invariant, ends within the fail-soft bound of the minimum of all children's minimax values |
| `AlphaBeta.FullWindowIsMinimax` | multi_agents.py:256-268 | with the window (-inf, +inf) alpha-beta returns the minimax value |
| `AlphaBeta.PrunedExpandsNoMore` | multi_agents.py:294-328 | for every node and window alpha-beta generates at most as many successor states as minimax |
| `AlphaBeta.Expanded` | multi_agents.py:278-330 | alpha-beta generates no successor at a cutoff; otherwise it generates none exactly when the agent to move has no legal action, because the loop breaks only after a child |
| `AlphaBeta.MaxValue` | multi_agents.py:287-303 | the loop with alpha raised after each child and the break on alpha > beta returns the max node's value |
| `AlphaBeta.MinValue` | multi_agents.py:305-330 | the loop with beta lowered after each child and the break on alpha > beta returns the min node's value |
| `AlphaBeta.GetAction` | multi_agents.py:249-276 | although alpha narrows across the root actions, the action returned is the one MinimaxAgent.get_action returns |
| `Expectimax.Value` | multi_agents.py:360-367 | at a won or lost state, at depth 0, or when the agent to move has no legal action, the value is the evaluation of the state |
| `Expectimax.MaxNode` | multi_agents.py:369-381 | with no legal action the value is the evaluation of the state; otherwise a child value at least every child value |
| `Expectimax.ChanceNode` | multi_agents.py:383-401 | with no legal action the value is the evaluation of the state; otherwise the mean of the children, between the worst and the best child |
| `Expectimax.AtLeastMinimax` | multi_agents.py:360-401 | the expectimax value of every node is at least its minimax value |
| `Expectimax.MaxValue` | multi_agents.py:369-381 | the running-maximum loop returns the max node's value |
| `Expectimax.ExpValue` | multi_agents.py:383-401 | the running total divided by the number of legal actions is the chance node's value |
| `Expectimax.GetAction` | multi_agents.py:339-358 | returns None when Pacman has no legal action, otherwise the first legal action whose expectimax value is the greatest |
| `Scenarios.RootValue` | multi_agents.py:206-240 | on a tree where Pacman's two actions lead to ghost nodes over leaves 3, 5 and 2, 9, the minimax value of the root is 3 |
| `Scenarios.MinimaxExpansions` | multi_agents.py:206-240 | minimax generates all 6 successors of that tree |
| `Scenarios.PrunedSecondGhost` | multi_agents.py:321-328 | with alpha already 3, the second ghost stops after its first child, worth 2, and generates 1 successor |
| `Scenarios.PruningSaves` | multi_agents.py:287-330 | on that tree alpha-beta returns the same root value, 3, while generating strictly fewer successors than minimax (5 against 6) |
| `Scenarios.MinimaxPicksFirst` | multi_agents.py:155-195 | with `score_evaluation_function` and depth 1, MinimaxAgent picks Pacman's first action on that tree (worth 3 against 2) |
| `Scenarios.ChanceGhost` | multi_agents.py:383-401 | on that tree each ghost node searched by expectimax is worth the mean of its two leaves |
| `Scenarios.ExpectimaxPicksSecond` | multi_agents.py:339-358 | with the same evaluation and depth, ExpectimaxAgent picks the second action (4 against 5.5 on average) |
| `Scenarios.ChanceAverages` | multi_agents.py:383-401 | a ghost node over leaves 2, 4 and 9 is worth their mean, 5 |

## Left out

- `ReflexAgent.get_action` and `ReflexAgent.evaluation_function`: the first picks with `random.choice`; the second reads the food grid and ghost states of the game, which is not modelled.
- `better_evaluation_function`: it reads the food grid, ghost states and capsules and uses floating-point arithmetic. Every search takes the evaluation function as a parameter instead.
- `MultiAgentSearchAgent.__init__`: it looks the evaluation function up by name and parses the depth from a string. `Games.Config` takes both as given: a function and a natural number.
- Floating point: values are exact reals. Rounding in `exp_value`'s sum, infinite results of an evaluation function and NaN are not modelled. With an evaluation function that returns -inf for every successor, the source's `get_action` returns `None` even though Pacman has a legal action; the model does not cover that case.
- The game module: won, lost, legal actions, successors and score are uninterpreted fields of `Games.Game`. The number of agents is one constant per game, and it must be at least two, because every search hands the move to agent 1 after Pacman.
- Games with Pacman alone: the model's termination proof relies on at least two agents. With one agent the source's `max_value` still hands the move to agent 1. In `min_value` the next agent then counts 2, 3, … and never equals `get_num_agents()`, which is 1, so the depth never drops. The recursion goes on until the game rejects the agent index or runs out of legal actions.
- `Minimax.MinNode`, `AlphaBeta.MinNode` and `Expectimax.ChanceNode` require a positive depth. The dispatchers only call them so; called directly at depth 0, the source would search with depth -1.
- Which object `generate_successor` returns, and whether it aliases the input state, is not modelled: states are values.
