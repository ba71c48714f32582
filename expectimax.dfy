/** ExpectimaxAgent: Pacman maximises, and every ghost is taken to choose
    uniformly at random among its legal actions, so a ghost's node is worth
    the mean of its children. */
module Expectimax {
  import opened ExtReal
  import opened Games
  import Minimax

  /** expectimax_value: the same cutoff and dispatch as minimax, with
      chance nodes for the ghosts.  A won or lost state, no depth left, or
      no legal action for the agent to move: the state's own evaluation. */
  function Value<S, A>(g: Game<S, A>, eval: S -> real, s: S, agent: nat, depth: nat): (r: real)
    requires g.Valid() && agent < g.agents
    ensures g.Cutoff(s, depth) || |g.legal(s, agent)| == 0 ==> r == eval(s)
    decreases depth, g.agents - agent, 1
  {
    if g.Cutoff(s, depth) then eval(s)
    else if agent == 0 then MaxNode(g, eval, s, depth)
    else ChanceNode(g, eval, s, agent, depth)
  }

  /** The expectimax values of the states that agent's legal actions lead
      to, in list order, each searched from turn t. */
  function Children<S, A>(g: Game<S, A>, eval: S -> real, s: S, agent: nat, t: Turn): (vs: seq<real>)
    requires g.Valid() && t.agent < g.agents
    ensures |vs| == |g.legal(s, agent)|
    decreases t.depth, g.agents - t.agent, 2
  {
    var acts := g.legal(s, agent);
    seq(|acts|, i requires 0 <= i < |acts| => Value(g, eval, g.succ(s, agent, acts[i]), t.agent, t.depth))
  }

  /** max_value: as in minimax, over expectimax values. */
  function MaxNode<S, A>(g: Game<S, A>, eval: S -> real, s: S, depth: nat): (r: real)
    requires g.Valid()
    ensures var vs := Children(g, eval, s, 0, Turn(1, depth));
      (vs == [] ==> r == eval(s)) &&
      (vs != [] ==> r in vs && forall v :: v in vs ==> v <= r)
    decreases depth, g.agents, 0
  {
    var vs := Children(g, eval, s, 0, Turn(1, depth));
    if vs == [] then eval(s) else MaxFold(vs).v
  }

  /** exp_value: a ghost with no legal action is evaluated in place;
      otherwise the node is worth the arithmetic mean of its children,
      which lies between the worst and the best of them. */
  function ChanceNode<S, A>(g: Game<S, A>, eval: S -> real, s: S, agent: nat, depth: nat): (r: real)
    requires g.Valid() && 0 < agent < g.agents && depth > 0
    ensures var vs := Children(g, eval, s, agent, Next(g, Turn(agent, depth)));
      (vs == [] ==> r == eval(s)) &&
      (vs != [] ==> MinFold(vs).v <= r <= MaxFold(vs).v)
    decreases depth, g.agents - agent, 0
  {
    var vs := Children(g, eval, s, agent, Next(g, Turn(agent, depth)));
    if vs == [] then eval(s)
    else
      MeanBetween(vs);
      Sum(vs) / |vs| as real
  }

  /** The values get_action compares. */
  function RootValues<S, A>(g: Game<S, A>, cfg: Config<S>, s: S): (vs: seq<real>)
    requires g.Valid()
    ensures |vs| == |g.legal(s, 0)|
  {
    Children(g, cfg.eval, s, 0, Turn(1, cfg.depth))
  }

  /** Ghosts that move at random are never worse for Pacman than ghosts
      that play against him: the expectimax value of every node is at least
      its minimax value. */
  lemma {:induction false} AtLeastMinimax<S, A>(g: Game<S, A>, eval: S -> real, s: S, agent: nat, depth: nat)
    requires g.Valid() && agent < g.agents
    ensures Minimax.Value(g, eval, s, agent, depth) <= Value(g, eval, s, agent, depth)
    decreases depth, g.agents - agent, 1
  {
    if !g.Cutoff(s, depth) {
      var acts := g.legal(s, agent);
      var t := if agent == 0 then Turn(1, depth) else Next(g, Turn(agent, depth));
      var mm := Minimax.Children(g, eval, s, agent, t);
      var ex := Children(g, eval, s, agent, t);
      forall i | 0 <= i < |acts|
        ensures mm[i] <= ex[i]
      {
        AtLeastMinimax(g, eval, g.succ(s, agent, acts[i]), t.agent, t.depth);
      }
      if acts != [] {
        if agent == 0 {
          MaxFoldMonotone(mm, ex);
        } else {
          MinFoldMonotone(mm, ex);
        }
      }
    }
  }

  /** ExpectimaxAgent.max_value: a running maximum from -inf. */
  method MaxValue<S, A>(g: Game<S, A>, eval: S -> real, s: S, depth: nat) returns (v: real)
    requires g.Valid()
    ensures v == MaxNode(g, eval, s, depth)
  {
    var bestValue := NegInf;
    var actions := g.legal(s, 0);
    if |actions| == 0 {
      return eval(s);
    }
    ghost var vs := Children(g, eval, s, 0, Turn(1, depth));
    for i := 0 to |actions|
      invariant bestValue == MaxFold(vs[..i])
    {
      var successor := g.succ(s, 0, actions[i]);
      var val := Value(g, eval, successor, 1, depth);
      assert vs[..i + 1][..i] == vs[..i];
      bestValue := Max(bestValue, Fin(val));
    }
    assert vs[..|actions|] == vs;
    return bestValue.v;
  }

  /** ExpectimaxAgent.exp_value: the next turn as in minimax, a running
      total from 0.0, and the total divided by the number of actions. */
  method ExpValue<S, A>(g: Game<S, A>, eval: S -> real, s: S, agent: nat, depth: nat) returns (v: real)
    requires g.Valid() && 0 < agent < g.agents && depth > 0
    ensures v == ChanceNode(g, eval, s, agent, depth)
  {
    var actions := g.legal(s, agent);
    if |actions| == 0 {
      return eval(s);
    }
    var nextAgent := agent + 1;
    var nextDepth := depth;
    if nextAgent == g.agents {
      nextAgent := 0;
      nextDepth := depth - 1;
    }
    ghost var vs := Children(g, eval, s, agent, Next(g, Turn(agent, depth)));
    var totalValue := 0.0;
    for i := 0 to |actions|
      invariant totalValue == Sum(vs[..i])
    {
      var successor := g.succ(s, agent, actions[i]);
      var val := Value(g, eval, successor, nextAgent, nextDepth);
      assert vs[..i + 1][..i] == vs[..i];
      totalValue := totalValue + val;
    }
    assert vs[..|actions|] == vs;
    return totalValue / |actions| as real;
  }

  /** ExpectimaxAgent.get_action: the first of Pacman's legal actions, in
      list order, whose expectimax value is strictly greater than every
      earlier one, and None when Pacman has no legal action. */
  method GetAction<S, A>(g: Game<S, A>, cfg: Config<S>, s: S) returns (bestAction: Option<A>)
    requires g.Valid()
    ensures bestAction == Choice(g.legal(s, 0), RootValues(g, cfg, s))
  {
    bestAction := None;
    var bestValue := NegInf;
    var legalActions := g.legal(s, 0);
    ghost var vals := RootValues(g, cfg, s);
    for i := 0 to |legalActions|
      invariant i == 0 ==> bestValue == NegInf && bestAction == None
      invariant i > 0 ==> bestValue == Fin(vals[FirstMax(vals[..i])])
      invariant i > 0 ==> bestAction == Some(legalActions[FirstMax(vals[..i])])
    {
      var successor := g.succ(s, 0, legalActions[i]);
      var value := Value(g, cfg.eval, successor, 1, cfg.depth);
      assert vals[..i + 1][..i] == vals[..i];
      if Lt(bestValue, Fin(value)) {
        bestValue := Fin(value);
        bestAction := Some(legalActions[i]);
      }
    }
    assert vals[..|legalActions|] == vals;
  }
}
