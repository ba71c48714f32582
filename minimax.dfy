/** MinimaxAgent: Pacman maximises, every ghost minimises, and the search
    looks `depth` full rounds ahead before it evaluates. */
module Minimax {
  import opened ExtReal
  import opened Games

  /** minimax_value: a won or lost state, or no depth left, is evaluated;
      otherwise Pacman's nodes maximise and the ghosts' nodes minimise.
      The recursion ends because each call moves to a later turn:
      the same depth with a higher agent index, or a smaller depth.  A
      node where the search stops (won, lost, no depth left) or where the
      agent to move has no legal action is worth its own evaluation. */
  function Value<S, A>(g: Game<S, A>, eval: S -> real, s: S, agent: nat, depth: nat): (r: real)
    requires g.Valid() && agent < g.agents
    ensures g.Cutoff(s, depth) || |g.legal(s, agent)| == 0 ==> r == eval(s)
    decreases depth, g.agents - agent, 1
  {
    if g.Cutoff(s, depth) then eval(s)
    else if agent == 0 then MaxNode(g, eval, s, depth)
    else MinNode(g, eval, s, agent, depth)
  }

  /** The values of the states that agent's legal actions lead to, in the
      order the actions are listed, each searched from turn t. */
  function Children<S, A>(g: Game<S, A>, eval: S -> real, s: S, agent: nat, t: Turn): (vs: seq<real>)
    requires g.Valid() && t.agent < g.agents
    ensures |vs| == |g.legal(s, agent)|
    decreases t.depth, g.agents - t.agent, 2
  {
    var acts := g.legal(s, agent);
    seq(|acts|, i requires 0 <= i < |acts| => Value(g, eval, g.succ(s, agent, acts[i]), t.agent, t.depth))
  }

  /** max_value: Pacman with no legal action is evaluated in place;
      otherwise the node is worth its best child, where every child is
      searched from agent 1 at the same depth. */
  function MaxNode<S, A>(g: Game<S, A>, eval: S -> real, s: S, depth: nat): (r: real)
    requires g.Valid()
    ensures var vs := Children(g, eval, s, 0, Turn(1, depth));
      (vs == [] ==> r == eval(s)) &&
      (vs != [] ==> r in vs && forall v :: v in vs ==> v <= r)
    decreases depth, g.agents, 0
  {
    var vs := Children(g, eval, s, 0, Turn(1, depth));
    if vs == [] then eval(s) else MaxFold(vs).v
  }

  /** min_value: a ghost with no legal action is evaluated in place;
      otherwise the node is worth its worst child, where every child is
      searched from the next turn. */
  function MinNode<S, A>(g: Game<S, A>, eval: S -> real, s: S, agent: nat, depth: nat): (r: real)
    requires g.Valid() && 0 < agent < g.agents && depth > 0
    ensures var vs := Children(g, eval, s, agent, Next(g, Turn(agent, depth)));
      (vs == [] ==> r == eval(s)) &&
      (vs != [] ==> r in vs && forall v :: v in vs ==> r <= v)
    decreases depth, g.agents - agent, 0
  {
    var vs := Children(g, eval, s, agent, Next(g, Turn(agent, depth)));
    if vs == [] then eval(s) else MinFold(vs).v
  }

  /** The values get_action compares: each of Pacman's legal actions,
      searched from agent 1 with the configured depth. */
  function RootValues<S, A>(g: Game<S, A>, cfg: Config<S>, s: S): (vs: seq<real>)
    requires g.Valid()
    ensures |vs| == |g.legal(s, 0)|
  {
    Children(g, cfg.eval, s, 0, Turn(1, cfg.depth))
  }

  /** The states at which the search of a node stops and evaluates: the
      node itself when it is a cutoff or the agent to move has no legal
      action, otherwise the states the search of its children stops at. */
  ghost function Frontier<S, A>(g: Game<S, A>, s: S, agent: nat, depth: nat): set<S>
    requires g.Valid() && agent < g.agents
    decreases depth, g.agents - agent, 1, 0
  {
    if g.Cutoff(s, depth) || |g.legal(s, agent)| == 0 then {s}
    else FrontierFrom(g, s, agent, ChildTurn(g, agent, depth), 0)
  }

  /** The frontiers of the children reached from action i on. */
  ghost function FrontierFrom<S, A>(g: Game<S, A>, s: S, agent: nat, t: Turn, i: nat): set<S>
    requires g.Valid() && t.agent < g.agents && i <= |g.legal(s, agent)|
    decreases t.depth, g.agents - t.agent, 2, |g.legal(s, agent)| - i
  {
    var acts := g.legal(s, agent);
    if i == |acts| then {}
    else Frontier(g, g.succ(s, agent, acts[i]), t.agent, t.depth) + FrontierFrom(g, s, agent, t, i + 1)
  }

  lemma {:induction false} FrontierFromContains<S, A>(g: Game<S, A>, s: S, agent: nat, t: Turn, i: nat, j: nat)
    requires g.Valid() && t.agent < g.agents && i <= j < |g.legal(s, agent)|
    ensures Frontier(g, g.succ(s, agent, g.legal(s, agent)[j]), t.agent, t.depth) <= FrontierFrom(g, s, agent, t, i)
    decreases j - i
  {
    if i < j {
      FrontierFromContains(g, s, agent, t, i + 1, j);
    }
  }

  /** The value of every node is the evaluation of one of the states the
      search stops at below it: max and min only ever pick one of their
      children's values. */
  lemma {:induction false} ValueIsAnEvaluation<S, A>(g: Game<S, A>, eval: S -> real, s: S, agent: nat, depth: nat)
    requires g.Valid() && agent < g.agents
    ensures exists u :: u in Frontier(g, s, agent, depth) && Value(g, eval, s, agent, depth) == eval(u)
    decreases depth, g.agents - agent, 1
  {
    if g.Cutoff(s, depth) || |g.legal(s, agent)| == 0 {
      assert s in Frontier(g, s, agent, depth);
    } else {
      var acts := g.legal(s, agent);
      var t := ChildTurn(g, agent, depth);
      var vs := Children(g, eval, s, agent, t);
      var i :| 0 <= i < |vs| && vs[i] == Value(g, eval, s, agent, depth);
      var child := g.succ(s, agent, acts[i]);
      ValueIsAnEvaluation(g, eval, child, t.agent, t.depth);
      var u :| u in Frontier(g, child, t.agent, t.depth) && Value(g, eval, child, t.agent, t.depth) == eval(u);
      FrontierFromContains(g, s, agent, t, 0, i);
      assert u in Frontier(g, s, agent, depth);
    }
  }

  /** With depth 0 the root still compares Pacman's own actions: each is
      worth the evaluation of the state it leads to. */
  lemma ZeroDepthRoot<S, A>(g: Game<S, A>, cfg: Config<S>, s: S)
    requires g.Valid() && cfg.depth == 0
    ensures forall i :: 0 <= i < |g.legal(s, 0)| ==>
      RootValues(g, cfg, s)[i] == cfg.eval(g.succ(s, 0, g.legal(s, 0)[i]))
  {
    var acts := g.legal(s, 0);
    forall i | 0 <= i < |acts|
      ensures RootValues(g, cfg, s)[i] == cfg.eval(g.succ(s, 0, acts[i]))
    {
      assert RootValues(g, cfg, s)[i] == Value(g, cfg.eval, g.succ(s, 0, acts[i]), 1, 0);
    }
  }

  /** How many successor states the search of a node generates: none at a
      cutoff, otherwise one per legal action of the agent to move plus what
      the search of each child generates.  A node that is not a cutoff
      generates at least one successor per legal action. */
  function Expanded<S, A>(g: Game<S, A>, s: S, agent: nat, depth: nat): (r: nat)
    requires g.Valid() && agent < g.agents
    ensures g.Cutoff(s, depth) ==> r == 0
    ensures !g.Cutoff(s, depth) ==> r >= |g.legal(s, agent)|
    decreases depth, g.agents - agent, 1, 0
  {
    if g.Cutoff(s, depth) then 0
    else ExpandedFrom(g, s, agent, ChildTurn(g, agent, depth), 0)
  }

  /** What the loop over agent's legal actions generates from action i on. */
  function ExpandedFrom<S, A>(g: Game<S, A>, s: S, agent: nat, t: Turn, i: nat): (r: nat)
    requires g.Valid() && t.agent < g.agents && i <= |g.legal(s, agent)|
    ensures r >= |g.legal(s, agent)| - i
    decreases t.depth, g.agents - t.agent, 2, |g.legal(s, agent)| - i
  {
    var acts := g.legal(s, agent);
    if i == |acts| then 0
    else 1 + Expanded(g, g.succ(s, agent, acts[i]), t.agent, t.depth) + ExpandedFrom(g, s, agent, t, i + 1)
  }

  /** MinimaxAgent.max_value: fold the children into a running maximum
      that starts at -inf. */
  method MaxValue<S, A>(g: Game<S, A>, eval: S -> real, s: S, depth: nat) returns (v: real)
    requires g.Valid()
    ensures v == MaxNode(g, eval, s, depth)
  {
    var bestValue := NegInf;
    var actions := g.legal(s, 0);
    if |actions| == 0 {
      return eval(s);
    }
    ghost var vs := Children(g, eval, s, 0, Turn(1, depth));
    for i := 0 to |actions|
      invariant bestValue == MaxFold(vs[..i])
    {
      var successor := g.succ(s, 0, actions[i]);
      var value := Value(g, eval, successor, 1, depth);
      assert vs[..i + 1][..i] == vs[..i];
      bestValue := Max(bestValue, Fin(value));
    }
    assert vs[..|actions|] == vs;
    return bestValue.v;
  }

  /** MinimaxAgent.min_value: pick the next agent (wrapping to Pacman and
      one round fewer after the last ghost), then fold the children into
      a running minimum that starts at +inf. */
  method MinValue<S, A>(g: Game<S, A>, eval: S -> real, s: S, agent: nat, depth: nat) returns (v: real)
    requires g.Valid() && 0 < agent < g.agents && depth > 0
    ensures v == MinNode(g, eval, s, agent, depth)
  {
    var bestValue := PosInf;
    var actions := g.legal(s, agent);
    if |actions| == 0 {
      return eval(s);
    }
    var nextAgent := agent + 1;
    var nextDepth := depth;
    if nextAgent == g.agents {
      nextAgent := 0;
      nextDepth := depth - 1;
    }
    ghost var vs := Children(g, eval, s, agent, Next(g, Turn(agent, depth)));
    for i := 0 to |actions|
      invariant bestValue == MinFold(vs[..i])
    {
      var successor := g.succ(s, agent, actions[i]);
      var value := Value(g, eval, successor, nextAgent, nextDepth);
      assert vs[..i + 1][..i] == vs[..i];
      bestValue := Min(bestValue, Fin(value));
    }
    assert vs[..|actions|] == vs;
    return bestValue.v;
  }

  /** MinimaxAgent.get_action: the first of Pacman's legal actions, in list
      order, whose minimax value is strictly greater than every earlier
      one, and None when Pacman has no legal action. */
  method GetAction<S, A>(g: Game<S, A>, cfg: Config<S>, s: S) returns (bestAction: Option<A>)
    requires g.Valid()
    ensures bestAction == Choice(g.legal(s, 0), RootValues(g, cfg, s))
  {
    bestAction := None;
    var bestValue := NegInf;
    var legalActions := g.legal(s, 0);
    ghost var vals := RootValues(g, cfg, s);
    for i := 0 to |legalActions|
      invariant i == 0 ==> bestValue == NegInf && bestAction == None
      invariant i > 0 ==> bestValue == Fin(vals[FirstMax(vals[..i])])
      invariant i > 0 ==> bestAction == Some(legalActions[FirstMax(vals[..i])])
    {
      var successorState := g.succ(s, 0, legalActions[i]);
      var value := Value(g, cfg.eval, successorState, 1, cfg.depth);
      assert vals[..i + 1][..i] == vals[..i];
      if Lt(bestValue, Fin(value)) {
        bestValue := Fin(value);
        bestAction := Some(legalActions[i]);
      }
    }
    assert vals[..|legalActions|] == vals;
  }
}
