/** AlphaBetaAgent: minimax that carries a window (alpha, beta) down the
    search and stops examining a node's remaining actions once alpha
    exceeds beta.  The window changes how much of the tree is visited,
    never the action chosen at the root. */
module AlphaBeta {
  import opened ExtReal
  import opened Games
  import Minimax

  /** alpha_beta_value: the same cutoff and dispatch as minimax, with the
      window passed on to the max and min nodes.  Whatever the window, a
      won or lost state, no depth left, or no legal action for the agent
      to move gives the state's own evaluation. */
  function Value<S, A>(g: Game<S, A>, eval: S -> real, s: S, agent: nat, depth: nat, alpha: Ext, beta: Ext): (r: real)
    requires g.Valid() && agent < g.agents
    ensures g.Cutoff(s, depth) || |g.legal(s, agent)| == 0 ==> r == eval(s)
    decreases depth, g.agents - agent, 2, 0
  {
    if g.Cutoff(s, depth) then eval(s)
    else if agent == 0 then MaxNode(g, eval, s, depth, alpha, beta)
    else MinNode(g, eval, s, agent, depth, alpha, beta)
  }

  /** max_value: Pacman with no legal action is evaluated in place;
      otherwise the result of its pruning loop. */
  function MaxNode<S, A>(g: Game<S, A>, eval: S -> real, s: S, depth: nat, alpha: Ext, beta: Ext): (r: real)
    requires g.Valid()
    ensures |g.legal(s, 0)| == 0 ==> r == eval(s)
    decreases depth, g.agents, 1, 0
  {
    if |g.legal(s, 0)| == 0 then eval(s)
    else MaxLoop(g, eval, s, depth, 0, NegInf, alpha, beta).v
  }

  /** The loop of max_value from action i on, given the running value and
      alpha it has reached: each child is searched with the current
      window, the running value takes the larger, alpha rises to it, and
      the loop stops as soon as alpha > beta. */
  function MaxLoop<S, A>(g: Game<S, A>, eval: S -> real, s: S, depth: nat, i: nat, value: Ext, alpha: Ext, beta: Ext): (r: Ext)
    requires g.Valid() && i <= |g.legal(s, 0)|
    ensures value != PosInf && (i < |g.legal(s, 0)| || value.Fin?) ==> r.Fin?
    decreases depth, g.agents, 0, |g.legal(s, 0)| - i
  {
    var acts := g.legal(s, 0);
    if i == |acts| then value
    else
      var val := Value(g, eval, g.succ(s, 0, acts[i]), 1, depth, alpha, beta);
      var value' := Max(value, Fin(val));
      var alpha' := Max(alpha, value');
      if Lt(beta, alpha') then value' else MaxLoop(g, eval, s, depth, i + 1, value', alpha', beta)
  }

  /** min_value: a ghost with no legal action is evaluated in place;
      otherwise the result of its pruning loop. */
  function MinNode<S, A>(g: Game<S, A>, eval: S -> real, s: S, agent: nat, depth: nat, alpha: Ext, beta: Ext): (r: real)
    requires g.Valid() && 0 < agent < g.agents && depth > 0
    ensures |g.legal(s, agent)| == 0 ==> r == eval(s)
    decreases depth, g.agents - agent, 1, 0
  {
    if |g.legal(s, agent)| == 0 then eval(s)
    else MinLoop(g, eval, s, agent, depth, 0, PosInf, alpha, beta).v
  }

  /** The loop of min_value from action i on: each child is searched from
      the next turn with the current window, the running value takes the
      smaller, beta falls to it, and the loop stops as soon as alpha > beta. */
  function MinLoop<S, A>(g: Game<S, A>, eval: S -> real, s: S, agent: nat, depth: nat, i: nat, value: Ext, alpha: Ext, beta: Ext): (r: Ext)
    requires g.Valid() && 0 < agent < g.agents && depth > 0 && i <= |g.legal(s, agent)|
    ensures value != NegInf && (i < |g.legal(s, agent)| || value.Fin?) ==> r.Fin?
    decreases depth, g.agents - agent, 0, |g.legal(s, agent)| - i
  {
    var acts := g.legal(s, agent);
    var t := Next(g, Turn(agent, depth));
    if i == |acts| then value
    else
      var val := Value(g, eval, g.succ(s, agent, acts[i]), t.agent, t.depth, alpha, beta);
      var value' := Min(value, Fin(val));
      var beta' := Min(beta, value');
      if Lt(beta', alpha) then value' else MinLoop(g, eval, s, agent, depth, i + 1, value', alpha, beta')
  }

  // ---------------------------------------------------------------------
  // Fail-soft alpha-beta: the pruned value against the minimax value v.

  /** r is what a fail-soft search may return for a node of value v with
      the window [alpha, beta]: v itself when v is inside the window, an
      upper bound at most alpha when v fails low, and a lower bound at
      least beta when v fails high. */
  predicate FailSoftBound(v: real, alpha: Ext, beta: Ext, r: real) {
    (Le(alpha, Fin(v)) && Le(Fin(v), beta) ==> r == v) &&
    (Le(Fin(v), alpha) ==> Le(Fin(r), alpha)) &&
    (Le(beta, Fin(v)) ==> Le(beta, Fin(r)))
  }

  /** What the max loop keeps, with m the maximum of the minimax values
      of the children it has examined and a its current alpha: while m is
      at most beta the running value is m (or at most the original alpha
      when m is below it); once m exceeds beta the running value is at
      least beta. */
  predicate MaxInv(alpha: Ext, beta: Ext, m: Ext, value: Ext, a: Ext) {
    a == Max(alpha, value) && value != PosInf && m != PosInf &&
    ((Le(m, beta) && (Le(alpha, m) ==> value == m) && (Lt(m, alpha) ==> Le(value, alpha))) ||
     (Lt(beta, m) && Le(beta, value)))
  }

  /** The max loop's result r against the maximum m of all its children's
      minimax values. */
  predicate MaxOutcome(alpha: Ext, beta: Ext, m: Ext, r: Ext) {
    (Le(m, beta) && Le(alpha, m) ==> r == m) &&
    (Le(m, beta) && Lt(m, alpha) ==> Le(r, alpha)) &&
    (Lt(beta, m) ==> Le(beta, r))
  }

  /** The min loop's counterpart of MaxInv, with m the minimum of the
      minimax values examined and b its current beta. */
  predicate MinInv(alpha: Ext, beta: Ext, m: Ext, value: Ext, b: Ext) {
    b == Min(beta, value) && value != NegInf && m != NegInf &&
    ((Le(alpha, m) && (Le(m, beta) ==> value == m) && (Lt(beta, m) ==> Le(beta, value))) ||
     (Lt(m, alpha) && Le(value, alpha)))
  }

  /** The min loop's result r against the minimum m of all its children's
      minimax values. */
  predicate MinOutcome(alpha: Ext, beta: Ext, m: Ext, r: Ext) {
    (Le(alpha, m) && Le(m, beta) ==> r == m) &&
    (Le(alpha, m) && Lt(beta, m) ==> Le(beta, r)) &&
    (Lt(m, alpha) ==> Le(r, alpha))
  }

  /** One turn of the max loop keeps MaxInv, and it breaks only once the
      children's minimax maximum exceeds beta. */
  lemma MaxStep(alpha: Ext, beta: Ext, m: Ext, value: Ext, a: Ext, v: real, r: real)
    requires Le(alpha, beta) && Le(a, beta) && MaxInv(alpha, beta, m, value, a)
    requires FailSoftBound(v, a, beta, r)
    ensures MaxInv(alpha, beta, Max(m, Fin(v)), Max(value, Fin(r)), Max(a, Max(value, Fin(r))))
    ensures Lt(beta, Max(a, Max(value, Fin(r)))) ==> Lt(beta, Max(m, Fin(v)))
  {
  }

  /** One turn of the min loop keeps MinInv, and it breaks only once the
      children's minimax minimum is below alpha. */
  lemma MinStep(alpha: Ext, beta: Ext, m: Ext, value: Ext, b: Ext, v: real, r: real)
    requires Le(alpha, beta) && Le(alpha, b) && MinInv(alpha, beta, m, value, b)
    requires FailSoftBound(v, alpha, b, r)
    ensures MinInv(alpha, beta, Min(m, Fin(v)), Min(value, Fin(r)), Min(b, Min(value, Fin(r))))
    ensures Lt(Min(b, Min(value, Fin(r))), alpha) ==> Lt(Min(m, Fin(v)), alpha)
  {
  }

  /** From the loop outcome over all children to the fail-soft bound of
      the node. */
  lemma MaxOutcomeBound(alpha: Ext, beta: Ext, v: real, r: real)
    requires Le(alpha, beta) && MaxOutcome(alpha, beta, Fin(v), Fin(r))
    ensures FailSoftBound(v, alpha, beta, r)
  {
  }

  lemma MinOutcomeBound(alpha: Ext, beta: Ext, v: real, r: real)
    requires Le(alpha, beta) && MinOutcome(alpha, beta, Fin(v), Fin(r))
    ensures FailSoftBound(v, alpha, beta, r)
  {
  }

  /** The fail-soft property of alpha-beta as the source writes it (alpha
      and beta threaded through the loops, a break only when alpha >
      beta), for every node and every window with alpha <= beta. */
  lemma {:induction false} FailSoft<S, A>(g: Game<S, A>, eval: S -> real, s: S, agent: nat, depth: nat, alpha: Ext, beta: Ext)
    requires g.Valid() && agent < g.agents && Le(alpha, beta)
    ensures FailSoftBound(Minimax.Value(g, eval, s, agent, depth), alpha, beta, Value(g, eval, s, agent, depth, alpha, beta))
    decreases depth, g.agents - agent, 2, 0
  {
    if g.Cutoff(s, depth) {
    } else if agent == 0 {
      MaxNodeFailSoft(g, eval, s, depth, alpha, beta);
    } else {
      MinNodeFailSoft(g, eval, s, agent, depth, alpha, beta);
    }
  }

  lemma {:induction false} MaxNodeFailSoft<S, A>(g: Game<S, A>, eval: S -> real, s: S, depth: nat, alpha: Ext, beta: Ext)
    requires g.Valid() && Le(alpha, beta)
    ensures FailSoftBound(Minimax.MaxNode(g, eval, s, depth), alpha, beta, MaxNode(g, eval, s, depth, alpha, beta))
    decreases depth, g.agents, 1, 0
  {
    if |g.legal(s, 0)| > 0 {
      var vs := Minimax.Children(g, eval, s, 0, Turn(1, depth));
      assert vs[..0] == [];
      MaxLoopFailSoft(g, eval, s, depth, 0, NegInf, alpha, alpha, beta);
      assert vs[..|vs|] == vs;
      MaxOutcomeBound(alpha, beta, Minimax.MaxNode(g, eval, s, depth), MaxNode(g, eval, s, depth, alpha, beta));
    }
  }

  lemma {:induction false} MaxLoopFailSoft<S, A>(g: Game<S, A>, eval: S -> real, s: S, depth: nat, i: nat, value: Ext, a: Ext, alpha: Ext, beta: Ext)
    requires g.Valid() && i <= |g.legal(s, 0)| && Le(alpha, beta) && Le(a, beta)
    requires MaxInv(alpha, beta, MaxFold(Minimax.Children(g, eval, s, 0, Turn(1, depth))[..i]), value, a)
    ensures MaxOutcome(alpha, beta, MaxFold(Minimax.Children(g, eval, s, 0, Turn(1, depth))), MaxLoop(g, eval, s, depth, i, value, a, beta))
    decreases depth, g.agents, 0, |g.legal(s, 0)| - i
  {
    var acts := g.legal(s, 0);
    var vs := Minimax.Children(g, eval, s, 0, Turn(1, depth));
    if i == |acts| {
      assert vs[..i] == vs;
    } else {
      var child := g.succ(s, 0, acts[i]);
      FailSoft(g, eval, child, 1, depth, a, beta);
      var r := Value(g, eval, child, 1, depth, a, beta);
      var value' := Max(value, Fin(r));
      var a' := Max(a, value');
      assert vs[..i + 1][..i] == vs[..i];
      MaxStep(alpha, beta, MaxFold(vs[..i]), value, a, vs[i], r);
      if Lt(beta, a') {
        MaxFoldPrefix(vs, i + 1);
      } else {
        MaxLoopFailSoft(g, eval, s, depth, i + 1, value', a', alpha, beta);
      }
    }
  }

  lemma {:induction false} MinNodeFailSoft<S, A>(g: Game<S, A>, eval: S -> real, s: S, agent: nat, depth: nat, alpha: Ext, beta: Ext)
    requires g.Valid() && 0 < agent < g.agents && depth > 0 && Le(alpha, beta)
    ensures FailSoftBound(Minimax.MinNode(g, eval, s, agent, depth), alpha, beta, MinNode(g, eval, s, agent, depth, alpha, beta))
    decreases depth, g.agents - agent, 1, 0
  {
    if |g.legal(s, agent)| > 0 {
      var vs := Minimax.Children(g, eval, s, agent, Next(g, Turn(agent, depth)));
      assert vs[..0] == [];
      MinLoopFailSoft(g, eval, s, agent, depth, 0, PosInf, beta, alpha, beta);
      assert vs[..|vs|] == vs;
      MinOutcomeBound(alpha, beta, Minimax.MinNode(g, eval, s, agent, depth), MinNode(g, eval, s, agent, depth, alpha, beta));
    }
  }

  lemma {:induction false} MinLoopFailSoft<S, A>(g: Game<S, A>, eval: S -> real, s: S, agent: nat, depth: nat, i: nat, value: Ext, b: Ext, alpha: Ext, beta: Ext)
    requires g.Valid() && 0 < agent < g.agents && depth > 0 && i <= |g.legal(s, agent)|
    requires Le(alpha, beta) && Le(alpha, b)
    requires MinInv(alpha, beta, MinFold(Minimax.Children(g, eval, s, agent, Next(g, Turn(agent, depth)))[..i]), value, b)
    ensures MinOutcome(alpha, beta, MinFold(Minimax.Children(g, eval, s, agent, Next(g, Turn(agent, depth)))), MinLoop(g, eval, s, agent, depth, i, value, alpha, b))
    decreases depth, g.agents - agent, 0, |g.legal(s, agent)| - i
  {
    var acts := g.legal(s, agent);
    var t := Next(g, Turn(agent, depth));
    var vs := Minimax.Children(g, eval, s, agent, t);
    if i == |acts| {
      assert vs[..i] == vs;
    } else {
      var child := g.succ(s, agent, acts[i]);
      FailSoft(g, eval, child, t.agent, t.depth, alpha, b);
      var r := Value(g, eval, child, t.agent, t.depth, alpha, b);
      var value' := Min(value, Fin(r));
      var b' := Min(b, value');
      assert vs[..i + 1][..i] == vs[..i];
      MinStep(alpha, beta, MinFold(vs[..i]), value, b, vs[i], r);
      if Lt(b', alpha) {
        MinFoldPrefix(vs, i + 1);
      } else {
        MinLoopFailSoft(g, eval, s, agent, depth, i + 1, value', b', alpha, beta);
      }
    }
  }

  /** With the window (-inf, +inf) alpha-beta returns the minimax value. */
  lemma FullWindowIsMinimax<S, A>(g: Game<S, A>, eval: S -> real, s: S, agent: nat, depth: nat)
    requires g.Valid() && agent < g.agents
    ensures Value(g, eval, s, agent, depth, NegInf, PosInf) == Minimax.Value(g, eval, s, agent, depth)
  {
    FailSoft(g, eval, s, agent, depth, NegInf, PosInf);
  }

  // ---------------------------------------------------------------------
  // What pruning saves.

  /** How many successor states alpha-beta generates for a node: none at a
      cutoff, otherwise one per action its loop reaches before the break,
      plus what the search of each of those children generates.  The loop
      breaks only after a child, so a node that is not a cutoff and has a
      legal action always generates at least one successor. */
  function Expanded<S, A>(g: Game<S, A>, eval: S -> real, s: S, agent: nat, depth: nat, alpha: Ext, beta: Ext): (r: nat)
    requires g.Valid() && agent < g.agents
    ensures g.Cutoff(s, depth) ==> r == 0
    ensures !g.Cutoff(s, depth) ==> (r == 0 <==> |g.legal(s, agent)| == 0)
    decreases depth, g.agents - agent, 2, 0
  {
    if g.Cutoff(s, depth) then 0
    else if agent == 0 then MaxExpanded(g, eval, s, depth, 0, NegInf, alpha, beta)
    else MinExpanded(g, eval, s, agent, depth, 0, PosInf, alpha, beta)
  }

  /** What the max loop generates from action i on, in the state MaxLoop
      describes. */
  function MaxExpanded<S, A>(g: Game<S, A>, eval: S -> real, s: S, depth: nat, i: nat, value: Ext, alpha: Ext, beta: Ext): (r: nat)
    requires g.Valid() && i <= |g.legal(s, 0)|
    ensures r == 0 <==> i == |g.legal(s, 0)|
    decreases depth, g.agents, 0, |g.legal(s, 0)| - i
  {
    var acts := g.legal(s, 0);
    if i == |acts| then 0
    else
      var child := g.succ(s, 0, acts[i]);
      var value' := Max(value, Fin(Value(g, eval, child, 1, depth, alpha, beta)));
      var alpha' := Max(alpha, value');
      1 + Expanded(g, eval, child, 1, depth, alpha, beta) +
      (if Lt(beta, alpha') then 0 else MaxExpanded(g, eval, s, depth, i + 1, value', alpha', beta))
  }

  /** What the min loop generates from action i on, in the state MinLoop
      describes. */
  function MinExpanded<S, A>(g: Game<S, A>, eval: S -> real, s: S, agent: nat, depth: nat, i: nat, value: Ext, alpha: Ext, beta: Ext): (r: nat)
    requires g.Valid() && 0 < agent < g.agents && depth > 0 && i <= |g.legal(s, agent)|
    ensures r == 0 <==> i == |g.legal(s, agent)|
    decreases depth, g.agents - agent, 0, |g.legal(s, agent)| - i
  {
    var acts := g.legal(s, agent);
    var t := Next(g, Turn(agent, depth));
    if i == |acts| then 0
    else
      var child := g.succ(s, agent, acts[i]);
      var value' := Min(value, Fin(Value(g, eval, child, t.agent, t.depth, alpha, beta)));
      var beta' := Min(beta, value');
      1 + Expanded(g, eval, child, t.agent, t.depth, alpha, beta) +
      (if Lt(beta', alpha) then 0 else MinExpanded(g, eval, s, agent, depth, i + 1, value', alpha, beta'))
  }

  /** Pruning only ever skips work: for every node and every window,
      alpha-beta generates at most as many successor states as minimax. */
  lemma {:induction false} PrunedExpandsNoMore<S, A>(g: Game<S, A>, eval: S -> real, s: S, agent: nat, depth: nat, alpha: Ext, beta: Ext)
    requires g.Valid() && agent < g.agents
    ensures Expanded(g, eval, s, agent, depth, alpha, beta) <= Minimax.Expanded(g, s, agent, depth)
    decreases depth, g.agents - agent, 2, 0
  {
    if !g.Cutoff(s, depth) {
      if agent == 0 {
        MaxExpandedNoMore(g, eval, s, depth, 0, NegInf, alpha, beta);
      } else {
        MinExpandedNoMore(g, eval, s, agent, depth, 0, PosInf, alpha, beta);
      }
    }
  }

  lemma {:induction false} MaxExpandedNoMore<S, A>(g: Game<S, A>, eval: S -> real, s: S, depth: nat, i: nat, value: Ext, alpha: Ext, beta: Ext)
    requires g.Valid() && i <= |g.legal(s, 0)|
    ensures MaxExpanded(g, eval, s, depth, i, value, alpha, beta) <= Minimax.ExpandedFrom(g, s, 0, Turn(1, depth), i)
    decreases depth, g.agents, 0, |g.legal(s, 0)| - i
  {
    var acts := g.legal(s, 0);
    if i < |acts| {
      var child := g.succ(s, 0, acts[i]);
      PrunedExpandsNoMore(g, eval, child, 1, depth, alpha, beta);
      var value' := Max(value, Fin(Value(g, eval, child, 1, depth, alpha, beta)));
      MaxExpandedNoMore(g, eval, s, depth, i + 1, value', Max(alpha, value'), beta);
    }
  }

  lemma {:induction false} MinExpandedNoMore<S, A>(g: Game<S, A>, eval: S -> real, s: S, agent: nat, depth: nat, i: nat, value: Ext, alpha: Ext, beta: Ext)
    requires g.Valid() && 0 < agent < g.agents && depth > 0 && i <= |g.legal(s, agent)|
    ensures MinExpanded(g, eval, s, agent, depth, i, value, alpha, beta) <= Minimax.ExpandedFrom(g, s, agent, Next(g, Turn(agent, depth)), i)
    decreases depth, g.agents - agent, 0, |g.legal(s, agent)| - i
  {
    var acts := g.legal(s, agent);
    var t := Next(g, Turn(agent, depth));
    if i < |acts| {
      var child := g.succ(s, agent, acts[i]);
      PrunedExpandsNoMore(g, eval, child, t.agent, t.depth, alpha, beta);
      var value' := Min(value, Fin(Value(g, eval, child, t.agent, t.depth, alpha, beta)));
      MinExpandedNoMore(g, eval, s, agent, depth, i + 1, value', alpha, Min(beta, value'));
    }
  }

  // ---------------------------------------------------------------------
  // The agent's loops.

  /** AlphaBetaAgent.max_value: a running value from -inf, alpha raised to
      it after every child, and a break once alpha > beta. */
  method MaxValue<S, A>(g: Game<S, A>, eval: S -> real, s: S, depth: nat, alpha: Ext, beta: Ext) returns (v: real)
    requires g.Valid()
    ensures v == MaxNode(g, eval, s, depth, alpha, beta)
  {
    var value := NegInf;
    var actions := g.legal(s, 0);
    if |actions| == 0 {
      return eval(s);
    }
    var a := alpha;  // the source rebinds its alpha parameter
    var i := 0;
    while i < |actions|
      invariant 0 <= i <= |actions|
      invariant value != PosInf && (i > 0 ==> value.Fin?)
      invariant MaxLoop(g, eval, s, depth, i, value, a, beta) == MaxLoop(g, eval, s, depth, 0, NegInf, alpha, beta)
      decreases |actions| - i
    {
      var successor := g.succ(s, 0, actions[i]);
      var val := Value(g, eval, successor, 1, depth, a, beta);
      value := Max(value, Fin(val));
      a := Max(a, value);
      if Lt(beta, a) {
        break;
      }
      i := i + 1;
    }
    return value.v;
  }

  /** AlphaBetaAgent.min_value: the next turn as in minimax, a running
      value from +inf, beta lowered to it after every child, and a break
      once alpha > beta. */
  method MinValue<S, A>(g: Game<S, A>, eval: S -> real, s: S, agent: nat, depth: nat, alpha: Ext, beta: Ext) returns (v: real)
    requires g.Valid() && 0 < agent < g.agents && depth > 0
    ensures v == MinNode(g, eval, s, agent, depth, alpha, beta)
  {
    var value := PosInf;
    var actions := g.legal(s, agent);
    if |actions| == 0 {
      return eval(s);
    }
    var nextAgent := agent + 1;
    var nextDepth := depth;
    if nextAgent == g.agents {
      nextAgent := 0;
      nextDepth := depth - 1;
    }
    var b := beta;  // the source rebinds its beta parameter
    var i := 0;
    while i < |actions|
      invariant 0 <= i <= |actions|
      invariant value != NegInf && (i > 0 ==> value.Fin?)
      invariant MinLoop(g, eval, s, agent, depth, i, value, alpha, b) == MinLoop(g, eval, s, agent, depth, 0, PosInf, alpha, beta)
      decreases |actions| - i
    {
      var successor := g.succ(s, agent, actions[i]);
      var val := Value(g, eval, successor, nextAgent, nextDepth, alpha, b);
      value := Min(value, Fin(val));
      b := Min(b, value);
      if Lt(b, alpha) {
        break;
      }
      i := i + 1;
    }
    return value.v;
  }

  /** AlphaBetaAgent.get_action: alpha rises to the best root value after
      every action while beta stays +inf; the action returned is the one
      MinimaxAgent.get_action returns, the first with the greatest minimax
      value, and None when Pacman has no legal action. */
  method GetAction<S, A>(g: Game<S, A>, cfg: Config<S>, s: S) returns (bestAction: Option<A>)
    requires g.Valid()
    ensures bestAction == Choice(g.legal(s, 0), Minimax.RootValues(g, cfg, s))
  {
    bestAction := None;
    var bestValue := NegInf;
    var alpha := NegInf;
    var beta := PosInf;
    var legalActions := g.legal(s, 0);
    ghost var vals := Minimax.RootValues(g, cfg, s);
    for i := 0 to |legalActions|
      invariant alpha == bestValue
      invariant i == 0 ==> bestValue == NegInf && bestAction == None
      invariant i > 0 ==> bestValue == Fin(vals[FirstMax(vals[..i])])
      invariant i > 0 ==> bestAction == Some(legalActions[FirstMax(vals[..i])])
    {
      var successorState := g.succ(s, 0, legalActions[i]);
      var value := Value(g, cfg.eval, successorState, 1, cfg.depth, alpha, beta);
      FailSoft(g, cfg.eval, successorState, 1, cfg.depth, alpha, beta);
      assert vals[..i + 1][..i] == vals[..i];
      if Lt(bestValue, Fin(value)) {
        bestValue := Fin(value);
        bestAction := Some(legalActions[i]);
      }
      alpha := Max(alpha, bestValue);
    }
    assert vals[..|legalActions|] == vals;
  }
}
