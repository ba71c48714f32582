/** The world the search runs in, seen only through the queries the search
    makes of a game state, and the pieces the three search agents share:
    the turn order (agent index and remaining depth) and the root choice. */
module Games {
  import opened ExtReal

  datatype Option<T> = None | Some(value: T)

  /** A game whose states have type S and whose actions have type A.  The
      search never looks inside a state: it asks whether it is won or lost,
      which actions an agent may take in it, which state an action leads
      to, and its score.  Agent 0 is Pacman; agents 1 .. agents - 1 are the
      ghosts, which move in increasing index order within a round.  The
      number of agents is the same in every state of one game. */
  datatype Game<!S, !A> = Game(
    isWin: S -> bool,
    isLose: S -> bool,
    legal: (S, nat) -> seq<A>,
    succ: (S, nat, A) -> S,
    agents: nat,
    score: S -> real)
  {
    /** After Pacman moves the search always hands the move to agent 1, so
        the game has Pacman and at least one ghost. */
    predicate Valid() {
      agents >= 2
    }

    /** A node at which every search variant stops and evaluates. */
    predicate Cutoff(s: S, depth: nat) {
      isWin(s) || isLose(s) || depth == 0
    }
  }

  /** What a search agent is configured with: its evaluation function and
      the number of full rounds it looks ahead. */
  datatype Config<!S> = Config(eval: S -> real, depth: nat)

  /** The default evaluation function: the score of the state. */
  function ScoreEvaluation<S, A>(g: Game<S, A>, s: S): real
  {
    g.score(s)
  }

  /** Whose move it is and how many full rounds remain. */
  datatype Turn = Turn(agent: nat, depth: nat)

  /** The turn after a ghost's move: the next ghost at the same depth, or,
      after the last ghost, Pacman with one round fewer. */
  function Next<S, A>(g: Game<S, A>, t: Turn): (r: Turn)
    requires g.Valid() && t.agent < g.agents && t.depth > 0
    ensures r.agent < g.agents
    ensures r.agent == 0 <==> t.agent + 1 == g.agents
    ensures r.agent == 0 ==> r.depth + 1 == t.depth
    ensures r.agent != 0 ==> r.agent == t.agent + 1 && r.depth == t.depth
  {
    var nextAgent := t.agent + 1;
    if nextAgent == g.agents then Turn(0, t.depth - 1) else Turn(nextAgent, t.depth)
  }

  /** The turn from which the children of a node are searched: agent 1 at
      the same depth after Pacman (max_value), the next turn after a ghost
      (min_value, exp_value).  It is always a strictly later turn. */
  function ChildTurn<S, A>(g: Game<S, A>, agent: nat, depth: nat): (r: Turn)
    requires g.Valid() && agent < g.agents && depth > 0
    ensures r.agent < g.agents
    ensures agent == 0 ==> r == Turn(1, depth)
    ensures r.depth < depth || (r.depth == depth && r.agent > agent)
  {
    if agent == 0 then Turn(1, depth) else Next(g, Turn(agent, depth))
  }

  /** The turn k moves after t, for moves that stay within the round t is in. */
  function Advance<S, A>(g: Game<S, A>, t: Turn, k: nat): Turn
    requires g.Valid() && t.agent < g.agents && t.agent + k <= g.agents
    requires k == 0 || t.depth > 0
    decreases k
  {
    if k == 0 then t else Advance(g, Next(g, t), k - 1)
  }

  /** The depth counter drops only when the agent index wraps to 0: every
      move inside a round keeps the depth, and the move of the last ghost
      hands the turn to Pacman with exactly one round fewer. */
  lemma {:induction false} AdvanceRound<S, A>(g: Game<S, A>, t: Turn, k: nat)
    requires g.Valid() && t.agent < g.agents && t.agent + k <= g.agents
    requires k == 0 || t.depth > 0
    ensures t.agent + k < g.agents ==> Advance(g, t, k) == Turn(t.agent + k, t.depth)
    ensures t.agent + k == g.agents ==> Advance(g, t, k) == Turn(0, t.depth - 1)
    decreases k
  {
    if k > 0 {
      AdvanceRound(g, Next(g, t), k - 1);
    }
  }

  /** A full round from Pacman's move: all agents move once, in index
      order, and the depth drops by exactly one. */
  lemma FullRound<S, A>(g: Game<S, A>, depth: nat)
    requires g.Valid() && depth > 0
    ensures forall k :: 0 < k < g.agents ==> Advance(g, Turn(0, depth), k) == Turn(k, depth)
    ensures Advance(g, Turn(0, depth), g.agents) == Turn(0, depth - 1)
  {
    forall k | 0 < k < g.agents
      ensures Advance(g, Turn(0, depth), k) == Turn(k, depth)
    {
      AdvanceRound(g, Turn(0, depth), k);
    }
    AdvanceRound(g, Turn(0, depth), g.agents);
  }

  /** A max node hands the move to agent 1 at the same depth, which is
      the general next-turn rule applied to Pacman. */
  lemma MaxNodeNextTurn<S, A>(g: Game<S, A>, depth: nat)
    requires g.Valid() && depth > 0
    ensures Next(g, Turn(0, depth)) == Turn(1, depth)
  {
  }

  /** k is the index of the first value that is at least every value. */
  predicate IsFirstMax(vals: seq<real>, k: nat) {
    k < |vals| &&
    (forall j :: 0 <= j < |vals| ==> vals[j] <= vals[k]) &&
    (forall j :: 0 <= j < k ==> vals[j] < vals[k])
  }

  /** The index a root loop that keeps the first strictly greater value
      ends on. */
  function FirstMax(vals: seq<real>): (k: nat)
    requires vals != []
    ensures IsFirstMax(vals, k)
  {
    if |vals| == 1 then 0
    else
      var last := |vals| - 1;
      var k := FirstMax(vals[..last]);
      assert forall j :: 0 <= j < last ==> vals[..last][j] == vals[j];
      if vals[last] > vals[k] then last else k
  }

  /** The first-maximum index is determined by the values alone. */
  lemma FirstMaxUnique(vals: seq<real>, k: nat)
    requires IsFirstMax(vals, k)
    ensures vals != [] && FirstMax(vals) == k
  {
  }

  /** The action a root loop picks: none when Pacman has no legal action,
      otherwise the first action whose value is the greatest. */
  function Choice<A>(acts: seq<A>, vals: seq<real>): (r: Option<A>)
    requires |acts| == |vals|
    ensures r.None? <==> |acts| == 0
    ensures r.Some? ==> exists k: nat :: IsFirstMax(vals, k) && r.value == acts[k]
  {
    if |acts| == 0 then None else Some(acts[FirstMax(vals)])
  }
}
