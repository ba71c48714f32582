/** Two small hand-built games on which the searches are worked out in
    full.  A state is the list of actions taken so far. */
module Scenarios {
  import opened ExtReal
  import opened Games
  import Minimax
  import AlphaBeta
  import Expectimax

  /** The leaves of a two-ply tree: Pacman has two actions, the one ghost
      has two actions below each, and the leaves are worth 3, 5, 2 and 9. */
  function TwoPlyLeaf(s: seq<nat>): real {
    if s == [0, 0] then 3.0 else if s == [0, 1] then 5.0
    else if s == [1, 0] then 2.0 else if s == [1, 1] then 9.0 else 0.0
  }

  function TwoPlyGame(): Game<seq<nat>, nat> {
    Game(s => false, s => false,
         (s: seq<nat>, agent: nat) => if |s| < 2 then [0, 1] else [],
         (s: seq<nat>, agent: nat, a: nat) => s + [a],
         2, TwoPlyLeaf)
  }

  /** The agents' default evaluation function on this game: the score,
      which is the leaf value. */
  function TwoPlyEval(): seq<nat> -> real {
    s => ScoreEvaluation(TwoPlyGame(), s)
  }

  lemma GhostChildren(p: nat)
    requires p < 2
    ensures Minimax.Children(TwoPlyGame(), TwoPlyEval(), [p], 1, Turn(0, 0)) == [TwoPlyLeaf([p, 0]), TwoPlyLeaf([p, 1])]
  {
    var g := TwoPlyGame();
    assert g.legal([p], 1) == [0, 1];
    assert g.succ([p], 1, 0) == [p, 0] && g.succ([p], 1, 1) == [p, 1];
    var c := Minimax.Children(g, TwoPlyEval(), [p], 1, Turn(0, 0));
    assert c[0] == Minimax.Value(g, TwoPlyEval(), [p, 0], 0, 0);
    assert c[1] == Minimax.Value(g, TwoPlyEval(), [p, 1], 0, 0);
  }

  lemma GhostValues()
    ensures Minimax.Value(TwoPlyGame(), TwoPlyEval(), [0], 1, 1) == 3.0
    ensures Minimax.Value(TwoPlyGame(), TwoPlyEval(), [1], 1, 1) == 2.0
  {
    GhostChildren(0);
    GhostChildren(1);
    assert Next(TwoPlyGame(), Turn(1, 1)) == Turn(0, 0);
  }

  lemma RootValue()
    ensures Minimax.Value(TwoPlyGame(), TwoPlyEval(), [], 0, 1) == 3.0
  {
    var g := TwoPlyGame();
    GhostValues();
    assert g.legal([], 0) == [0, 1];
    assert g.succ([], 0, 0) == [0] && g.succ([], 0, 1) == [1];
    var c := Minimax.Children(g, TwoPlyEval(), [], 0, Turn(1, 1));
    assert c[0] == 3.0 && c[1] == 2.0;
    assert c == [3.0, 2.0];
  }

  lemma MinimaxExpansions()
    ensures Minimax.Expanded(TwoPlyGame(), [], 0, 1) == 6
  {
    var g := TwoPlyGame();
    assert g.legal([], 0) == [0, 1];
    assert g.succ([], 0, 0) == [0] && g.succ([], 0, 1) == [1];
    forall p: nat | p < 2
      ensures Minimax.Expanded(g, [p], 1, 1) == 2
    {
      assert g.legal([p], 1) == [0, 1];
      assert g.succ([p], 1, 0) == [p, 0] && g.succ([p], 1, 1) == [p, 1];
      assert ChildTurn(g, 1, 1) == Turn(0, 0);
      assert Minimax.ExpandedFrom(g, [p], 1, Turn(0, 0), 2) == 0;
      assert Minimax.ExpandedFrom(g, [p], 1, Turn(0, 0), 1) == 1;
    }
    assert Minimax.ExpandedFrom(g, [], 0, Turn(1, 1), 2) == 0;
    assert Minimax.ExpandedFrom(g, [], 0, Turn(1, 1), 1) == 3;
  }

  /** The first ghost node, searched with the full window, examines both
      of its actions and is worth 3. */
  lemma PrunedFirstGhost()
    ensures AlphaBeta.Value(TwoPlyGame(), TwoPlyEval(), [0], 1, 1, NegInf, PosInf) == 3.0
    ensures AlphaBeta.Expanded(TwoPlyGame(), TwoPlyEval(), [0], 1, 1, NegInf, PosInf) == 2
  {
    var g := TwoPlyGame();
    assert g.legal([0], 1) == [0, 1];
    assert g.succ([0], 1, 0) == [0, 0] && g.succ([0], 1, 1) == [0, 1];
    assert Next(g, Turn(1, 1)) == Turn(0, 0);
    assert AlphaBeta.Value(g, TwoPlyEval(), [0, 0], 0, 0, NegInf, PosInf) == 3.0;
    assert AlphaBeta.Value(g, TwoPlyEval(), [0, 1], 0, 0, NegInf, Fin(3.0)) == 5.0;
    assert AlphaBeta.MinLoop(g, TwoPlyEval(), [0], 1, 1, 2, Fin(3.0), NegInf, Fin(3.0)) == Fin(3.0);
    assert AlphaBeta.MinLoop(g, TwoPlyEval(), [0], 1, 1, 1, Fin(3.0), NegInf, Fin(3.0)) == Fin(3.0);
    assert AlphaBeta.MinLoop(g, TwoPlyEval(), [0], 1, 1, 0, PosInf, NegInf, PosInf) == Fin(3.0);
    assert AlphaBeta.MinExpanded(g, TwoPlyEval(), [0], 1, 1, 2, Fin(3.0), NegInf, Fin(3.0)) == 0;
    assert AlphaBeta.MinExpanded(g, TwoPlyEval(), [0], 1, 1, 1, Fin(3.0), NegInf, Fin(3.0)) == 1;
    assert AlphaBeta.MinExpanded(g, TwoPlyEval(), [0], 1, 1, 0, PosInf, NegInf, PosInf) == 2;
  }

  /** The second ghost node, searched once alpha is 3, breaks after its
      first action, whose value 2 is already below alpha. */
  lemma PrunedSecondGhost()
    ensures AlphaBeta.Value(TwoPlyGame(), TwoPlyEval(), [1], 1, 1, Fin(3.0), PosInf) == 2.0
    ensures AlphaBeta.Expanded(TwoPlyGame(), TwoPlyEval(), [1], 1, 1, Fin(3.0), PosInf) == 1
  {
    var g := TwoPlyGame();
    assert g.legal([1], 1) == [0, 1];
    assert g.succ([1], 1, 0) == [1, 0];
    assert Next(g, Turn(1, 1)) == Turn(0, 0);
    assert AlphaBeta.Value(g, TwoPlyEval(), [1, 0], 0, 0, Fin(3.0), PosInf) == 2.0;
    assert AlphaBeta.MinLoop(g, TwoPlyEval(), [1], 1, 1, 0, PosInf, Fin(3.0), PosInf) == Fin(2.0);
    assert AlphaBeta.MinExpanded(g, TwoPlyEval(), [1], 1, 1, 0, PosInf, Fin(3.0), PosInf) == 1;
  }

  lemma PrunedRoot()
    ensures AlphaBeta.Value(TwoPlyGame(), TwoPlyEval(), [], 0, 1, NegInf, PosInf) == 3.0
    ensures AlphaBeta.Expanded(TwoPlyGame(), TwoPlyEval(), [], 0, 1, NegInf, PosInf) == 5
  {
    var g := TwoPlyGame();
    PrunedFirstGhost();
    PrunedSecondGhost();
    assert g.legal([], 0) == [0, 1];
    assert g.succ([], 0, 0) == [0] && g.succ([], 0, 1) == [1];
    assert AlphaBeta.MaxLoop(g, TwoPlyEval(), [], 1, 2, Fin(3.0), Fin(3.0), PosInf) == Fin(3.0);
    assert AlphaBeta.MaxLoop(g, TwoPlyEval(), [], 1, 1, Fin(3.0), Fin(3.0), PosInf) == Fin(3.0);
    assert AlphaBeta.MaxLoop(g, TwoPlyEval(), [], 1, 0, NegInf, NegInf, PosInf) == Fin(3.0);
    assert AlphaBeta.MaxExpanded(g, TwoPlyEval(), [], 1, 2, Fin(3.0), Fin(3.0), PosInf) == 0;
    assert AlphaBeta.MaxExpanded(g, TwoPlyEval(), [], 1, 1, Fin(3.0), Fin(3.0), PosInf) == 2;
    assert AlphaBeta.MaxExpanded(g, TwoPlyEval(), [], 1, 0, NegInf, NegInf, PosInf) == 5;
  }

  /** On this tree pruning changes nothing but the work: both searches
      value the root at 3, and alpha-beta generates 5 successor states
      where minimax generates 6. */
  lemma PruningSaves()
    ensures Minimax.Value(TwoPlyGame(), TwoPlyEval(), [], 0, 1) == AlphaBeta.Value(TwoPlyGame(), TwoPlyEval(), [], 0, 1, NegInf, PosInf) == 3.0
    ensures AlphaBeta.Expanded(TwoPlyGame(), TwoPlyEval(), [], 0, 1, NegInf, PosInf) < Minimax.Expanded(TwoPlyGame(), [], 0, 1)
  {
    RootValue();
    MinimaxExpansions();
    PrunedRoot();
  }

  /** MinimaxAgent with the default evaluation and depth 1 picks Pacman's
      first action: against the worst ghost move it is worth 3, the second
      only 2. */
  lemma MinimaxPicksFirst()
    ensures Choice(TwoPlyGame().legal([], 0), Minimax.RootValues(TwoPlyGame(), Config(TwoPlyEval(), 1), [])) == Some(0)
  {
    var g := TwoPlyGame();
    GhostValues();
    assert g.legal([], 0) == [0, 1];
    assert g.succ([], 0, 0) == [0] && g.succ([], 0, 1) == [1];
    var vs := Minimax.RootValues(g, Config(TwoPlyEval(), 1), []);
    assert vs[0] == 3.0 && vs[1] == 2.0;
    assert vs[..1] == [3.0];
  }

  /** The ghost node below action p, searched by expectimax, is worth the
      mean of its two leaves. */
  lemma ChanceGhost(p: nat)
    requires p < 2
    ensures Expectimax.Value(TwoPlyGame(), TwoPlyEval(), [p], 1, 1) == (TwoPlyLeaf([p, 0]) + TwoPlyLeaf([p, 1])) / 2.0
  {
    var g := TwoPlyGame();
    assert g.legal([p], 1) == [0, 1];
    assert g.succ([p], 1, 0) == [p, 0] && g.succ([p], 1, 1) == [p, 1];
    assert Next(g, Turn(1, 1)) == Turn(0, 0);
    var c := Expectimax.Children(g, TwoPlyEval(), [p], 1, Turn(0, 0));
    assert c[0] == TwoPlyLeaf([p, 0]) && c[1] == TwoPlyLeaf([p, 1]);
    assert c[..1] == [c[0]] && [c[0]][..0] == [];
    assert Sum([c[0]]) == c[0];
  }

  /** On the same tree ExpectimaxAgent picks the second action: ghosts
      that move at random make it worth 5.5 on average, against 4 for the
      first. */
  lemma ExpectimaxPicksSecond()
    ensures Choice(TwoPlyGame().legal([], 0), Expectimax.RootValues(TwoPlyGame(), Config(TwoPlyEval(), 1), [])) == Some(1)
  {
    var g := TwoPlyGame();
    ChanceGhost(0);
    ChanceGhost(1);
    assert g.legal([], 0) == [0, 1];
    assert g.succ([], 0, 0) == [0] && g.succ([], 0, 1) == [1];
    var vs := Expectimax.RootValues(g, Config(TwoPlyEval(), 1), []);
    assert vs[0] == 4.0 && vs[1] == 5.5;
    assert vs[..1] == [4.0];
  }

  function ChanceLeaf(s: seq<nat>): real {
    if s == [0] then 2.0 else if s == [1] then 4.0 else if s == [2] then 9.0 else 0.0
  }

  /** One ghost with three actions and leaves worth 2, 4 and 9. */
  function ChanceGame(): Game<seq<nat>, nat> {
    Game(s => false, s => false,
         (s: seq<nat>, agent: nat) => if s == [] then [0, 1, 2] else [],
         (s: seq<nat>, agent: nat, a: nat) => s + [a],
         2, ChanceLeaf)
  }

  /** A chance node over leaves worth 2, 4 and 9 is worth exactly 5. */
  lemma ChanceAverages()
    ensures Expectimax.Value(ChanceGame(), ChanceLeaf, [], 1, 1) == 5.0
  {
    var g := ChanceGame();
    assert g.legal([], 1) == [0, 1, 2];
    assert g.succ([], 1, 0) == [0] && g.succ([], 1, 1) == [1] && g.succ([], 1, 2) == [2];
    assert Next(g, Turn(1, 1)) == Turn(0, 0);
    var c := Expectimax.Children(g, ChanceLeaf, [], 1, Turn(0, 0));
    assert c[0] == 2.0 && c[1] == 4.0 && c[2] == 9.0;
    assert c == [2.0, 4.0, 9.0];
    assert c[..2] == [2.0, 4.0] && c[..2][..1] == [2.0] && [2.0][..0] == [];
    assert Sum([2.0]) == 2.0;
    assert Sum([2.0, 4.0]) == 6.0;
    assert Sum(c) == 15.0;
  }
}
