/** How the calls on a tcp helper's reference count end, whatever other agents do in between: a get with all it
    asked for or with nothing, a holder's get of the next level one level up or where it was, a drop with
    nothing. */
module ThrRefCalls {
  import opened ThrRef

  /** The state before move `k`. */
  ghost function At(s: State, moves: seq<Move>, k: nat): (r: State)
    requires WellFormed(s) && k <= |moves|
    ensures WellFormed(r)
  {
    Exec(s, moves[..k])
  }

  lemma AtNext(s: State, moves: seq<Move>, k: nat)
    requires WellFormed(s) && k < |moves|
    ensures At(s, moves, k + 1) == Step(At(s, moves, k), moves[k])
  {
    assert moves[..k + 1][..k] == moves[..k];
  }

  /** A move of one agent leaves every other agent where it is, and creates none. */
  lemma OthersStay(s: State, m: Move)
    requires WellFormed(s)
    ensures Step(s, m).agents.Keys == s.agents.Keys
    ensures forall b :: b in s.agents && b != m.agent ==> Step(s, m).agents[b] == s.agents[b]
  {
    if m.agent in s.agents {
      assert AgentOk(s.agents[m.agent]);
    }
  }

  lemma {:induction false} AgentsStay(s: State, moves: seq<Move>, k: nat)
    requires WellFormed(s) && k <= |moves|
    ensures At(s, moves, k).agents.Keys == s.agents.Keys
  {
    if k > 0 {
      AgentsStay(s, moves, k - 1);
      AtNext(s, moves, k - 1);
      OthersStay(At(s, moves, k - 1), moves[k - 1]);
    } else {
      assert moves[..0] == [];
    }
  }

  /** Where agent `a` is before move `k`. */
  ghost function Where(s: State, moves: seq<Move>, a: nat, k: nat): Agent
    requires WellFormed(s) && a in s.agents && k <= |moves|
  {
    AgentsStay(s, moves, k);
    At(s, moves, k).agents[a]
  }

  /** At move `k` the agent's get of one level loads a counter it may not increment: zero, or, at the
      base, one whose successor has the sign bit. */
  ghost predicate RefusedAt(s: State, moves: seq<Move>, a: nat, k: nat)
    requires WellFormed(s) && a in s.agents
  {
    && k < |moves| && moves[k] == Move(a, Access)
    && var w, ref := Where(s, moves, a, k), At(s, moves, k).ref;
       && (w.Getting? || w.Raising?) && w.loaded == None && Held(w) < 3
       && (ref[Held(w)] == 0 || (Held(w) == 0 && ref[0] + 1 >= 0x8000_0000))
  }

  ghost predicate Refused(s: State, moves: seq<Move>, a: nat, i: nat, j: nat)
    requires WellFormed(s) && a in s.agents
  {
    exists k :: i < k < j && RefusedAt(s, moves, a, k)
  }

  /** A refusal by move `j` is one before it or one at it. */
  lemma RefusedNext(s: State, moves: seq<Move>, a: nat, i: nat, j: nat)
    requires WellFormed(s) && a in s.agents && i < j
    ensures Refused(s, moves, a, i, j + 1) <==> Refused(s, moves, a, i, j) || RefusedAt(s, moves, a, j)
  {
    if RefusedAt(s, moves, a, j) {
      assert i < j < j + 1;
    }
    if k :| i < k < j + 1 && RefusedAt(s, moves, a, k) {
      assert k < j || k == j;
    }
  }

  /** Between `i` and `j` the agent is within a get. */
  ghost predicate WithinGet(s: State, moves: seq<Move>, a: nat, i: nat, j: nat)
    requires WellFormed(s) && a in s.agents && j <= |moves|
  {
    forall k :: i < k < j ==> Where(s, moves, a, k).Getting? || Where(s, moves, a, k).Undoing?
  }

  /** What a get for `target` has come to: still climbing or at the top if it was not refused, still going back
      or back if it was. */
  predicate GetState(w: Agent, target: nat, refused: bool) {
    if refused then w.Undoing? || w == Idle else (w.Getting? && w.target == target) || w == Holding(target)
  }

  /** One move, seen from an agent that is within a get. */
  lemma GetMove(s: State, m: Move, a: nat, target: nat, refused: bool)
    requires Invariant(s) && a in s.agents && GetState(s.agents[a], target, refused)
    requires s.agents[a].Getting? || s.agents[a].Undoing?
    ensures a in Step(s, m).agents
    ensures var w := s.agents[a];
      var now := m == Move(a, Access) && w.Getting? && w.loaded == None &&
                 (s.ref[w.held] == 0 || (w.held == 0 && s.ref[0] + 1 >= 0x8000_0000));
      w.held < 3 && GetState(Step(s, m).agents[a], target, refused || now)
  {
    assert AgentOk(s.agents[a]) && LoadedOk(s.agents[a]);
    OthersStay(s, m);
  }

  lemma GetMoveAt(s: State, moves: seq<Move>, a: nat, target: nat, k: nat, refused: bool)
    requires Initial(s) && WellFormed(s) && a in s.agents && k < |moves|
    requires GetState(Where(s, moves, a, k), target, refused)
    requires Where(s, moves, a, k).Getting? || Where(s, moves, a, k).Undoing?
    ensures GetState(Where(s, moves, a, k + 1), target, refused || RefusedAt(s, moves, a, k))
  {
    AtNext(s, moves, k);
    AgentsStay(s, moves, k);
    AgentsStay(s, moves, k + 1);
    RunInvariant(s, moves[..k]);
    GetMove(At(s, moves, k), moves[k], a, target, refused);
  }

  lemma StartAt(s: State, moves: seq<Move>, a: nat, k: nat)
    requires WellFormed(s) && a in s.agents && k < |moves| && moves[k].agent == a
    ensures var w, w' := Where(s, moves, a, k), Where(s, moves, a, k + 1);
      && (w == Idle && moves[k].action.StartGet? && moves[k].action.target < 3 ==>
            w' == Getting(moves[k].action.target, 0, None))
      && (w.Holding? && moves[k].action.StartRaise? && w.level < 2 ==> w' == Raising(w.level, None))
      && (w.Holding? && moves[k].action.StartDrop? ==> w' == Dropping(w.level + 1))
      && (w.Holding? && moves[k].action.Lower? ==> w' == if w.level == 0 then Idle else Holding(w.level - 1))
  {
    AtNext(s, moves, k);
    AgentsStay(s, moves, k);
    AgentsStay(s, moves, k + 1);
    assert AgentOk(Where(s, moves, a, k));
  }

  lemma {:induction false} GetProgress(s: State, moves: seq<Move>, a: nat, target: nat, i: nat, j: nat)
    requires Initial(s) && WellFormed(s) && a in s.agents && i < j <= |moves| && target < LEVELS
    requires moves[i] == Move(a, StartGet(target)) && Where(s, moves, a, i) == Idle
    requires WithinGet(s, moves, a, i, j)
    ensures GetState(Where(s, moves, a, j), target, Refused(s, moves, a, i, j))
    decreases j
  {
    if j == i + 1 {
      StartAt(s, moves, a, i);
    } else {
      GetProgress(s, moves, a, target, i, j - 1);
      GetMoveAt(s, moves, a, target, j - 1, Refused(s, moves, a, i, j - 1));
      RefusedNext(s, moves, a, i, j - 1);
    }
  }

  /** How a get ends, in every run: it holds all that was asked for if no load of its was refused, and nothing
      if one was. */
  lemma GetEnds(s: State, moves: seq<Move>, a: nat, target: nat, i: nat, j: nat)
    requires Initial(s) && WellFormed(s) && a in s.agents && i < j <= |moves| && target < LEVELS
    requires moves[i] == Move(a, StartGet(target)) && Where(s, moves, a, i) == Idle
    requires WithinGet(s, moves, a, i, j)
    requires !Where(s, moves, a, j).Getting? && !Where(s, moves, a, j).Undoing?
    ensures Where(s, moves, a, j) == if Refused(s, moves, a, i, j) then Idle else Holding(target)
  {
    GetProgress(s, moves, a, target, i, j);
  }

  ghost predicate WithinRaise(s: State, moves: seq<Move>, a: nat, i: nat, j: nat)
    requires WellFormed(s) && a in s.agents && j <= |moves|
  {
    forall k :: i < k < j ==> Where(s, moves, a, k).Raising?
  }

  /** A holder's get of the level above `level`: under way or done if it was not refused, undone if it was. */
  predicate RaiseState(w: Agent, level: nat, refused: bool) {
    if refused then w == Holding(level) else (w.Raising? && w.level == level) || w == Holding(level + 1)
  }

  lemma RaiseMove(s: State, m: Move, a: nat, level: nat)
    requires Invariant(s) && a in s.agents && s.agents[a].Raising? && s.agents[a].level == level
    ensures a in Step(s, m).agents && level + 1 < 3
    ensures var now := m == Move(a, Access) && s.agents[a].loaded == None && s.ref[level + 1] == 0;
      RaiseState(Step(s, m).agents[a], level, now)
  {
    assert AgentOk(s.agents[a]) && LoadedOk(s.agents[a]);
    OthersStay(s, m);
  }

  lemma RaiseMoveAt(s: State, moves: seq<Move>, a: nat, level: nat, k: nat)
    requires Initial(s) && WellFormed(s) && a in s.agents && k < |moves|
    requires Where(s, moves, a, k).Raising? && Where(s, moves, a, k).level == level
    ensures RaiseState(Where(s, moves, a, k + 1), level, RefusedAt(s, moves, a, k))
  {
    AtNext(s, moves, k);
    AgentsStay(s, moves, k);
    AgentsStay(s, moves, k + 1);
    RunInvariant(s, moves[..k]);
    RaiseMove(At(s, moves, k), moves[k], a, level);
  }

  lemma {:induction false} RaiseProgress(s: State, moves: seq<Move>, a: nat, level: nat, i: nat, j: nat)
    requires Initial(s) && WellFormed(s) && a in s.agents && i < j <= |moves| && level < 2
    requires moves[i] == Move(a, StartRaise) && Where(s, moves, a, i) == Holding(level)
    requires WithinRaise(s, moves, a, i, j)
    ensures RaiseState(Where(s, moves, a, j), level, Refused(s, moves, a, i, j))
    decreases j
  {
    if j == i + 1 {
      StartAt(s, moves, a, i);
    } else {
      RaiseProgress(s, moves, a, level, i, j - 1);
      RaiseMoveAt(s, moves, a, level, j - 1);
      RefusedNext(s, moves, a, i, j - 1);
    }
  }

  /** How a holder's get of the next level ends: one level up, or where it was if its load was refused. */
  lemma RaiseEnds(s: State, moves: seq<Move>, a: nat, level: nat, i: nat, j: nat)
    requires Initial(s) && WellFormed(s) && a in s.agents && i < j <= |moves| && level < 2
    requires moves[i] == Move(a, StartRaise) && Where(s, moves, a, i) == Holding(level)
    requires WithinRaise(s, moves, a, i, j) && !Where(s, moves, a, j).Raising?
    ensures Where(s, moves, a, j) == Holding(if Refused(s, moves, a, i, j) then level else level + 1)
  {
    RaiseProgress(s, moves, a, level, i, j);
  }

  /** How many accesses the agent makes from `i` to `j`. */
  function Accesses(moves: seq<Move>, a: nat, i: nat, j: nat): nat
    requires i <= j <= |moves|
    decreases j
  {
    if i == j then 0 else Accesses(moves, a, i, j - 1) + if moves[j - 1] == Move(a, Access) then 1 else 0
  }

  /** A drop of `level` that has made `n` accesses. */
  function DropState(level: nat, n: nat): Agent {
    if n <= level then Dropping(level + 1 - n) else Idle
  }

  lemma DropMoveAt(s: State, moves: seq<Move>, a: nat, level: nat, k: nat, n: nat)
    requires Initial(s) && WellFormed(s) && a in s.agents && k < |moves|
    requires Where(s, moves, a, k) == DropState(level, n) && n <= level
    ensures Where(s, moves, a, k + 1) == DropState(level, if moves[k] == Move(a, Access) then n + 1 else n)
  {
    AtNext(s, moves, k);
    AgentsStay(s, moves, k);
    AgentsStay(s, moves, k + 1);
    assert AgentOk(Where(s, moves, a, k));
    OthersStay(At(s, moves, k), moves[k]);
  }

  lemma {:induction false} DropProgress(s: State, moves: seq<Move>, a: nat, level: nat, i: nat, j: nat)
    requires Initial(s) && WellFormed(s) && a in s.agents && i < j <= |moves|
    requires moves[i] == Move(a, StartDrop) && Where(s, moves, a, i) == Holding(level)
    requires forall k :: i < k < j ==> Where(s, moves, a, k).Dropping?
    ensures Where(s, moves, a, j) == DropState(level, Accesses(moves, a, i + 1, j))
    decreases j
  {
    if j == i + 1 {
      StartAt(s, moves, a, i);
    } else {
      DropProgress(s, moves, a, level, i, j - 1);
      DropMoveAt(s, moves, a, level, j - 1, Accesses(moves, a, i + 1, j - 1));
    }
  }

  /** How a drop ends: with nothing held, after one access for each level. */
  lemma DropEnds(s: State, moves: seq<Move>, a: nat, level: nat, i: nat, j: nat)
    requires Initial(s) && WellFormed(s) && a in s.agents && i < j <= |moves|
    requires moves[i] == Move(a, StartDrop) && Where(s, moves, a, i) == Holding(level)
    requires forall k :: i < k < j ==> Where(s, moves, a, k).Dropping?
    ensures !Where(s, moves, a, j).Dropping? ==> Where(s, moves, a, j) == Idle
    ensures Where(s, moves, a, j) == Idle <==> Accesses(moves, a, i + 1, j) > level
  {
    DropProgress(s, moves, a, level, i, j);
  }

  // ---------------------------------------------------------------------------------
  // No call is stuck
  // ---------------------------------------------------------------------------------

  predicate InCall(w: Agent) {
    w != Idle && !w.Holding?
  }

  /** How far a get of one level is from its end: about to swap from the present value, about to load, or about to
      swap from another. */
  function Attempt(ref: nat, loaded: Option<nat>): nat {
    if loaded == None then 1 else if loaded.value == ref then 0 else 2
  }

  /** A bound on the accesses of its own, with no others in between, that an agent is from the end of its call. */
  function Rank(s: State, a: nat): nat
    requires |s.ref| == LEVELS && a in s.agents && AgentOk(s.agents[a])
  {
    match s.agents[a]
    case Idle => 0
    case Holding(_) => 0
    case Undoing(held) => held
    case Dropping(held) => held
    case Getting(_, held, loaded) => 4 + 3 * (3 - held) + Attempt(s.ref[held], loaded)
    case Raising(level, loaded) => 1 + Attempt(s.ref[level + 1], loaded)
  }

  lemma AloneMovesOn(s: State, a: nat)
    requires WellFormed(s) && a in s.agents && InCall(s.agents[a])
    ensures var r := Step(s, Move(a, Access));
      a in r.agents && AgentOk(s.agents[a]) && AgentOk(r.agents[a]) && Rank(r, a) < Rank(s, a)
  {
    assert AgentOk(s.agents[a]);
  }

  ghost function Alone(s: State, a: nat, n: nat): (r: State)
    requires WellFormed(s)
    ensures WellFormed(r)
    decreases n
  {
    if n == 0 then s else Alone(Step(s, Move(a, Access)), a, n - 1)
  }

  /** From any state an agent that is left alone ends its call within fifteen accesses. */
  lemma {:induction false} AloneEnds(s: State, a: nat) returns (n: nat)
    requires WellFormed(s) && a in s.agents && AgentOk(s.agents[a])
    ensures n <= Rank(s, a) <= 15
    ensures a in Alone(s, a, n).agents && !InCall(Alone(s, a, n).agents[a])
    decreases Rank(s, a)
  {
    if !InCall(s.agents[a]) {
      n := 0;
    } else {
      AloneMovesOn(s, a);
      n := AloneEnds(Step(s, Move(a, Access)), a);
      n := n + 1;
    }
  }
}
