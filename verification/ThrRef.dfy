/** The three-level reference count of a tcp helper.

    A reference count is three counters, base (0), file (1) and app (2).  A full
    reference of type `t` is one unit on every level up to `t`, taken bottom up with a
    compare-and-swap loop per level and dropped top down.

    `Counters` is the sequential view: the code's loops, run against a script of what
    other threads do to the counters between a load and the compare-and-swap that
    follows it.  `State` and `Step` are the concurrent view: any number of agents, each
    inside a get or a drop, interleaved at every atomic access. */
module ThrRef {

  const LEVELS: nat := 3
  const SIGN_BIT: nat := 0x8000_0000
  const WORD: nat := 0x1_0000_0000

  datatype Rc = Ok | Busy | TooManyRefs

  /** What one pass of the loop of `oo_thr_ref_get_one` decides from the loaded value. */
  function Decide(val: nat, level: nat): Rc {
    if val == 0 then Busy
    else if level == 0 && SIGN_BIT <= val + 1 < WORD then TooManyRefs
    else Ok
  }

  // ---------------------------------------------------------------------------------
  // Sequential view
  // ---------------------------------------------------------------------------------

  type Delta = d: seq<int> | |d| == LEVELS witness [0, 0, 0]

  /** The sum of the changes other threads made. */
  ghost function Total(ds: seq<Delta>, level: nat): int
    requires level < LEVELS
  {
    if ds == [] then 0 else Total(ds[..|ds| - 1], level) + ds[|ds| - 1][level]
  }

  lemma {:induction false} TotalSplit(ds: seq<Delta>, i: nat, j: nat, level: nat)
    requires i <= j <= |ds| && level < LEVELS
    ensures Total(ds[..j], level) == Total(ds[..i], level) + Total(ds[i..j], level)
    decreases j
  {
    if i == j {
      assert ds[i..j] == [];
    } else {
      TotalSplit(ds, i, j - 1, level);
      assert ds[..j][..j - 1] == ds[..j - 1];
      assert ds[i..j][..j - i - 1] == ds[i..j - 1];
    }
  }

  /** A 32-bit unsigned counter. */
  function Wrap(x: int): (r: nat)
    ensures r < WORD
  {
    x % WORD
  }

  /** 32-bit unsigned increment and decrement. */
  function Inc(x: nat): nat { if x + 1 == WORD then 0 else x + 1 }
  function Dec(x: nat): nat { if x == 0 then WORD - 1 else x - 1 }

  lemma WrapSum(x: int, y: int)
    ensures Wrap(Wrap(x) + y) == Wrap(x + y)
  {}

  lemma WrapUnit(x: nat)
    requires x < WORD
    ensures Inc(x) == Wrap(x + 1) && Dec(x) == Wrap(x + -1)
  {}

  function Min(x: nat, y: nat): nat {
    if x <= y then x else y
  }

  /** A counter that was `base`, after the first `k` changes by other threads and `own` by this one. */
  ghost function After(base: nat, ds: seq<Delta>, k: nat, level: nat, own: int): (r: nat)
    requires k <= |ds| && level < LEVELS
    ensures r < WORD
  {
    Wrap(base + Total(ds[..k], level) + own)
  }

  lemma AfterOwn(base: nat, ds: seq<Delta>, k: nat, level: nat, own: int, more: int)
    requires k <= |ds| && level < LEVELS
    ensures Wrap(After(base, ds, k, level, own) + more) == After(base, ds, k, level, own + more)
  {
    WrapSum(base + Total(ds[..k], level) + own, more);
  }

  lemma AfterNext(base: nat, ds: seq<Delta>, k: nat, level: nat, own: int)
    requires k < |ds| && level < LEVELS
    ensures Wrap(After(base, ds, k, level, own) + ds[k][level]) == After(base, ds, k + 1, level, own)
  {
    assert ds[..k + 1][..k] == ds[..k];
    WrapSum(base + Total(ds[..k], level) + own, ds[k][level]);
  }

  /** Changes that begin where earlier ones ended. */
  lemma AfterRest(base: nat, ds: seq<Delta>, k: nat, n: nat, level: nat, own: int, more: int)
    requires k <= |ds| && n <= |ds| - k && level < LEVELS
    ensures After(After(base, ds, k, level, own), ds[k..], n, level, more) == After(base, ds, k + n, level, own + more)
  {
    assert ds[k..k + n] == ds[k..][..n];
    TotalSplit(ds, k, k + n, level);
    WrapSum(base + Total(ds[..k], level) + own, Total(ds[k..][..n], level) + more);
  }

  /** A level after the roll-back of a get that had `got` levels. */
  lemma RolledBack(base: nat, ds: seq<Delta>, mark: nat, got: nat, l: nat, more: nat, was: nat, now: nat)
    requires l < LEVELS && mark + more <= |ds| && was == After(base, ds, mark, l, if l < got then 1 else 0)
    requires now == After(was, ds[mark..], more, l, if l < got then -1 else 0)
    ensures now == After(base, ds, mark + more, l, 0)
    ensures l < got ==>
      After(was, ds[mark..], Min(|ds| - mark, got - l), l, 0) == After(base, ds, Min(|ds|, mark + got - l), l, 1)
  {
    AfterRest(base, ds, mark, more, l, if l < got then 1 else 0, if l < got then -1 else 0);
    if l < got {
      AfterRest(base, ds, mark, Min(|ds| - mark, got - l), l, 1, 0);
    }
  }

  class Counters {
    var ref: seq<nat>
    /** How often `oo_thr_ref_release[level]` ran from here. */
    var released: seq<nat>

    ghost predicate Valid()
      reads this
    {
      |ref| == LEVELS && |released| == LEVELS && forall l :: 0 <= l < LEVELS ==> ref[l] < WORD
    }

    constructor ()
      ensures Valid() && ref == [1, 1, 1] && released == [0, 0, 0]
    {
      ref := [1, 1, 1];
      released := [0, 0, 0];
    }

    /** Other threads change the counters. */
    method Interfere(d: Delta)
      requires Valid()
      modifies this`ref
      ensures Valid() && forall l :: 0 <= l < LEVELS ==> ref[l] == Wrap(old(ref[l]) + d[l])
    {
      ref := [Wrap(ref[0] + d[0]), Wrap(ref[1] + d[1]), Wrap(ref[2] + d[2])];
    }

    /** `oo_thr_ref_get_one`.  `others[k]` is what other threads do between the load and
        the compare-and-swap of the k-th attempt; `used` attempts were disturbed.  The
        attempt fails exactly when the disturbance reached this level, so once the script
        is exhausted the loop ends. */
    method GetOne(level: nat, others: seq<Delta>) returns (rc: Rc, used: nat)
      requires Valid() && level < LEVELS
      modifies this`ref
      ensures Valid() && used <= |others|
      ensures forall l :: 0 <= l < LEVELS ==>
        ref[l] == After(old(ref[l]), others, used, l, if rc == Ok && l == level then 1 else 0)
      ensures rc == Ok ==> ref[level] != 1 && (level == 0 ==> ref[level] < 0x8000_0000)
      ensures rc == Busy ==> ref[level] == 0
      ensures rc == TooManyRefs ==> level == 0 && ref[level] + 1 >= 0x8000_0000
    {
      used := 0;
      assert others[..0] == [];
      while true
        invariant Valid() && used <= |others|
        invariant forall l :: 0 <= l < LEVELS ==> ref[l] == After(old(ref[l]), others, used, l, 0)
        decreases |others| - used
      {
        var val := ref[level];
        rc := Decide(val, level);
        if rc != Ok {
          return;
        }
        if used < |others| {
          forall l | 0 <= l < LEVELS
            ensures Wrap(ref[l] + others[used][l]) == After(old(ref[l]), others, used + 1, l, 0)
          {
            AfterNext(old(ref[l]), others, used, l, 0);
          }
          Interfere(others[used]);
          used := used + 1;
        }
        if ref[level] == val {
          AfterOwn(old(ref[level]), others, used, level, 0, 1);
          WrapUnit(val);
          ref := ref[level := Inc(val)];
          return;
        }
      }
    }

    /** `oo_thr_ref_drop_one`. */
    method DropOne(level: nat)
      requires Valid() && level < LEVELS
      modifies this
      ensures Valid()
      ensures ref == old(ref)[level := Dec(old(ref)[level])]
      ensures released == old(released)[level := old(released)[level] + (if ref[level] == 0 then 1 else 0)]
    {
      ref := ref[level := Dec(ref[level])];
      if ref[level] == 0 {
        released := released[level := released[level] + 1];
      }
    }

    /** What other threads do before an access, if there is anything left for them to do. */
    method Disturb(others: seq<Delta>, used: nat) returns (used': nat)
      requires Valid() && used <= |others|
      modifies this`ref
      ensures Valid() && used' == Min(|others|, used + 1)
      ensures forall l, base, own :: 0 <= l < LEVELS && old(ref[l]) == After(base, others, used, l, own) ==>
        ref[l] == After(base, others, used', l, own)
    {
      used' := used;
      if used < |others| {
        forall l: nat, base, own | l < LEVELS && ref[l] == After(base, others, used, l, own)
          ensures Wrap(ref[l] + others[used][l]) == After(base, others, used + 1, l, own)
        {
          AfterNext(base, others, used, l, own);
        }
        Interfere(others[used]);
        used' := used + 1;
      }
    }

    /** One round of the loops that drop: other threads, then the decrement. */
    method DropNext(t: nat, others: seq<Delta>, used: nat) returns (used': nat)
      requires Valid() && t < LEVELS && used <= |others|
      modifies this
      ensures Valid() && used' == Min(|others|, used + 1)
      ensures forall l, base, own :: 0 <= l < LEVELS && l != t && old(ref[l]) == After(base, others, used, l, own) ==>
        ref[l] == After(base, others, used', l, own)
      ensures forall l :: 0 <= l < LEVELS && l != t ==> released[l] == old(released[l])
      ensures forall base, own :: old(ref[t]) == After(base, others, used, t, own) ==>
        && ref[t] == After(base, others, used', t, own - 1)
        && released[t] == old(released[t]) + if After(base, others, used', t, own) == 1 then 1 else 0
    {
      used' := Disturb(others, used);
      ghost var was := ref[t];
      WrapUnit(was);
      forall base, own | old(ref[t]) == After(base, others, used, t, own)
        ensures was == After(base, others, used', t, own) && Dec(was) == After(base, others, used', t, own - 1)
      {
        AfterOwn(base, others, used', t, own, -1);
      }
      DropOne(t);
    }

    /** `oo_thr_ref_drop`: one unit off every level up to `level`, from the top.  `others[k]` is what other
        threads do before the k-th decrement. */
    method Drop(level: nat, others: seq<Delta>) returns (used: nat)
      requires Valid() && level < LEVELS
      modifies this
      ensures Valid() && used == Min(|others|, level + 1)
      ensures forall l :: 0 <= l < LEVELS ==>
        ref[l] == After(old(ref[l]), others, used, l, if l <= level then -1 else 0)
      ensures forall l :: 0 <= l < LEVELS ==>
        released[l] == old(released[l]) +
          if l <= level && After(old(ref[l]), others, Min(|others|, level - l + 1), l, 0) == 1 then 1 else 0
    {
      var t := level + 1;
      used := 0;
      assert others[..0] == [];
      while t > 0
        invariant Valid() && 0 <= t <= level + 1 && used == Min(|others|, level + 1 - t)
        invariant forall l :: 0 <= l < LEVELS ==>
          ref[l] == After(old(ref[l]), others, used, l, if t <= l <= level then -1 else 0)
        invariant forall l :: 0 <= l < LEVELS ==>
          released[l] == old(released[l]) +
            if t <= l <= level && After(old(ref[l]), others, Min(|others|, level - l + 1), l, 0) == 1 then 1 else 0
      {
        t := t - 1;
        used := DropNext(t, others, used);
      }
    }

    /** The loop of `oo_thr_ref_get`: it got the levels below `t`. */
    method Climb(level: nat, others: seq<Delta>) returns (rc: Rc, used: nat, t: nat)
      requires Valid() && level < LEVELS
      modifies this`ref
      ensures Valid() && used <= |others| && t <= level + 1 && (rc == Ok <==> t == level + 1)
      ensures forall l :: 0 <= l < LEVELS ==> ref[l] == After(old(ref[l]), others, used, l, if l < t then 1 else 0)
      ensures rc == Busy ==> ref[t] == 0
      ensures rc == TooManyRefs ==> t == 0 && ref[0] + 1 >= SIGN_BIT
    {
      t, used, rc := 0, 0, Ok;
      assert others[..0] == [];
      while t <= level && rc == Ok
        invariant Valid() && used <= |others| && t <= level + 1
        invariant forall l :: 0 <= l < LEVELS ==> ref[l] == After(old(ref[l]), others, used, l, if l < t then 1 else 0)
        invariant rc == Ok || t <= level
        invariant rc == Busy ==> ref[t] == 0
        invariant rc == TooManyRefs ==> t == 0 && ref[0] + 1 >= SIGN_BIT
        decreases level + 1 - t, if rc == Ok then 1 else 0
      {
        var more;
        ghost var had := used;
        rc, more := GetOne(t, others[used..]);
        used := used + more;
        forall l | 0 <= l < LEVELS
          ensures ref[l] == After(old(ref[l]), others, used, l, if l < t || (l == t && rc == Ok) then 1 else 0)
        {
          AfterRest(old(ref[l]), others, had, more, l, if l < t then 1 else 0, if rc == Ok && l == t then 1 else 0);
        }
        if rc == Ok {
          t := t + 1;
        }
      }
    }

    /** `oo_thr_ref_get`: a unit on every level up to `level`, or no change of its own at all, with the other
        threads' changes kept either way.  It got `got` levels, and the get was over after `mark` of the
        changes; the rest fall into the roll-back. */
    method Get(level: nat, others: seq<Delta>) returns (rc: Rc, used: nat, ghost got: nat, ghost mark: nat)
      requires Valid() && level < LEVELS
      modifies this
      ensures Valid() && mark <= used <= |others|
      ensures rc == Ok <==> got == level + 1
      ensures got <= level + 1 && (rc == Ok ==> mark == used)
      ensures forall l :: 0 <= l < LEVELS ==>
        ref[l] == After(old(ref[l]), others, used, l, if rc == Ok && l <= level then 1 else 0)
      ensures rc == Busy ==> After(old(ref[got]), others, mark, got, 0) == 0
      ensures rc == TooManyRefs ==> got == 0 && After(old(ref[0]), others, mark, 0, 0) + 1 >= SIGN_BIT
      ensures forall l :: 0 <= l < LEVELS ==>
        released[l] == old(released[l]) +
          if rc != Ok && l < got && After(old(ref[l]), others, Min(|others|, mark + got - l), l, 1) == 1 then 1 else 0
    {
      var t;
      rc, used, t := Climb(level, others);
      got, mark := t, used;
      if rc != Ok && t > 0 {
        ghost var was := ref;
        var more := Drop(t - 1, others[used..]);
        used := used + more;
        forall l: nat | l < LEVELS
          ensures ref[l] == After(old(ref[l]), others, used, l, 0)
          ensures l < got ==> After(was[l], others[mark..], Min(|others| - mark, got - l), l, 0) ==
                              After(old(ref[l]), others, Min(|others|, mark + got - l), l, 1)
        {
          RolledBack(old(ref[l]), others, mark, got, l, more, was[l], ref[l]);
        }
      }
    }
  }

  // ---------------------------------------------------------------------------------
  // Concurrent view
  // ---------------------------------------------------------------------------------

  datatype Option<T> = None | Some(value: T)

  /** Where an agent is.  `Getting` is about to load (`None`) or to compare-and-swap
      (`Some`) level `held`; `Undoing` is the roll-back loop of a failed get, `Dropping`
      the loop of a drop, both about to decrement level `held - 1`.  `Raising` is a holder
      of all levels up to `level` in a get of the one level above. */
  datatype Agent =
    | Idle
    | Getting(target: nat, held: nat, loaded: Option<nat>)
    | Holding(level: nat)
    | Undoing(held: nat)
    | Dropping(held: nat)
    | Raising(level: nat, loaded: Option<nat>)

  /** The number of levels, counted from the base, on which the agent owns a unit. */
  function Held(a: Agent): nat {
    match a
    case Idle => 0
    case Getting(_, held, _) => held
    case Holding(level) => level + 1
    case Undoing(held) => held
    case Dropping(held) => held
    case Raising(level, _) => level + 1
  }

  datatype State = State(ref: seq<nat>, released: seq<nat>, agents: map<nat, Agent>)

  /** `Access` is the next atomic access of the call the agent is in.  `StartRaise` is a
      holder's call of `oo_thr_ref_get_one` for the next level and `Lower` its
      `oo_thr_ref_drop_one` of its top level. */
  datatype Action = StartGet(target: nat) | StartDrop | StartRaise | Lower | Access

  datatype Move = Move(agent: nat, action: Action)

  function Decrement(s: State, a: nat, held: nat, rest: Agent): State
    requires a in s.agents && 0 < held <= |s.ref| == |s.released|
  {
    var left := Dec(s.ref[held - 1]);
    State(s.ref[held - 1 := left],
          if left == 0 then s.released[held - 1 := s.released[held - 1] + 1] else s.released,
          s.agents[a := if held == 1 then Idle else rest])
  }

  /** The load of a get of one level: the agent goes on to `go` or gives up to `fail`. */
  function Load(s: State, a: nat, level: nat, go: Agent, fail: Agent): State
    requires a in s.agents && level < |s.ref|
  {
    s.(agents := s.agents[a := if Decide(s.ref[level], level) == Ok then go else fail])
  }

  /** Its compare-and-swap: the agent becomes `won`, or goes back to `again`. */
  function CompareAndSwap(s: State, a: nat, level: nat, val: nat, won: Agent, again: Agent): State
    requires a in s.agents && level < |s.ref|
  {
    if s.ref[level] != val then s.(agents := s.agents[a := again])
    else s.(ref := s.ref[level := Inc(val)], agents := s.agents[a := won])
  }

  /** Where a get goes on to from level `held`, or back to. */
  function Climbed(target: nat, held: nat): Agent {
    if held == target then Holding(target) else Getting(target, held + 1, None)
  }

  function Failed(held: nat): Agent {
    if held == 0 then Idle else Undoing(held)
  }

  function Lowered(level: nat): Agent {
    if level == 0 then Idle else Holding(level - 1)
  }

  predicate AgentOk(a: Agent) {
    match a
    case Idle => true
    case Getting(target, held, _) => held <= target < LEVELS
    case Holding(level) => level < LEVELS
    case Undoing(held) => 0 < held < LEVELS
    case Dropping(held) => 0 < held <= LEVELS
    case Raising(level, _) => level + 1 < LEVELS
  }

  ghost predicate WellFormed(s: State) {
    && |s.ref| == LEVELS && |s.released| == LEVELS
    && forall a :: a in s.agents ==> AgentOk(s.agents[a])
  }

  /** One step of the interleaving; a move that does not apply changes nothing. */
  ghost function Step(s: State, m: Move): (r: State)
    requires WellFormed(s)
    ensures WellFormed(r)
  {
    if m.agent !in s.agents then s else
    assert AgentOk(s.agents[m.agent]);
    match (m.action, s.agents[m.agent])
    case (StartGet(target), Idle) =>
      if target < LEVELS then s.(agents := s.agents[m.agent := Getting(target, 0, None)]) else s
    case (StartDrop, Holding(level)) => s.(agents := s.agents[m.agent := Dropping(level + 1)])
    case (StartRaise, Holding(level)) =>
      if level + 1 < LEVELS then s.(agents := s.agents[m.agent := Raising(level, None)]) else s
    case (Lower, Holding(level)) => Decrement(s, m.agent, level + 1, Lowered(level))
    case (Access, Getting(target, held, None)) =>
      Load(s, m.agent, held, Getting(target, held, Some(s.ref[held])), Failed(held))
    case (Access, Getting(target, held, Some(val))) =>
      CompareAndSwap(s, m.agent, held, val, Climbed(target, held), Getting(target, held, None))
    case (Access, Raising(level, None)) =>
      Load(s, m.agent, level + 1, Raising(level, Some(s.ref[level + 1])), Holding(level))
    case (Access, Raising(level, Some(val))) =>
      CompareAndSwap(s, m.agent, level + 1, val, Holding(level + 1), Raising(level, None))
    case (Access, Undoing(held)) => Decrement(s, m.agent, held, Undoing(held - 1))
    case (Access, Dropping(held)) => Decrement(s, m.agent, held, Dropping(held - 1))
    case _ => s
  }

  /** The creator holds the only reference, a full one. */
  ghost predicate Initial(s: State) {
    && s.ref == [1, 1, 1] && s.released == [0, 0, 0]
    && exists owner :: owner in s.agents && s.agents[owner] == Holding(2)
         && forall a :: a in s.agents && a != owner ==> s.agents[a] == Idle
  }

  ghost function Exec(s: State, moves: seq<Move>): (r: State)
    requires WellFormed(s)
    ensures WellFormed(r)
  {
    if moves == [] then s else Step(Exec(s, moves[..|moves| - 1]), moves[|moves| - 1])
  }

  ghost function Holders(agents: map<nat, Agent>, level: nat): set<nat> {
    set a | a in agents && Held(agents[a]) > level
  }

  /** A value that passed the tests of the loop. */
  predicate LoadedOk(a: Agent) {
    (a.Getting? || a.Raising?) && a.loaded.Some? ==>
      Decide(a.loaded.value, Held(a)) == Ok && a.loaded.value < SIGN_BIT
  }

  ghost predicate Invariant(s: State) {
    && WellFormed(s)
    && s.ref[0] < SIGN_BIT
    && (forall l :: 0 <= l < LEVELS ==> s.ref[l] == |Holders(s.agents, l)|)
    && (forall l :: 0 <= l < LEVELS ==> s.released[l] == if s.ref[l] == 0 then 1 else 0)
    && (forall a :: a in s.agents ==> LoadedOk(s.agents[a]))
  }

  function Owns(a: Agent, level: nat): nat {
    if Held(a) > level then 1 else 0
  }

  /** The holders of a level, leaving out one agent. */
  ghost function Others(agents: map<nat, Agent>, a: nat, level: nat): set<nat> {
    set b | b in agents && b != a && Held(agents[b]) > level
  }

  lemma HoldersSplit(agents: map<nat, Agent>, a: nat, level: nat)
    requires a in agents
    ensures |Holders(agents, level)| == |Others(agents, a, level)| + Owns(agents[a], level)
  {
    if Held(agents[a]) > level {
      assert Holders(agents, level) == Others(agents, a, level) + {a};
    } else {
      assert Holders(agents, level) == Others(agents, a, level);
    }
  }

  lemma HoldersUpdate(agents: map<nat, Agent>, a: nat, to: Agent, level: nat)
    requires a in agents
    ensures |Holders(agents[a := to], level)| + Owns(agents[a], level) == |Holders(agents, level)| + Owns(to, level)
    ensures Held(agents[a]) > level ==> |Holders(agents, level)| > 0
  {
    HoldersSplit(agents, a, level);
    HoldersSplit(agents[a := to], a, level);
    assert Others(agents[a := to], a, level) == Others(agents, a, level);
  }

  lemma HoldersNested(agents: map<nat, Agent>, low: nat, high: nat)
    requires low <= high
    ensures |Holders(agents, high)| <= |Holders(agents, low)|
  {
    SubsetSize(Holders(agents, high), Holders(agents, low));
  }

  lemma {:induction false} SubsetSize(x: set<nat>, y: set<nat>)
    requires x <= y
    ensures |x| <= |y|
  {
    if x != {} {
      var e :| e in x;
      SubsetSize(x - {e}, y - {e});
    }
  }

  lemma InitialInvariant(s: State)
    requires Initial(s)
    ensures Invariant(s)
  {
    var owner :| owner in s.agents && s.agents[owner] == Holding(2)
         && forall a :: a in s.agents && a != owner ==> s.agents[a] == Idle;
    forall l: nat | l < LEVELS
      ensures |Holders(s.agents, l)| == 1
    {
      assert Holders(s.agents, l) == {owner};
    }
  }

  /** An access that moves one unit on one level, or none, keeps the counts. */
  lemma MoveUnit(s: State, r: State, a: nat, to: Agent)
    requires Invariant(s) && WellFormed(r) && a in s.agents
    requires r.agents == s.agents[a := to]
    requires forall l :: 0 <= l < LEVELS ==> r.ref[l] + Owns(s.agents[a], l) == s.ref[l] + Owns(to, l)
    ensures forall l :: 0 <= l < LEVELS ==> r.ref[l] == |Holders(r.agents, l)|
  {
    forall l: nat | l < LEVELS
      ensures r.ref[l] == |Holders(r.agents, l)|
    {
      HoldersUpdate(s.agents, a, to, l);
    }
  }

  /** The level an agent is about to decrement has a unit to give. */
  lemma HeldIsPositive(s: State, a: nat, level: nat)
    requires Invariant(s) && a in s.agents && level < LEVELS && Held(s.agents[a]) > level
    ensures 0 < s.ref[level] < SIGN_BIT
  {
    HoldersUpdate(s.agents, a, s.agents[a], level);
    HoldersNested(s.agents, 0, level);
  }

  lemma DecrementInvariant(s: State, a: nat, held: nat, rest: Agent)
    requires Invariant(s) && a in s.agents && 0 < held <= LEVELS
    requires Held(s.agents[a]) == held && (held > 1 ==> Held(rest) == held - 1 && AgentOk(rest) && LoadedOk(rest))
    ensures Invariant(Decrement(s, a, held, rest))
  {
    HeldIsPositive(s, a, held - 1);
    MoveUnit(s, Decrement(s, a, held, rest), a, if held == 1 then Idle else rest);
  }

  lemma CompareAndSwapInvariant(s: State, a: nat, level: nat, val: nat, won: Agent, again: Agent)
    requires Invariant(s) && a in s.agents && level < LEVELS && Held(s.agents[a]) == level == Held(again)
    requires Decide(val, level) == Ok && val < SIGN_BIT && Held(won) == level + 1
    requires AgentOk(won) && AgentOk(again) && LoadedOk(won) && LoadedOk(again)
    ensures Invariant(CompareAndSwap(s, a, level, val, won, again))
  {
    HoldersNested(s.agents, 0, level);
    if s.ref[level] == val {
      MoveUnit(s, CompareAndSwap(s, a, level, val, won, again), a, won);
    } else {
      LocalInvariant(s, a, again);
    }
  }

  lemma LocalInvariant(s: State, a: nat, to: Agent)
    requires Invariant(s) && a in s.agents && Held(to) == Held(s.agents[a])
    requires WellFormed(s.(agents := s.agents[a := to]))
    requires LoadedOk(to)
    ensures Invariant(s.(agents := s.agents[a := to]))
  {
    MoveUnit(s, s.(agents := s.agents[a := to]), a, to);
  }

  lemma LoadInvariant(s: State, a: nat, level: nat, go: Agent, fail: Agent)
    requires Invariant(s) && a in s.agents && level < LEVELS && Held(s.agents[a]) == Held(go) == Held(fail)
    requires AgentOk(go) && AgentOk(fail) && LoadedOk(fail)
    requires Decide(s.ref[level], level) == Ok && s.ref[level] < SIGN_BIT ==> LoadedOk(go)
    ensures Invariant(Load(s, a, level, go, fail))
  {
    HoldersNested(s.agents, 0, level);
    LocalInvariant(s, a, Load(s, a, level, go, fail).agents[a]);
  }

  lemma GettingInvariant(s: State, a: nat)
    requires Invariant(s) && a in s.agents && s.agents[a].Getting?
    ensures Invariant(Step(s, Move(a, Access)))
  {
    var g := s.agents[a];
    assert AgentOk(g) && LoadedOk(g);
    if g.loaded == None {
      LoadInvariant(s, a, g.held, Getting(g.target, g.held, Some(s.ref[g.held])), Failed(g.held));
    } else {
      CompareAndSwapInvariant(s, a, g.held, g.loaded.value, Climbed(g.target, g.held), Getting(g.target, g.held, None));
    }
  }

  lemma RaisingInvariant(s: State, a: nat)
    requires Invariant(s) && a in s.agents && s.agents[a].Raising?
    ensures Invariant(Step(s, Move(a, Access)))
  {
    var g := s.agents[a];
    assert AgentOk(g) && LoadedOk(g);
    if g.loaded == None {
      LoadInvariant(s, a, g.level + 1, Raising(g.level, Some(s.ref[g.level + 1])), Holding(g.level));
    } else {
      CompareAndSwapInvariant(s, a, g.level + 1, g.loaded.value, Holding(g.level + 1), Raising(g.level, None));
    }
  }

  lemma DroppingInvariant(s: State, a: nat)
    requires Invariant(s) && a in s.agents && (s.agents[a].Undoing? || s.agents[a].Dropping?)
    ensures Invariant(Step(s, Move(a, Access)))
  {
    var g := s.agents[a];
    assert AgentOk(g);
    DecrementInvariant(s, a, g.held, if g.Undoing? then Undoing(g.held - 1) else Dropping(g.held - 1));
  }

  lemma AccessInvariant(s: State, a: nat)
    requires Invariant(s) && a in s.agents
    ensures Invariant(Step(s, Move(a, Access)))
  {
    match s.agents[a]
    case Getting(_, _, _) => GettingInvariant(s, a);
    case Raising(_, _) => RaisingInvariant(s, a);
    case Undoing(_) => DroppingInvariant(s, a);
    case Dropping(_) => DroppingInvariant(s, a);
    case _ =>
  }

  /** Each atomic access keeps every counter equal to the number of its holders.  The
      counter being decremented is never zero and the one being incremented never reaches
      the sign bit, so neither operation wraps. */
  lemma StepInvariant(s: State, m: Move)
    requires Invariant(s)
    ensures Invariant(Step(s, m))
  {
    if m.agent in s.agents {
      var a := m.agent;
      assert AgentOk(s.agents[a]);
      match (m.action, s.agents[a])
      case (StartGet(target), Idle) => if target < LEVELS { LocalInvariant(s, a, Getting(target, 0, None)); }
      case (StartDrop, Holding(level)) => LocalInvariant(s, a, Dropping(level + 1));
      case (StartRaise, Holding(level)) => if level + 1 < LEVELS { LocalInvariant(s, a, Raising(level, None)); }
      case (Lower, Holding(level)) => DecrementInvariant(s, a, level + 1, Lowered(level));
      case (Access, _) => AccessInvariant(s, a);
      case _ =>
    }
  }

  lemma {:induction false} RunInvariant(s: State, moves: seq<Move>)
    requires Initial(s)
    ensures WellFormed(s) && Invariant(Exec(s, moves))
  {
    InitialInvariant(s);
    if moves != [] {
      RunInvariant(s, moves[..|moves| - 1]);
      StepInvariant(Exec(s, moves[..|moves| - 1]), moves[|moves| - 1]);
    }
  }

  /** The header's ordering, which it says no run-time assertion can check: after every
      atomic access of every interleaving, each counter is the number of agents holding
      that level, and app <= file <= base, all below the sign bit although only the base
      is ever tested for overflow. */
  lemma CountersOrdered(s: State, moves: seq<Move>)
    requires Initial(s)
    ensures WellFormed(s)
    ensures var r := Exec(s, moves);
      && (forall l :: 0 <= l < LEVELS ==> r.ref[l] == |Holders(r.agents, l)|)
      && r.ref[2] <= r.ref[1] <= r.ref[0] < 0x8000_0000
  {
    RunInvariant(s, moves);
    var r := Exec(s, moves);
    HoldersNested(r.agents, 0, 1);
    HoldersNested(r.agents, 1, 2);
  }

  lemma StepKeepsZero(s: State, m: Move, level: nat)
    requires Invariant(s) && level < LEVELS && s.ref[level] == 0
    ensures Step(s, m).ref[level] == 0 && Step(s, m).released[level] == 1
  {
    StepInvariant(s, m);
    if m.agent in s.agents {
      HoldersUpdate(s.agents, m.agent, s.agents[m.agent], level);
    }
  }

  /** A level that has reached zero stays there for the rest of the run, its release
      handler has run, and it never runs again. */
  lemma {:induction false} ZeroIsFinal(s: State, moves: seq<Move>, i: nat, level: nat)
    requires Initial(s) && i <= |moves| && level < LEVELS
    requires WellFormed(s) && Exec(s, moves[..i]).ref[level] == 0
    ensures Exec(s, moves).ref[level] == 0 && Exec(s, moves).released[level] == 1
    decreases |moves|
  {
    RunInvariant(s, moves);
    if i < |moves| {
      var before := moves[..|moves| - 1];
      assert before[..i] == moves[..i];
      ZeroIsFinal(s, before, i, level);
      RunInvariant(s, before);
      StepKeepsZero(Exec(s, before), moves[|moves| - 1], level);
    } else {
      assert moves[..i] == moves;
    }
  }

  /** Levels die top down: when a level is dead so is every level above it, and the
      handler of a level runs exactly at the access that takes its counter to zero. */
  lemma ReleaseOrder(s: State, moves: seq<Move>, m: Move, level: nat)
    requires Initial(s) && level < LEVELS
    ensures WellFormed(s)
    ensures var r, n := Exec(s, moves), Step(Exec(s, moves), m);
      && (r.ref[level] == 0 ==> forall h :: level <= h < LEVELS ==> r.ref[h] == 0 && r.released[h] == 1)
      && (n.released[level] != r.released[level] <==> r.ref[level] != 0 && n.ref[level] == 0)
      && n.released[level] <= 1
  {
    RunInvariant(s, moves);
    CountersOrdered(s, moves);
    var r := Exec(s, moves);
    StepInvariant(r, m);
    if r.ref[level] == 0 {
      StepKeepsZero(r, m, level);
    }
  }

  /** Nothing leaks: once every agent is out of its calls and owns nothing, every counter
      is zero and every release handler has run exactly once. */
  lemma AllReleased(s: State, moves: seq<Move>)
    requires Initial(s)
    requires WellFormed(s) && forall a :: a in Exec(s, moves).agents ==> Exec(s, moves).agents[a] == Idle
    ensures Exec(s, moves).ref == [0, 0, 0] && Exec(s, moves).released == [1, 1, 1]
  {
    RunInvariant(s, moves);
    var r := Exec(s, moves);
    forall l: nat | l < LEVELS
      ensures r.ref[l] == 0
    {
      assert Holders(r.agents, l) == {};
    }
  }
}
