/** The endpoint lock: one 64-bit word holding the lock bit, a need-wake bit and flags for
    work deferred to the lock holder.  Every change is a compare-and-swap.

    `Word` is the code: each loop is a method run against a script of the values other
    threads store between its load and its compare-and-swap, and each method is proved to
    take effect as one atomic step at one moment of its execution.  `State` and `Step` are
    every interleaving of those steps by any number of threads. */
module Eplock {

  /** A 64-bit word as the set of the positions of its one bits: `|` is union, `&` is
      intersection and `&~` is difference. */
  type Bits = set<nat>

  const LOCKED: Bits := {29}         // 0x20000000
  const NEED_WAKE: Bits := {30}      // 0x40000000
  const LOCK_FLAGS: Bits := {28, 29, 30} // 0x70000000

  predicate Has(v: Bits, bits: Bits) { v * bits != {} }
  predicate HasAll(v: Bits, bits: Bits) { v * bits == bits }

  // ---------------------------------------------------------------------------------
  // The atomic steps
  // ---------------------------------------------------------------------------------

  /** The word after a step, and what the call returns. */
  datatype Effect = Effect(word: Bits, rc: bool)

  function SetFlags(v: Bits, flags: Bits): Effect {
    Effect(v + flags, true)
  }

  function SetFlagsIfLocked(v: Bits, flags: Bits): Effect {
    if Has(v, LOCKED) then Effect(v + flags, true) else Effect(v, false)
  }

  function TrylockAndSetFlags(v: Bits, flags: Bits): Effect {
    Effect(v + LOCKED + flags, !Has(v, LOCKED))
  }

  function LockOrSetFlags(v: Bits, flags: Bits): Effect {
    if Has(v, LOCKED) then Effect(v + flags, false) else Effect(v + LOCKED, true)
  }

  function Trylock(v: Bits): Effect {
    if Has(v, LOCKED) then Effect(v, false) else Effect(v + LOCKED, true)
  }

  function TryUnlock(v: Bits, mask: Bits): Effect {
    if Has(v, mask) then Effect(v, false) else Effect(v - (LOCKED + NEED_WAKE), true)
  }

  // ---------------------------------------------------------------------------------
  // The code
  // ---------------------------------------------------------------------------------

  /** The word at the moment a call took effect: its value on entry, or what another
      thread left there. */
  ghost function Moment(entry: Bits, others: seq<Bits>, used: nat): Bits
    requires used <= |others|
  {
    if used == 0 then entry else others[used - 1]
  }

  lemma SetAgain(v: Bits, flags: Bits)
    requires HasAll(v, flags)
    ensures v + flags == v
  {
  }

  class Word {
    var lock: Bits

    constructor ()
      ensures lock == {}
    {
      lock := {};
    }

    /** Compare-and-swap, after the other threads had their say. */
    method Cas(others: seq<Bits>, used: nat, v: Bits, to: Bits) returns (ok: bool, used': nat)
      requires used <= |others|
      modifies this
      ensures used' == if used < |others| then used + 1 else used
      ensures var at := if used < |others| then others[used] else old(lock);
        ok == (at == v) && lock == if ok then to else at
    {
      used' := used;
      if used < |others| {
        lock := others[used];
        used' := used + 1;
      }
      ok := lock == v;
      if ok {
        lock := to;
      }
    }

    /** `ef_eplock_trylock`: one attempt only, so it may also fail because the word
        changed, in which case it has no effect. */
    method TrylockOnce(others: seq<Bits>) returns (rc: bool, used: nat)
      modifies this
      ensures used <= |others|
      ensures var at := Moment(old(lock), others, used);
        && (rc ==> Effect(lock, true) == Trylock(at))
        && (!rc ==> lock == at && (Has(at, LOCKED) || |others| > 0))
    {
      used := 0;
      var v := lock;
      rc := false;
      if !Has(v, LOCKED) {
        rc, used := Cas(others, 0, v, v + LOCKED);
      }
    }

    /** `ef_eplock_holder_set_flags`.  The lock bit stays on throughout. */
    method HolderSetFlags(flags: Bits, others: seq<Bits>) returns (used: nat)
      requires flags * LOCK_FLAGS == {}
      requires Has(lock, LOCKED) && forall k :: 0 <= k < |others| ==> Has(others[k], LOCKED)
      modifies this
      ensures used <= |others|
      ensures lock == SetFlags(Moment(old(lock), others, used), flags).word
    {
      used := 0;
      while true
        invariant used <= |others| && lock == Moment(old(lock), others, used)
        decreases |others| - used
      {
        var v := lock;
        assert Has(v, LOCKED);
        if HasAll(v, flags) {
          SetAgain(v, flags);
          return;
        }
        var ok;
        ok, used := Cas(others, used, v, v + flags);
        if ok {
          return;
        }
      }
    }

    /** `ef_eplock_clear_flags`: returns the word it cleared the flags from. */
    method ClearFlags(flags: Bits, others: seq<Bits>) returns (v: Bits, used: nat)
      requires flags * (LOCK_FLAGS - NEED_WAKE) == {}
      modifies this
      ensures used <= |others| && v == Moment(old(lock), others, used)
      ensures lock == v - flags
    {
      used := 0;
      v := lock;
      while true
        invariant used <= |others| && lock == Moment(old(lock), others, used)
        decreases |others| - used
      {
        v := lock;
        var ok;
        ok, used := Cas(others, used, v, v - flags);
        if ok {
          return;
        }
      }
    }

    /** `ef_eplock_set_flags_if_locked`. */
    method AlertHolder(flags: Bits, others: seq<Bits>) returns (rc: bool, used: nat)
      requires flags * LOCK_FLAGS == {}
      modifies this
      ensures used <= |others|
      ensures Effect(lock, rc) == SetFlagsIfLocked(Moment(old(lock), others, used), flags)
    {
      used := 0;
      while true
        invariant used <= |others| && lock == Moment(old(lock), others, used)
        decreases |others| - used
      {
        var v := lock;
        if !Has(v, LOCKED) {
          return false, used;
        }
        if HasAll(v, flags) {
          SetAgain(v, flags);
          return true, used;
        }
        var ok;
        ok, used := Cas(others, used, v, v + flags);
        if ok {
          return true, used;
        }
      }
    }

    /** `ef_eplock_trylock_and_set_flags`. */
    method TrylockSetting(flags: Bits, others: seq<Bits>) returns (rc: bool, used: nat)
      modifies this
      ensures used <= |others|
      ensures Effect(lock, rc) == TrylockAndSetFlags(Moment(old(lock), others, used), flags)
    {
      used := 0;
      while true
        invariant used <= |others| && lock == Moment(old(lock), others, used)
        decreases |others| - used
      {
        var v := lock;
        var ok;
        ok, used := Cas(others, used, v, v + LOCKED + flags);
        if ok {
          return !Has(v, LOCKED), used;
        }
      }
    }

    /** `ef_eplock_lock_or_set_flags`. */
    method LockOrDefer(flags: Bits, others: seq<Bits>) returns (rc: bool, used: nat)
      requires flags * LOCK_FLAGS == {}
      modifies this
      ensures used <= |others|
      ensures Effect(lock, rc) == LockOrSetFlags(Moment(old(lock), others, used), flags)
    {
      used := 0;
      while true
        invariant used <= |others| && lock == Moment(old(lock), others, used)
        decreases |others| - used
      {
        var v := lock;
        var to;
        if !Has(v, LOCKED) {
          rc := true;
          to := v + LOCKED;
        } else if HasAll(v, flags) {
          SetAgain(v, flags);
          return false, used;
        } else {
          rc := false;
          to := v + flags;
        }
        var ok;
        ok, used := Cas(others, used, v, to);
        if ok {
          return;
        }
      }
    }

    /** `ef_eplock_lock_or_set_flag`, whose early exit tests for any of the bits. */
    method LockOrDeferOne(flag: Bits, others: seq<Bits>) returns (rc: bool, used: nat)
      requires flag * LOCK_FLAGS == {}
      modifies this
      ensures used <= |others|
      ensures Effect(lock, rc) == LockOrSetFlag(Moment(old(lock), others, used), flag)
    {
      used := 0;
      while true
        invariant used <= |others| && lock == Moment(old(lock), others, used)
        decreases |others| - used
      {
        var v := lock;
        var to;
        if !Has(v, LOCKED) {
          rc := true;
          to := v + LOCKED;
        } else if Has(v, flag) {
          return false, used;
        } else {
          rc := false;
          to := v + flag;
        }
        var ok;
        ok, used := Cas(others, used, v, to);
        if ok {
          return;
        }
      }
    }

    /** `ef_eplock_try_unlock`: one attempt; it fails when a flag of the mask is set or
        the word changed, and then has no effect. */
    method Unlock(mask: Bits, others: seq<Bits>) returns (rc: bool, seen: Bits, used: nat)
      modifies this
      ensures used <= |others| && seen == old(lock)
      ensures var at := Moment(old(lock), others, used);
        && (rc ==> Effect(lock, true) == TryUnlock(at, mask) && seen == at)
        && (!rc ==> lock == at && (Has(at, mask) || |others| > 0))
    {
      used := 0;
      seen := lock;
      rc := false;
      if !Has(seen, mask) {
        rc, used := Cas(others, 0, seen, seen - (LOCKED + NEED_WAKE));
      }
    }
  }

  function LockOrSetFlag(v: Bits, flag: Bits): Effect {
    if !Has(v, LOCKED) then Effect(v + LOCKED, true)
    else if Has(v, flag) then Effect(v, false)
    else Effect(v + flag, false)
  }

  /** The one-flag form is right exactly for at most one bit: with two or more it can
      report flags as set that are not. */
  lemma OneFlagOnly(flag: Bits)
    requires flag * LOCK_FLAGS == {}
    ensures (forall v :: !LockOrSetFlag(v, flag).rc ==> HasAll(LockOrSetFlag(v, flag).word, flag))
      <==> forall b, c :: b in flag && c in flag ==> b == c
  {
    forall b, c | b in flag && c in flag && b != c
      ensures var v := LOCKED + {b};
        !LockOrSetFlag(v, flag).rc && !HasAll(LockOrSetFlag(v, flag).word, flag)
    {
      var v := LOCKED + {b};
      assert 29 in v * LOCKED;
      assert b in v * flag;
      assert 29 in LOCK_FLAGS;
      assert c !in v;
    }
    forall v | !LockOrSetFlag(v, flag).rc && forall b, c :: b in flag && c in flag ==> b == c
      ensures HasAll(LockOrSetFlag(v, flag).word, flag)
    {
    }
  }

  // ---------------------------------------------------------------------------------
  // Every interleaving
  // ---------------------------------------------------------------------------------

  /** `LockFast` is the compare-and-swap of `ef_eplock_lock` from a word of zero,
      `SlowAcquire` the moment its slow path obtains the lock and `Contend` the need-wake
      bit a waiter leaves on a locked word. */
  datatype Call =
    | TrylockCall
    | LockFast
    | SlowAcquire
    | Contend
    | HolderSet(flags: Bits)
    | Clear(flags: Bits)
    | Alert(flags: Bits)
    | TrylockSet(flags: Bits)
    | LockOrSet(flags: Bits)
    | LockOrSetOne(flags: Bits)
    | TryUnlockCall(mask: Bits)

  datatype Move = Move(thread: nat, call: Call)

  /** `holders` are the threads that were told they have the lock and have not been told
      that they released it. */
  datatype State = State(word: Bits, holders: set<nat>)

  /** What the code demands of its callers: assertions on flags, and calls that only the
      holder may make. */
  predicate Legal(s: State, m: Move) {
    match m.call
    case HolderSet(flags) => m.thread in s.holders && flags * LOCK_FLAGS == {}
    case Clear(flags) => flags * (LOCK_FLAGS - NEED_WAKE) == {}
    case Alert(flags) => flags * LOCK_FLAGS == {}
    case LockOrSet(flags) => flags * LOCK_FLAGS == {}
    case LockOrSetOne(flags) => flags * LOCK_FLAGS == {} && |flags| == 1
    case TryUnlockCall(_) => m.thread in s.holders
    case _ => true
  }

  /** What the call does to the word, and what it answers. */
  function Perform(v: Bits, call: Call): Effect {
    match call
    case TrylockCall => Trylock(v)
    case LockFast => if v == {} then Effect(LOCKED, true) else Effect(v, false)
    case SlowAcquire => Trylock(v)
    case Contend => if Has(v, LOCKED) then Effect(v + NEED_WAKE, false) else Effect(v, false)
    case HolderSet(flags) => SetFlags(v, flags)
    case Clear(flags) => Effect(v - flags, true)
    case Alert(flags) => SetFlagsIfLocked(v, flags)
    case TrylockSet(flags) => TrylockAndSetFlags(v, flags)
    case LockOrSet(flags) => LockOrSetFlags(v, flags)
    case LockOrSetOne(flags) => LockOrSetFlag(v, flags)
    case TryUnlockCall(mask) => TryUnlock(v, mask)
  }

  predicate Acquires(call: Call) {
    || call.TrylockCall? || call.LockFast? || call.SlowAcquire?
    || call.TrylockSet? || call.LockOrSet? || call.LockOrSetOne?
  }

  /** The holders after a thread is told the answer of its call. */
  function Told(holders: set<nat>, thread: nat, call: Call, rc: bool): set<nat> {
    if rc && Acquires(call) then holders + {thread}
    else if rc && call.TryUnlockCall? then holders - {thread}
    else holders
  }

  function Step(s: State, m: Move): State {
    if !Legal(s, m) then s else
    var e := Perform(s.word, m.call);
    State(e.word, Told(s.holders, m.thread, m.call, e.rc))
  }

  function Exec(s: State, moves: seq<Move>): State {
    if moves == [] then s else Step(Exec(s, moves[..|moves| - 1]), moves[|moves| - 1])
  }

  ghost predicate Exclusive(s: State) {
    && (Has(s.word, LOCKED) <==> s.holders != {})
    && forall a, b :: a in s.holders && b in s.holders ==> a == b
  }

  lemma PerformLockBit(v: Bits, call: Call)
    ensures Acquires(call) && Perform(v, call).rc ==> !Has(v, LOCKED) && Has(Perform(v, call).word, LOCKED)
    ensures Acquires(call) && !Perform(v, call).rc ==> Has(Perform(v, call).word, LOCKED) == Has(v, LOCKED)
    ensures call.TryUnlockCall? && Perform(v, call).rc ==> !Has(Perform(v, call).word, LOCKED)
    ensures call.TryUnlockCall? && !Perform(v, call).rc ==> Perform(v, call).word == v
    ensures call.Contend? || call.Alert? ==> Has(Perform(v, call).word, LOCKED) == Has(v, LOCKED)
    ensures (call.HolderSet? || call.Clear?) && 29 !in call.flags ==>
      Has(Perform(v, call).word, LOCKED) == Has(v, LOCKED)
  {
    LockedBit(v);
    LockedBit(Perform(v, call).word);
  }

  lemma LockedBit(v: Bits)
    ensures Has(v, LOCKED) <==> 29 in v
  {
    assert 29 in v ==> 29 in v * LOCKED;
  }

  lemma StepExclusive(s: State, m: Move)
    requires Exclusive(s)
    ensures Exclusive(Step(s, m))
  {
    if Legal(s, m) {
      PerformLockBit(s.word, m.call);
      assert 29 in LOCK_FLAGS - NEED_WAKE;
      if m.call.HolderSet? || m.call.Clear? {
        assert 29 !in m.call.flags;
      }
    }
  }

  /** Mutual exclusion: in every run from an unlocked word, of any calls by any threads,
      the lock bit is set exactly when some thread has the lock, and no two have it. */
  lemma {:induction false} MutualExclusion(word: Bits, moves: seq<Move>)
    requires !Has(word, LOCKED)
    ensures Exclusive(Exec(State(word, {}), moves))
  {
    if moves != [] {
      MutualExclusion(word, moves[..|moves| - 1]);
      StepExclusive(Exec(State(word, {}), moves[..|moves| - 1]), moves[|moves| - 1]);
    }
  }

  /** The assertion in the holder's loops holds in every run. */
  lemma HolderSeesLocked(word: Bits, moves: seq<Move>, thread: nat)
    requires !Has(word, LOCKED)
    requires thread in Exec(State(word, {}), moves).holders
    ensures Has(Exec(State(word, {}), moves).word, LOCKED)
  {
    MutualExclusion(word, moves);
  }

  /** The calls that leave work to the holder. */
  predicate Defers(m: Move, flag: nat) {
    && (m.call.HolderSet? || m.call.Alert? || m.call.TrylockSet? || m.call.LockOrSet? || m.call.LockOrSetOne?)
    && flag in m.call.flags
  }

  /** The call's answer means that the flag was left: for the lock-or-set calls the answer
      is "not locked by you", for the alert "the lock is held". */
  predicate Accepted(s: State, m: Move, flag: nat) {
    && Defers(m, flag) && Legal(s, m)
    && (m.call.Alert? ==> Perform(s.word, m.call).rc)
    && (m.call.LockOrSet? || m.call.LockOrSetOne? ==> !Perform(s.word, m.call).rc)
  }

  predicate Clears(m: Move, flag: nat) {
    m.call.Clear? && flag in m.call.flags && m.call.flags * (LOCK_FLAGS - NEED_WAKE) == {}
  }

  /** A flag reported as left is set, while some thread has the lock. */
  lemma AcceptedIsSet(s: State, m: Move, flag: nat)
    requires Exclusive(s) && Accepted(s, m, flag)
    ensures flag in Step(s, m).word && Step(s, m).holders != {}
  {
    StepExclusive(s, m);
    LockedBit(s.word);
    LockedBit(Step(s, m).word);
    if m.call.LockOrSetOne? {
      var rest := m.call.flags - {flag};
      assert m.call.flags == rest + {flag};
      assert rest == {};
      assert m.call.flags == {flag};
    }
  }

  /** Only a clear takes a flag away. */
  lemma FlagSurvives(s: State, m: Move, flag: nat)
    requires flag in s.word && flag !in LOCK_FLAGS && !Clears(m, flag)
    ensures flag in Step(s, m).word
  {
    assert 29 in LOCK_FLAGS && 30 in LOCK_FLAGS;
  }

  lemma {:induction false} FlagKept(s: State, moves: seq<Move>, i: nat, flag: nat)
    requires i <= |moves| && flag in Exec(s, moves[..i]).word && flag !in LOCK_FLAGS
    requires forall k :: i <= k < |moves| ==> !Clears(moves[k], flag)
    ensures flag in Exec(s, moves).word
    decreases |moves|
  {
    if i == |moves| {
      assert moves[..i] == moves;
    } else {
      var before := moves[..|moves| - 1];
      assert before[..i] == moves[..i];
      FlagKept(s, before, i, flag);
      FlagSurvives(Exec(s, before), moves[|moves| - 1], flag);
    }
  }

  /** No deferred work is lost.  In every run, between a call that reported leaving a flag
      to the holder and an unlock that succeeded with that flag in its mask, some thread
      cleared the flag and was handed it: the first clear of it returns a word with it. */
  lemma NoWorkLost(word: Bits, moves: seq<Move>, i: nat, j: nat, flag: nat)
    requires !Has(word, LOCKED) && i < j < |moves| && flag !in LOCK_FLAGS
    requires Accepted(Exec(State(word, {}), moves[..i]), moves[i], flag)
    requires moves[j].call.TryUnlockCall? && flag in moves[j].call.mask
    requires Perform(Exec(State(word, {}), moves[..j]).word, moves[j].call).rc
    ensures exists k :: i < k < j && Clears(moves[k], flag) && flag in Exec(State(word, {}), moves[..k]).word
  {
    var s := State(word, {});
    MutualExclusion(word, moves[..i]);
    AcceptedIsSet(Exec(s, moves[..i]), moves[i], flag);
    assert moves[..i + 1][..i] == moves[..i];
    assert flag in Exec(s, moves[..i + 1]).word;
    var k := i + 1;
    while k < j && !Clears(moves[k], flag)
      invariant i < k <= j && forall l :: i < l < k ==> !Clears(moves[l], flag)
    {
      k := k + 1;
    }
    assert moves[..k][..i + 1] == moves[..i + 1];
    FlagKept(s, moves[..k], i + 1, flag);
    if k == j {
      assert false;
    }
  }
}
