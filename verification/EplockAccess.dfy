/** The endpoint lock at the grain of its accesses: each load and each compare-and-swap of every call is a
    step of its own.

    Every run of accesses does what some run of whole calls does, so that what is proved of those holds of the
    code's own interleavings. */
module EplockAccess {
  import opened Eplock

  /** Where a thread is: outside, about to load, or about to compare and swap from `v`. */
  datatype Pc = Outside | Loading(call: Call) | Loaded(call: Call, v: Bits)

  /** `log` are the calls that took effect, in the order in which they did. */
  datatype Shared = Shared(lock: State, pcs: map<nat, Pc>, log: seq<Move>)

  /** `Enter` begins a call, `Access` is the thread's next access. */
  datatype Action = Enter(call: Call) | Access

  datatype Turn = Turn(thread: nat, action: Action)

  /** The call returns on what it loaded, without a compare-and-swap. */
  predicate Early(call: Call, v: Bits) {
    match call
    case TrylockCall => Has(v, LOCKED)
    case LockFast => false
    case SlowAcquire => Has(v, LOCKED)
    case Contend => !Has(v, LOCKED)
    case HolderSet(flags) => HasAll(v, flags)
    case Clear(_) => false
    case Alert(flags) => !Has(v, LOCKED) || HasAll(v, flags)
    case TrylockSet(_) => false
    case LockOrSet(flags) => Has(v, LOCKED) && HasAll(v, flags)
    case LockOrSetOne(flags) => Has(v, LOCKED) && Has(v, flags)
    case TryUnlockCall(mask) => Has(v, mask)
  }

  /** The call makes one attempt and returns false if the word has changed. */
  predicate Once(call: Call) {
    call.TrylockCall? || call.LockFast? || call.TryUnlockCall?
  }

  /** The call takes effect with `word` as the new word. */
  function Effective(s: Shared, thread: nat, call: Call, v: Bits, word: Bits): Shared {
    Shared(State(word, Told(s.lock.holders, thread, call, Perform(v, call).rc)),
           s.pcs[thread := Outside], s.log + [Move(thread, call)])
  }

  function LoadWord(s: Shared, thread: nat, call: Call): Shared {
    // The fast path of the lock compares with zero and does not look first.
    var v := if call.LockFast? then {} else s.lock.word;
    if Early(call, v) then Effective(s, thread, call, v, s.lock.word)
    else s.(pcs := s.pcs[thread := Loaded(call, v)])
  }

  function SwapWord(s: Shared, thread: nat, call: Call, v: Bits): Shared {
    if s.lock.word == v then Effective(s, thread, call, v, Perform(v, call).word)
    else s.(pcs := s.pcs[thread := if Once(call) then Outside else Loading(call)])
  }

  /** One access; a turn that does not apply changes nothing. */
  function Take(s: Shared, t: Turn): Shared {
    if t.thread !in s.pcs then s else
    match (t.action, s.pcs[t.thread])
    case (Enter(call), Outside) =>
      if Legal(s.lock, Move(t.thread, call)) then s.(pcs := s.pcs[t.thread := Loading(call)]) else s
    case (Access, Loading(call)) => LoadWord(s, t.thread, call)
    case (Access, Loaded(call, v)) => SwapWord(s, t.thread, call, v)
    case _ => s
  }

  function Play(s: Shared, turns: seq<Turn>): Shared {
    if turns == [] then s else Take(Play(s, turns[..|turns| - 1]), turns[|turns| - 1])
  }

  /** An unlocked word, and every thread outside. */
  ghost predicate Fresh(s: Shared) {
    && !Has(s.lock.word, LOCKED) && s.lock.holders == {} && s.log == []
    && forall t :: t in s.pcs ==> s.pcs[t] == Outside
  }

  /** A call under way is one its thread may make. */
  ghost predicate PcOk(s: Shared, t: nat) {
    t in s.pcs && !s.pcs[t].Outside? ==>
      && Legal(s.lock, Move(t, s.pcs[t].call))
      && (s.pcs[t].Loaded? ==> !Early(s.pcs[t].call, s.pcs[t].v) && (s.pcs[t].call.LockFast? ==> s.pcs[t].v == {}))
  }

  /** The shared word and the holders are what the calls of the log make of them. */
  ghost predicate Refines(first: Bits, s: Shared) {
    s.lock == Exec(State(first, {}), s.log) && forall t :: PcOk(s, t)
  }

  lemma EarlyHasNoEffect(call: Call, v: Bits)
    requires Early(call, v)
    ensures Perform(v, call).word == v
  {
    if (call.HolderSet? || call.Alert? || call.LockOrSet?) && HasAll(v, call.flags) {
      SetAgain(v, call.flags);
    }
  }

  /** A call of one thread does not take away what another needs for its call. */
  lemma LegalKept(s: State, m: Move, thread: nat, call: Call)
    requires Legal(s, Move(thread, call)) && m.thread != thread
    ensures Legal(Step(s, m), Move(thread, call))
  {}

  lemma EffectiveRefines(first: Bits, s: Shared, thread: nat, call: Call, v: Bits, word: Bits)
    requires Refines(first, s) && thread in s.pcs && !s.pcs[thread].Outside? && s.pcs[thread].call == call
    requires v == s.lock.word && word == Perform(v, call).word
    ensures Refines(first, Effective(s, thread, call, v, word))
  {
    var m, r := Move(thread, call), Effective(s, thread, call, v, word);
    assert PcOk(s, thread);
    assert r.lock == Step(s.lock, m);
    assert r.log[..|r.log| - 1] == s.log;
    forall t
      ensures PcOk(r, t)
    {
      assert PcOk(s, t);
      if t != thread && t in s.pcs && !s.pcs[t].Outside? {
        LegalKept(s.lock, m, t, s.pcs[t].call);
      }
    }
  }

  lemma PcChanged(first: Bits, s: Shared, thread: nat, pc: Pc)
    requires Refines(first, s) && thread in s.pcs && PcOk(s.(pcs := s.pcs[thread := pc]), thread)
    ensures Refines(first, s.(pcs := s.pcs[thread := pc]))
  {
    var r := s.(pcs := s.pcs[thread := pc]);
    forall t
      ensures PcOk(r, t)
    {
      assert PcOk(s, t);
    }
  }

  lemma LoadRefines(first: Bits, s: Shared, thread: nat, call: Call)
    requires Refines(first, s) && thread in s.pcs && s.pcs[thread] == Loading(call)
    ensures Refines(first, LoadWord(s, thread, call))
  {
    var v := if call.LockFast? then {} else s.lock.word;
    assert PcOk(s, thread);
    if Early(call, v) {
      EarlyHasNoEffect(call, v);
      EffectiveRefines(first, s, thread, call, v, s.lock.word);
    } else {
      PcChanged(first, s, thread, Loaded(call, v));
    }
  }

  lemma SwapRefines(first: Bits, s: Shared, thread: nat, call: Call, v: Bits)
    requires Refines(first, s) && thread in s.pcs && s.pcs[thread] == Loaded(call, v)
    ensures Refines(first, SwapWord(s, thread, call, v))
  {
    assert PcOk(s, thread);
    if s.lock.word == v {
      EffectiveRefines(first, s, thread, call, v, Perform(v, call).word);
    } else {
      PcChanged(first, s, thread, if Once(call) then Outside else Loading(call));
    }
  }

  lemma TakeRefines(first: Bits, s: Shared, t: Turn)
    requires Refines(first, s)
    ensures Refines(first, Take(s, t))
  {
    if t.thread in s.pcs {
      match (t.action, s.pcs[t.thread])
      case (Enter(call), Outside) =>
        if Legal(s.lock, Move(t.thread, call)) {
          PcChanged(first, s, t.thread, Loading(call));
        }
      case (Access, Loading(call)) => LoadRefines(first, s, t.thread, call);
      case (Access, Loaded(call, v)) => SwapRefines(first, s, t.thread, call, v);
      case _ =>
    }
  }

  /** Every run of accesses does what the run of whole calls in its log does: each call takes effect at one
      access, if at all. */
  lemma {:induction false} AccessesRefine(s: Shared, turns: seq<Turn>)
    requires Fresh(s)
    ensures Refines(s.lock.word, Play(s, turns))
  {
    if turns != [] {
      AccessesRefine(s, turns[..|turns| - 1]);
      TakeRefines(s.lock.word, Play(s, turns[..|turns| - 1]), turns[|turns| - 1]);
    }
  }

  /** After every access of every interleaving at most one thread has been told it has the lock, and the lock
      bit is set iff one has. */
  lemma AccessesExclude(s: Shared, turns: seq<Turn>)
    requires Fresh(s)
    ensures Exclusive(Play(s, turns).lock)
  {
    AccessesRefine(s, turns);
    MutualExclusion(s.lock.word, Play(s, turns).log);
  }

  /** A holder's loop loads a locked word, whatever the others do between its accesses. */
  lemma HolderLoadsLocked(s: Shared, turns: seq<Turn>, thread: nat)
    requires Fresh(s) && thread in Play(s, turns).pcs
    requires Play(s, turns).pcs[thread].Loading? && Play(s, turns).pcs[thread].call.HolderSet?
    ensures Has(Play(s, turns).lock.word, LOCKED)
  {
    AccessesRefine(s, turns);
    AccessesExclude(s, turns);
    assert PcOk(Play(s, turns), thread);
  }

  /** No deferred work is lost at this grain either: between the access at which a flag was left and the one at
      which an unlock with the flag in its mask succeeded, there is one at which a clear was handed the flag. */
  lemma NoWorkLostByAccesses(s: Shared, turns: seq<Turn>, i: nat, j: nat, flag: nat)
    requires Fresh(s) && i < j < |Play(s, turns).log| && flag !in LOCK_FLAGS
    requires var log, first := Play(s, turns).log, State(s.lock.word, {});
      && Accepted(Exec(first, log[..i]), log[i], flag)
      && log[j].call.TryUnlockCall? && flag in log[j].call.mask
      && Perform(Exec(first, log[..j]).word, log[j].call).rc
    ensures var log := Play(s, turns).log;
      exists k :: i < k < j && Clears(log[k], flag) && flag in Exec(State(s.lock.word, {}), log[..k]).word
  {
    AccessesRefine(s, turns);
    NoWorkLost(s.lock.word, Play(s, turns).log, i, j, flag);
  }

  // ---------------------------------------------------------------------------------
  // No call is stuck
  // ---------------------------------------------------------------------------------

  /** How many accesses of its own, with no others in between, a thread is from the end of its call. */
  function Rank(s: Shared, thread: nat): nat
    requires thread in s.pcs
  {
    match s.pcs[thread]
    case Outside => 0
    case Loading(_) => 2
    case Loaded(call, v) => if v == s.lock.word || Once(call) then 1 else 3
  }

  lemma AloneMovesOn(s: Shared, thread: nat)
    requires thread in s.pcs && !s.pcs[thread].Outside?
    ensures var r, call := Take(s, Turn(thread, Access)), s.pcs[thread].call;
      && thread in r.pcs && Rank(r, thread) < Rank(s, thread)
      && (r.pcs[thread].Outside? ==>
            r.log == s.log + [Move(thread, call)] ||
            ((call.TrylockCall? || call.LockFast? || call.TryUnlockCall?) && r.log == s.log))
      && (!r.pcs[thread].Outside? ==> r.pcs[thread].call == call && r.log == s.log)
  {}

  ghost function Alone(s: Shared, thread: nat, n: nat): Shared
    decreases n
  {
    if n == 0 then s else Alone(Take(s, Turn(thread, Access)), thread, n - 1)
  }

  /** From any state a thread that is left alone ends its call within three accesses.  The call has then taken
      effect, unless it is one that makes a single attempt. */
  lemma {:induction false} AloneEnds(s: Shared, thread: nat) returns (n: nat)
    requires thread in s.pcs && !s.pcs[thread].Outside?
    ensures n <= Rank(s, thread) <= 3
    ensures var r, call := Alone(s, thread, n), s.pcs[thread].call;
      && thread in r.pcs && r.pcs[thread] == Outside
      && (r.log == s.log + [Move(thread, call)] ||
          ((call.TrylockCall? || call.LockFast? || call.TryUnlockCall?) && r.log == s.log))
    decreases Rank(s, thread)
  {
    AloneMovesOn(s, thread);
    var next := Take(s, Turn(thread, Access));
    if next.pcs[thread].Outside? {
      n := 1;
      assert Alone(next, thread, 0) == next;
    } else {
      n := AloneEnds(next, thread);
      n := n + 1;
    }
  }
}
