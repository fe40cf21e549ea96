/** The endpoint lock bit by bit: bit 29 is the lock and bit 30 asks for a wake-up. */
module EplockBits {
  import opened Eplock

  /** No bit of `bits` is set in `v`. */
  predicate NoneOf(v: Bits, bits: Bits) {
    forall b :: b in bits ==> b !in v
  }

  /** Whether bit `b` is set after the call. */
  predicate BitAfter(v: Bits, call: Call, b: nat) {
    match call
    case TrylockCall => b in v || b == 29
    case LockFast => b in v || (b == 29 && v == {})
    case SlowAcquire => b in v || b == 29
    case Contend => b in v || (b == 30 && 29 in v)
    case HolderSet(flags) => b in v || b in flags
    case Clear(flags) => b in v && b !in flags
    case Alert(flags) => b in v || (b in flags && 29 in v)
    case TrylockSet(flags) => b in v || b == 29 || b in flags
    case LockOrSet(flags) => b in v || (if 29 in v then b in flags else b == 29)
    case LockOrSetOne(flags) => b in v || (if 29 in v then b in flags && NoneOf(v, flags) else b == 29)
    case TryUnlockCall(mask) => b in v && (NoneOf(v, mask) ==> b != 29 && b != 30)
  }

  /** What the call answers. */
  predicate AnswerAfter(v: Bits, call: Call) {
    match call
    case TrylockCall => 29 !in v
    case LockFast => v == {}
    case SlowAcquire => 29 !in v
    case Contend => false
    case HolderSet(_) => true
    case Clear(_) => true
    case Alert(_) => 29 in v
    case TrylockSet(_) => 29 !in v
    case LockOrSet(_) => 29 !in v
    case LockOrSetOne(_) => 29 !in v
    case TryUnlockCall(mask) => NoneOf(v, mask)
  }

  lemma HasNone(v: Bits, bits: Bits)
    ensures Has(v, bits) <==> !NoneOf(v, bits)
  {
    if b :| b in bits && b in v {
      assert b in v * bits;
    }
  }

  /** Every call, every word and every bit: the word and the answer that the call leaves. */
  lemma CallBits(v: Bits, call: Call, b: nat)
    ensures b in Perform(v, call).word <==> BitAfter(v, call, b)
    ensures Perform(v, call).rc <==> AnswerAfter(v, call)
  {
    LockedBit(v);
    if call.TryUnlockCall? {
      HasNone(v, call.mask);
    } else if call.LockOrSetOne? {
      HasNone(v, call.flags);
    }
  }

  /** A successful unlock takes the lock bit and the need-wake bit, and leaves every other bit. */
  lemma UnlockBits(v: Bits, mask: Bits, b: nat)
    requires TryUnlock(v, mask).rc
    ensures b in TryUnlock(v, mask).word <==> b in v && b != 29 && b != 30
  {
    CallBits(v, TryUnlockCall(mask), b);
    HasNone(v, mask);
  }

  /** Which flags a caller may pass: none of the bits 28 to 30, but for bit 30 to a clear. */
  lemma LegalBits(s: State, m: Move)
    ensures m.call.HolderSet? || m.call.Alert? || m.call.LockOrSet? ==>
      (Legal(s, m) <==>
         && 28 !in m.call.flags && 29 !in m.call.flags && 30 !in m.call.flags
         && (m.call.HolderSet? ==> m.thread in s.holders))
    ensures m.call.LockOrSetOne? ==>
      (Legal(s, m) <==> 28 !in m.call.flags && 29 !in m.call.flags && 30 !in m.call.flags && |m.call.flags| == 1)
    ensures m.call.Clear? ==> (Legal(s, m) <==> 28 !in m.call.flags && 29 !in m.call.flags)
    ensures m.call.TryUnlockCall? ==> (Legal(s, m) <==> m.thread in s.holders)
  {
    if m.call.HolderSet? || m.call.Alert? || m.call.LockOrSet? || m.call.LockOrSetOne? || m.call.Clear? {
      var flags := m.call.flags;
      assert forall b :: b in flags * LOCK_FLAGS <==> b in flags && (b == 28 || b == 29 || b == 30);
      assert forall b :: b in flags * (LOCK_FLAGS - NEED_WAKE) <==> b in flags && (b == 28 || b == 29);
    }
  }

  /** The move turns bit 30 on. */
  predicate AsksWake(s: State, m: Move) {
    Legal(s, m) && ((m.call.Contend? && 29 in s.word) || (m.call.TrylockSet? && 30 in m.call.flags))
  }

  /** The move turns bit 30 off: a successful unlock, or a clear of it. */
  predicate DropsWake(s: State, m: Move) {
    Legal(s, m) &&
    ((m.call.TryUnlockCall? && NoneOf(s.word, m.call.mask)) || (m.call.Clear? && 30 in m.call.flags))
  }

  lemma WakeStep(s: State, m: Move)
    ensures 30 in Step(s, m).word <==> AsksWake(s, m) || (30 in s.word && !DropsWake(s, m))
  {
    CallBits(s.word, m.call, 30);
    LegalBits(s, m);
  }

  ghost function Before(first: State, moves: seq<Move>, k: nat): State
    requires k <= |moves|
  {
    Exec(first, moves[..k])
  }

  /** Nothing from move `i` on turns bit 30 off. */
  ghost predicate KeepsWake(first: State, moves: seq<Move>, i: nat) {
    forall k :: i <= k < |moves| ==> !DropsWake(Before(first, moves, k), moves[k])
  }

  /** Bit 30 was asked for at move `i`, and nothing after turned it off. */
  ghost predicate WakeFrom(first: State, moves: seq<Move>, i: nat) {
    i < |moves| && AsksWake(Before(first, moves, i), moves[i]) && KeepsWake(first, moves, i + 1)
  }

  lemma KeepsNext(first: State, moves: seq<Move>, i: nat)
    requires moves != [] && i <= |moves| - 1
    ensures var before := moves[..|moves| - 1];
      KeepsWake(first, moves, i) <==>
        KeepsWake(first, before, i) && !DropsWake(Exec(first, before), moves[|moves| - 1])
  {
    var before, n := moves[..|moves| - 1], |moves| - 1;
    assert Before(first, moves, n) == Exec(first, before);
    forall k | i <= k < n
      ensures Before(first, moves, k) == Before(first, before, k) && before[k] == moves[k]
    {
      assert moves[..k] == before[..k];
    }
    if KeepsWake(first, moves, i) {
      forall k | i <= k < |before|
        ensures !DropsWake(Before(first, before, k), before[k])
      {
        assert !DropsWake(Before(first, moves, k), moves[k]);
      }
    }
  }

  lemma WakeFromNext(first: State, moves: seq<Move>, i: nat)
    requires moves != []
    ensures var before, m := moves[..|moves| - 1], moves[|moves| - 1];
      WakeFrom(first, moves, i) <==>
        if i == |moves| - 1 then AsksWake(Exec(first, before), m)
        else WakeFrom(first, before, i) && !DropsWake(Exec(first, before), m)
  {
    var before := moves[..|moves| - 1];
    if i < |moves| - 1 {
      assert moves[..i] == before[..i] && moves[i] == before[i];
      KeepsNext(first, moves, i + 1);
    }
  }

  /** In every run bit 30 is set if and only if it was asked for, by a waiter on a locked word or by flags passed
      in, with no successful unlock and no clear of it since, or was there from the start and never turned off. */
  lemma {:induction false} WakeExactly(first: State, moves: seq<Move>)
    ensures 30 in Exec(first, moves).word <==>
      (exists i :: WakeFrom(first, moves, i)) || (30 in first.word && KeepsWake(first, moves, 0))
  {
    if moves != [] {
      var before, m := moves[..|moves| - 1], moves[|moves| - 1];
      WakeExactly(first, before);
      WakeStep(Exec(first, before), m);
      KeepsNext(first, moves, 0);
      WakeFromNext(first, moves, |before|);
      forall i: nat
        ensures WakeFrom(first, moves, i) <==>
          if i == |before| then AsksWake(Exec(first, before), m)
          else WakeFrom(first, before, i) && !DropsWake(Exec(first, before), m)
      {
        WakeFromNext(first, moves, i);
      }
    }
  }
}
