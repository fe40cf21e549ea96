/** The backward fields of a list that is added to and taken concurrently.

    The last store of `oo_p_dllink_concurrent_add` writes the backward field of the link that was first
    when the add looked.  This module says when the live list is a full ring, and exactly when that store
    hits a link that a traverser has already finished with. */
module BackLinks {
  import opened DlList
  import opened ConcurrentAdd

  ghost predicate Ring(next: Links, prev: Links, head: Offset, live: seq<Offset>) {
    live != [] ==> Linked(next, prev, [head] + live)
  }

  /** The add is past its swap and is still to store into the backward field of `n`. */
  predicate Late(a: Adder) {
    a.LoadFirst? || a.FixPrev?
  }

  /** The live list is a ring but, after a swap, for the one store that is still to come. */
  ghost predicate BackOk(s: State, head: Offset) {
    match s.adder
    case Swap(x, _, _, _) => x in s.prev && s.prev[x] == head && Ring(s.next, s.prev, head, s.live)
    case LoadFirst(n) =>
      s.live != [] ==> n == First(s.live[1..], head) && Ring(s.next, s.prev[n := s.live[0]], head, s.live)
    case FixPrev(n, first) =>
      && (n != head ==> first != n)
      && (s.live != [] ==>
            first == s.live[0] && n == First(s.live[1..], head) && Ring(s.next, s.prev[n := first], head, s.live))
    case _ => Ring(s.next, s.prev, head, s.live)
  }

  ghost predicate Whole(s: State, head: Offset) {
    Invariant(s, head) && BackOk(s, head)
  }

  /** Storing into the fields of a link that is not on the live list keeps its ring. */
  lemma StoreOffRing(next: Links, prev: Links, head: Offset, live: seq<Offset>, x: Offset, n: Offset, p: Offset)
    requires Ring(next, prev, head, live) && x != head && x !in live
    ensures Ring(next[x := n], prev, head, live) && Ring(next, prev[x := p], head, live)
    ensures Ring(next[x := n], prev[x := p], head, live)
  {
    if live != [] {
      var ring := [head] + live;
      LinkedFrame(next, prev, next[x := n], prev, {x}, ring);
      LinkedFrame(next, prev, next, prev[x := p], {x}, ring);
      LinkedFrame(next, prev, next[x := n], prev[x := p], {x}, ring);
    }
  }

  /** The list after a swap, with the store that is to come. */
  lemma SwapRing(next: Links, prev: Links, head: Offset, live: seq<Offset>, x: Offset)
    requires Ring(next, prev, head, live) && x != head && x !in live
    requires head in next && next[head] == First(live, head)
    requires x in next && next[x] == next[head] && x in prev && prev[x] == head
    ensures Ring(next[head := x], prev[next[head] := x], head, [x] + live)
  {
    var n := next[head];
    var p: Links := if live == [] then prev[head := head] else prev;
    if live == [] {
      assert EdgeAt(next, p, [head] + [head], 0);
      assert Linked(next, p, [head] + live);
    }
    PrependLinked(next, p, head, live, x);
    assert next[x := n][head := x] == next[head := x];
    assert p[x := head][n := x] == prev[n := x];
  }

  lemma SwapBack(s: State, head: Offset)
    requires Whole(s, head) && s.adder.Swap?
    ensures BackOk(AdderStep(s, head), head)
  {
    var x := s.adder.link;
    assert !OnChain(s.live, s.grabs, x);
    if s.next[head] == s.adder.n {
      SwapRing(s.next, s.prev, head, s.live, x);
      assert ([x] + s.live)[1..] == s.live;
    }
  }

  /** The load of the first link, before the last store. */
  lemma LoadBack(s: State, head: Offset)
    requires Whole(s, head) && s.adder.LoadFirst?
    ensures BackOk(AdderStep(s, head), head)
  {
    if s.live != [] {
      var rest := s.live[1..];
      assert rest != [] ==> s.live[0] != s.live[1] && rest[0] == s.live[1];
      assert s.live[0] in s.live;
    }
  }

  lemma AdderBack(s: State, head: Offset)
    requires Whole(s, head)
    ensures BackOk(AdderStep(s, head), head)
  {
    match s.adder
    case StoreNext(x, n, _, p0) => StoreOffRing(s.next, s.prev, head, s.live, x, n, p0);
    case StorePrev(x, n, _, _) => StoreOffRing(s.next, s.prev, head, s.live, x, n, head);
    case RestoreNext(x, n0, p0) => StoreOffRing(s.next, s.prev, head, s.live, x, n0, p0);
    case RestorePrev(x, n0, p0) => StoreOffRing(s.next, s.prev, head, s.live, x, n0, p0);
    case Swap(_, _, _, _) => SwapBack(s, head);
    case LoadFirst(_) => LoadBack(s, head);
    case _ =>
  }

  /** What a traverser finishes is on no live list. */
  lemma FinishOff(s: State, head: Offset, g: nat)
    requires Invariant(s, head) && g < |s.grabs| && s.grabs[g].at != head
    ensures s.grabs[g].rest != [] && s.grabs[g].at == s.grabs[g].rest[0]
    ensures s.grabs[g].at !in s.live && OnChain(s.live, s.grabs, s.grabs[g].at)
  {
    assert GrabOk(s.next, head, s.grabs[g]) && Apart(s.live, s.grabs[g].rest);
    assert s.grabs[g].at in s.grabs[g].rest;
  }

  lemma FinishBack(s: State, head: Offset, g: nat)
    requires Whole(s, head)
    ensures BackOk(Step(s, head, Finish(g)), head)
  {
    if g < |s.grabs| && s.grabs[g].at != head && s.grabs[g].at in s.next {
      var x := s.grabs[g].at;
      FinishOff(s, head, g);
      if Late(s.adder) && s.live != [] {
        var n, l := s.adder.n, s.live[0];
        StoreOffRing(s.next, s.prev[n := l], head, s.live, x, x, x);
        assert n != x;
        assert s.prev[x := x][n := l] == s.prev[n := l][x := x];
      } else if !Late(s.adder) {
        StoreOffRing(s.next, s.prev, head, s.live, x, x, x);
      }
    }
  }

  lemma StepWhole(s: State, head: Offset, m: Move)
    requires Whole(s, head)
    ensures Whole(Step(s, head, m), head)
  {
    StepInvariant(s, head, m);
    match m
    case Access => AdderBack(s, head);
    case Finish(g) => FinishBack(s, head, g);
    case _ =>
  }

  lemma {:induction false} RunWhole(s: State, head: Offset, moves: seq<Move>)
    requires Initial(s, head)
    ensures Whole(Exec(s, head, moves), head)
  {
    if moves != [] {
      RunWhole(s, head, moves[..|moves| - 1]);
      StepWhole(Exec(s, head, moves[..|moves| - 1]), head, moves[|moves| - 1]);
    }
  }

  /** In every run, whenever no add is between its swap and its last store and the live list is not empty,
      it is a full doubly linked ring, whatever traversers have done. */
  lemma LiveIsRing(s: State, head: Offset, moves: seq<Move>)
    requires Initial(s, head)
    requires !Late(Exec(s, head, moves).adder) && Exec(s, head, moves).live != []
    ensures var r := Exec(s, head, moves);
      Linked(r.next, r.prev, [head] + r.live)
  {
    RunWhole(s, head, moves);
  }

  // ---------------------------------------------------------------------------------
  // Links that traversers have finished with
  // ---------------------------------------------------------------------------------

  /** The add is past its swap and will store into the backward field of `y`. */
  predicate LateFor(a: Adder, y: Offset) {
    Late(a) && a.n == y
  }

  /** The add under way is one of `y`, and has not swapped. */
  predicate Adding(a: Adder, y: Offset) {
    && (a.LoadHead? || a.StoreNext? || a.StorePrev? || a.Swap? || a.RestoreNext? || a.RestorePrev?)
    && a.link == y
  }

  ghost predicate SelfLinked(s: State, y: Offset) {
    y in s.next && s.next[y] == y && y in s.prev && s.prev[y] == y
  }

  /** Move `k` is a traverser finishing with `y`. */
  ghost predicate Finishes(s: State, head: Offset, moves: seq<Move>, k: nat, y: Offset) {
    && k < |moves| && moves[k].Finish? && y != head
    && var r := Exec(s, head, moves[..k]);
       moves[k].g < |r.grabs| && r.grabs[moves[k].g].at == y && y in r.next
  }

  /** On no list, and not about to be. */
  ghost predicate Unused(r: State, head: Offset, y: Offset) {
    y != head && !OnChain(r.live, r.grabs, y) && !Adding(r.adder, y)
  }

  /** How a finished link looks while it is unused: as it was left, unless it was left while an add was
      late for it and that add has made its store. */
  ghost predicate Aftermath(r: State, head: Offset, y: Offset, late: bool) {
    && Unused(r, head, y) && y in r.next && r.next[y] == y && y in r.prev
    && (LateFor(r.adder, y) ==> late)
    && (r.prev[y] == y <==> !late || LateFor(r.adder, y))
  }

  lemma FinishAftermath(r: State, head: Offset, g: nat)
    requires Whole(r, head) && g < |r.grabs| && r.grabs[g].at != head && r.grabs[g].at in r.next
    ensures Aftermath(Step(r, head, Finish(g)), head, r.grabs[g].at, LateFor(r.adder, r.grabs[g].at))
  {
    var y, t := r.grabs[g].at, Step(r, head, Finish(g));
    FinishOff(r, head, g);
    FinishGone(r, head, g);
  }

  /** A link finished with is on no list. */
  lemma FinishGone(r: State, head: Offset, g: nat)
    requires Invariant(r, head) && g < |r.grabs| && r.grabs[g].at != head && r.grabs[g].at in r.next
    ensures var t := Step(r, head, Finish(g));
      !OnChain(t.live, t.grabs, r.grabs[g].at)
  {
    var y, t := r.grabs[g].at, Step(r, head, Finish(g));
    FinishOff(r, head, g);
    forall h | 0 <= h < |t.grabs|
      ensures y !in t.grabs[h].rest
    {
      assert GrabOk(r.next, head, r.grabs[g]);
      assert h < g ==> Apart(r.grabs[h].rest, r.grabs[g].rest);
      assert h > g ==> Apart(r.grabs[g].rest, r.grabs[h].rest);
    }
  }

  lemma AdderAftermath(r: State, head: Offset, y: Offset, late: bool)
    requires Whole(r, head) && Aftermath(r, head, y, late)
    ensures Aftermath(AdderStep(r, head), head, y, late)
  {
    if r.adder.Swap? && r.next[head] == r.adder.n {
      assert r.adder.n != y by {
        assert r.live != [] ==> r.live[0] in r.live;
      }
      assert AdderStep(r, head).live == [r.adder.link] + r.live;
    }
  }

  lemma StepAftermath(r: State, head: Offset, y: Offset, late: bool, m: Move)
    requires Whole(r, head) && Aftermath(r, head, y, late) && m != Add(y)
    ensures Aftermath(Step(r, head, m), head, y, late)
  {
    match m
    case Add(_) =>
    case Access => AdderAftermath(r, head, y, late);
    case Take => TakeOnChain(r.live, r.grabs, r.next[head], y);
    case Finish(g) =>
      if g < |r.grabs| && r.grabs[g].at != head && r.grabs[g].at in r.next {
        FinishOff(r, head, g);
        FinishOnChain(r.live, r.grabs, g, Step(r, head, m).grabs[g], y);
      }
  }

  lemma {:induction false} FinishedAftermath(s: State, head: Offset, moves: seq<Move>, k: nat, y: Offset)
    requires Initial(s, head) && Finishes(s, head, moves, k, y)
    requires forall i :: k < i < |moves| ==> moves[i] != Add(y)
    ensures Aftermath(Exec(s, head, moves), head, y, LateFor(Exec(s, head, moves[..k]).adder, y))
  {
    var before := moves[..|moves| - 1];
    RunWhole(s, head, before);
    if k == |moves| - 1 {
      FinishAftermath(Exec(s, head, before), head, moves[k].g);
    } else {
      assert before[..k] == moves[..k];
      FinishedAftermath(s, head, before, k, y);
      StepAftermath(Exec(s, head, before), head, y, LateFor(Exec(s, head, moves[..k]).adder, y), moves[|moves| - 1]);
    }
  }

  /** The list was taken at move `i`, since the swap of an add that is to store into `y`. */
  ghost predicate TakenLate(s: State, head: Offset, moves: seq<Move>, i: nat, y: Offset) {
    && i < |moves| && moves[i].Take?
    && forall k :: i <= k <= |moves| ==> LateFor(Exec(s, head, moves[..k]).adder, y)
  }

  lemma TakenLateExtends(s: State, head: Offset, moves: seq<Move>, i: nat, y: Offset)
    requires moves != [] && TakenLate(s, head, moves[..|moves| - 1], i, y) && LateFor(Exec(s, head, moves).adder, y)
    ensures TakenLate(s, head, moves, i, y)
  {
    var before := moves[..|moves| - 1];
    assert moves[..|moves|] == moves;
    forall k | i <= k <= |moves|
      ensures LateFor(Exec(s, head, moves[..k]).adder, y)
    {
      assert k < |moves| ==> moves[..k] == before[..k];
    }
  }

  lemma TakenLateNow(s: State, head: Offset, moves: seq<Move>, y: Offset)
    requires moves != [] && moves[|moves| - 1].Take? && LateFor(Exec(s, head, moves).adder, y)
    ensures TakenLate(s, head, moves, |moves| - 1, y)
  {
    assert moves[..|moves|] == moves;
    forall k | |moves| - 1 <= k <= |moves|
      ensures LateFor(Exec(s, head, moves[..k]).adder, y)
    {
    }
  }

  lemma WasLate(r: State, head: Offset, m: Move, y: Offset)
    requires LateFor(Step(r, head, m).adder, y) && Step(r, head, m).live == [] && !m.Take?
    ensures LateFor(r.adder, y) && r.live == []
  {}

  /** Only a take empties the list of an add that is late. */
  lemma {:induction false} LateEmptied(s: State, head: Offset, moves: seq<Move>, y: Offset)
    requires Initial(s, head) && LateFor(Exec(s, head, moves).adder, y) && Exec(s, head, moves).live == []
    ensures exists i :: TakenLate(s, head, moves, i, y)
  {
    var before := moves[..|moves| - 1];
    if moves[|moves| - 1].Take? {
      TakenLateNow(s, head, moves, y);
    } else {
      WasLate(Exec(s, head, before), head, moves[|moves| - 1], y);
      LateEmptied(s, head, before, y);
      var i :| TakenLate(s, head, before, i, y);
      TakenLateExtends(s, head, moves, i, y);
    }
  }

  /** Exactly when a finished link stays self-linked, for every run: once it is finished with and until it is
      added again, it does, unless the list was taken and the link finished with both between the swap and the
      last store of an add that found it first.  That store then spoils it for good. */
  lemma FinishedExactly(s: State, head: Offset, moves: seq<Move>, k: nat, y: Offset)
    requires Initial(s, head) && Finishes(s, head, moves, k, y)
    requires forall i :: k < i < |moves| ==> moves[i] != Add(y)
    requires !LateFor(Exec(s, head, moves).adder, y)
    ensures SelfLinked(Exec(s, head, moves), y) <==> !exists i :: TakenLate(s, head, moves[..k], i, y)
    ensures !OnChain(Exec(s, head, moves).live, Exec(s, head, moves).grabs, y)
  {
    FinishedAftermath(s, head, moves, k, y);
    var at := moves[..k];
    var q := Exec(s, head, at);
    if LateFor(q.adder, y) {
      RunWhole(s, head, at);
      FinishOff(q, head, moves[k].g);
      assert q.live == [];
      LateEmptied(s, head, at, y);
    } else {
      forall i
        ensures !TakenLate(s, head, at, i, y)
      {
        assert at[..|at|] == at;
      }
    }
  }

  // ---------------------------------------------------------------------------------
  // Two runs at the edge
  // ---------------------------------------------------------------------------------

  lemma Then(s: State, head: Offset, moves: seq<Move>, m: Move)
    ensures Exec(s, head, moves + [m]) == Step(Exec(s, head, moves), head, m)
  {
    assert (moves + [m])[..|moves|] == moves;
  }

  lemma ThenAccess(s: State, head: Offset, moves: seq<Move>)
    ensures Exec(s, head, moves + [Access]) == AdderStep(Exec(s, head, moves), head)
  {
    Then(s, head, moves, Access);
  }

  /** The moves followed by two accesses of the adder. */
  function Twice(moves: seq<Move>): seq<Move> {
    moves + [Access] + [Access]
  }

  lemma ThenTwice(s: State, head: Offset, moves: seq<Move>)
    ensures Exec(s, head, Twice(moves)) == AdderStep(AdderStep(Exec(s, head, moves), head), head)
  {
    ThenAccess(s, head, moves);
    ThenAccess(s, head, moves + [Access]);
  }

  ghost predicate Addable(s: State, head: Offset, x: Offset) {
    s.adder == Idle && head in s.next && x != head && x in s.next && x in s.prev && !OnChain(s.live, s.grabs, x)
  }

  /** An add up to and including its swap, with no traverser in between. */
  ghost function Swapped(s: State, head: Offset, x: Offset): State {
    var loaded := AdderStep(Step(s, head, Add(x)), head);
    AdderStep(AdderStep(AdderStep(loaded, head), head), head)
  }

  lemma SwappedState(s: State, head: Offset, x: Offset)
    requires Addable(s, head, x)
    ensures var t, n := Swapped(s, head, x), s.next[head];
      && t.adder == LoadFirst(n) && t.live == [x] + s.live && t.grabs == s.grabs
      && t.next == s.next[x := n][head := x] && t.prev == s.prev[x := head]
  {
    var n := s.next[head];
    var loaded := AdderStep(Step(s, head, Add(x)), head);
    assert loaded.adder == StoreNext(x, n, s.next[x], s.prev[x]);
    var stored := AdderStep(AdderStep(loaded, head), head);
    assert stored.adder.Swap? && stored.next == s.next[x := n] && stored.prev == s.prev[x := head];
  }

  lemma RunSwap(s: State, head: Offset, moves: seq<Move>, x: Offset)
    ensures Exec(s, head, Twice(Twice(moves + [Add(x)]))) == Swapped(Exec(s, head, moves), head, x)
  {
    Then(s, head, moves, Add(x));
    ThenTwice(s, head, moves + [Add(x)]);
    ThenTwice(s, head, Twice(moves + [Add(x)]));
  }

  lemma LastTwo(t: State, head: Offset)
    requires t.adder.LoadFirst? && head in t.next
    ensures AdderStep(AdderStep(t, head), head) == t.(adder := Idle, prev := t.prev[t.adder.n := t.next[head]])
  {}

  /** The first add to a list, all of it. */
  function FirstAdd(y: Offset): seq<Move> {
    Twice(Twice(Twice([] + [Add(y)])))
  }

  ghost predicate TwoFresh(s: State, head: Offset, y: Offset, x: Offset) {
    && Initial(s, head) && y != head && x != head && x != y
    && y in s.next && y in s.prev && x in s.next && x in s.prev
  }

  ghost predicate OneLive(q: State, head: Offset, y: Offset, x: Offset) {
    && Addable(q, head, x) && q.live == [y] && q.grabs == [] && y != x && y != head
    && q.next[head] == y && y in q.next && q.next[y] == head && y in q.prev
  }

  lemma AfterFirstAdd(s: State, head: Offset, y: Offset, x: Offset)
    requires TwoFresh(s, head, y, x)
    ensures OneLive(Exec(s, head, FirstAdd(y)), head, y, x)
  {
    RunSwap(s, head, [], y);
    SwappedState(s, head, y);
    ThenTwice(s, head, Twice(Twice([] + [Add(y)])));
    LastTwo(Swapped(s, head, y), head);
  }

  /** A second add up to its swap, and the exchange. */
  function SecondAdd(y: Offset, x: Offset): seq<Move> {
    Twice(Twice(FirstAdd(y) + [Add(x)]))
  }

  ghost predicate BothTaken(r: State, head: Offset, y: Offset, x: Offset) {
    && r.live == [] && r.grabs == [Grab(x, [x, y])] && y != x && y != head && x != head
    && head in r.next && r.next[head] == head && x in r.next && r.next[x] == y
    && y in r.next && r.next[y] == head && y in r.prev
  }

  lemma AfterTake(s: State, head: Offset, y: Offset, x: Offset)
    requires TwoFresh(s, head, y, x)
    ensures Exec(s, head, SecondAdd(y, x)).adder == LoadFirst(y)
    ensures var r := Exec(s, head, SecondAdd(y, x) + [Take]);
      r.adder == LoadFirst(y) && BothTaken(r, head, y, x)
  {
    AfterFirstAdd(s, head, y, x);
    var q := Exec(s, head, FirstAdd(y));
    RunSwap(s, head, FirstAdd(y), x);
    SwappedState(q, head, x);
    Then(s, head, SecondAdd(y, x), Take);
    assert [x] + [y] == [x, y];
  }

  /** A traverser that has taken both links finishes with both. */
  lemma FinishBoth(s: State, head: Offset, moves: seq<Move>, y: Offset, x: Offset)
    requires BothTaken(Exec(s, head, moves), head, y, x)
    ensures var r, t := Exec(s, head, moves), Exec(s, head, moves + [Finish(0)] + [Finish(0)]);
      && t.adder == r.adder && t.live == [] && t.grabs == [Grab(head, [])] && head in t.next && t.next[head] == head
      && SelfLinked(t, y)
    ensures Finishes(s, head, moves + [Finish(0)] + [Finish(0)], |moves| + 1, y)
  {
    var one := moves + [Finish(0)];
    Then(s, head, moves, Finish(0));
    Then(s, head, one, Finish(0));
    assert [x, y][1..] == [y] && [y][1..] == [];
    assert (one + [Finish(0)])[..|moves| + 1] == one;
  }

  /** The run in which a finished link does not stay self-linked: taken and finished with between the swap and
      the last store of the add that found it first.  Its backward field ends up at the head of the empty list,
      so that deleting the unused link would put it on that list. */
  lemma SpoiledRun(s: State, head: Offset, y: Offset, x: Offset, moves: seq<Move>)
    requires TwoFresh(s, head, y, x)
    requires moves == Twice(SecondAdd(y, x) + [Take] + [Finish(0)] + [Finish(0)])
    ensures exists k: nat :: Finishes(s, head, moves, k, y) && forall i :: k < i < |moves| ==> moves[i] == Access
    ensures var r := Exec(s, head, moves);
      && r.adder == Idle && r.live == [] && y in r.next && r.next[y] == y && y in r.prev && r.prev[y] == head
      && !SelfLinked(r, y) && r.next[r.prev[y] := r.next[y]][head] == y
  {
    AfterTake(s, head, y, x);
    var taken := SecondAdd(y, x) + [Take];
    var finished := taken + [Finish(0)] + [Finish(0)];
    FinishBoth(s, head, taken, y, x);
    ThenTwice(s, head, finished);
    LastTwo(Exec(s, head, finished), head);
    assert moves[..|taken| + 1] == finished[..|taken| + 1];
    assert Finishes(s, head, moves, |taken| + 1, y);
  }

  /** A take alone between the swap and the last store does no harm: here the traverser finishes after it. */
  lemma HarmlessRun(s: State, head: Offset, y: Offset, x: Offset, moves: seq<Move>)
    requires TwoFresh(s, head, y, x)
    requires moves == Twice(SecondAdd(y, x) + [Take]) + [Finish(0)] + [Finish(0)]
    ensures TakenLate(s, head, moves[..|SecondAdd(y, x)| + 1], |SecondAdd(y, x)|, y)
    ensures SelfLinked(Exec(s, head, moves), y)
  {
    AfterTake(s, head, y, x);
    var taken := SecondAdd(y, x) + [Take];
    assert moves[..|SecondAdd(y, x)| + 1] == taken;
    TakenLateNow(s, head, taken, y);
    ThenTwice(s, head, taken);
    LastTwo(Exec(s, head, taken), head);
    FinishBoth(s, head, Twice(taken), y, x);
  }
}
