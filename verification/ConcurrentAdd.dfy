/** Adding to a list that is being taken concurrently.

    One adder at a time (adders serialise among themselves) runs the accesses of
    `oo_p_dllink_concurrent_add`, while traversers atomically exchange the head's forward
    field for the head itself and then walk, link by link, what they were given.  Every
    access of the adder is a step of its own, so a traverser may come in between any two.

    `live` and the `rest` of every grab are the sequences of links the model says are
    there; the memory is `next` and `prev`.  The invariant ties the two together. */
module ConcurrentAdd {
  import opened DlList
  import opened Sequences

  /** The accesses of `oo_p_dllink_concurrent_add`, in order.  `n` is what was loaded from
      the head, `n0` and `p0` the link's fields on entry. */
  datatype Adder =
    | Idle
    | LoadHead(link: Offset)
    | StoreNext(link: Offset, n: Offset, n0: Offset, p0: Offset)
    | StorePrev(link: Offset, n: Offset, n0: Offset, p0: Offset)
    | Swap(link: Offset, n: Offset, n0: Offset, p0: Offset)
    | RestoreNext(link: Offset, n0: Offset, p0: Offset)
    | RestorePrev(link: Offset, n0: Offset, p0: Offset)
    | LoadFirst(n: Offset)
    | FixPrev(n: Offset, first: Offset)

  /** A traverser: the link it is at, and the links it has still to visit. */
  datatype Grab = Grab(at: Offset, rest: seq<Offset>)

  /** `added` are the links whose add returned true, `failed` those whose add returned
      false and `done` those traversers have finished with, each in order. */
  datatype State = State(next: Links, prev: Links, adder: Adder, entry: Entry,
                         live: seq<Offset>, grabs: seq<Grab>,
                         added: seq<Offset>, failed: seq<Offset>, done: seq<Offset>)

  /** The link and its fields when the latest add was called. */
  datatype Entry = Entry(link: Offset, next: Offset, prev: Offset)

  /** `Add` begins an add, `Access` is the adder's next access, `Take` is the exchange and
      `Finish(g)` is traverser `g` stepping past its link and initialising it. */
  datatype Move = Add(link: Offset) | Access | Take | Finish(g: nat)

  function First(s: seq<Offset>, head: Offset): Offset {
    if s == [] then head else s[0]
  }

  ghost predicate OnChain(live: seq<Offset>, grabs: seq<Grab>, x: Offset) {
    x in live || exists g :: 0 <= g < |grabs| && x in grabs[g].rest
  }

  /** The forward fields lead from each link of `chain` to the one after it, and from the
      last to the head. */
  ghost predicate Leads(next: Links, chain: seq<Offset>, head: Offset, i: nat)
    requires i < |chain|
  {
    chain[i] in next && next[chain[i]] == if i + 1 == |chain| then head else chain[i + 1]
  }

  ghost predicate Forward(next: Links, chain: seq<Offset>, head: Offset) {
    && Distinct(chain) && head !in chain
    && forall i :: 0 <= i < |chain| ==> Leads(next, chain, head, i)
  }

  ghost function AdderStep(s: State, head: Offset): State {
    match s.adder
    case Idle => s
    case LoadHead(x) =>
      if head in s.next && x in s.next && x in s.prev
      then s.(adder := StoreNext(x, s.next[head], s.next[x], s.prev[x])) else s
    case StoreNext(x, n, n0, p0) => s.(next := s.next[x := n], adder := StorePrev(x, n, n0, p0))
    case StorePrev(x, n, n0, p0) => s.(prev := s.prev[x := head], adder := Swap(x, n, n0, p0))
    case Swap(x, n, n0, p0) =>
      if head in s.next && s.next[head] == n
      then s.(next := s.next[head := x], live := [x] + s.live, added := s.added + [x], adder := LoadFirst(n))
      else s.(adder := RestoreNext(x, n0, p0))
    case RestoreNext(x, n0, p0) => s.(next := s.next[x := n0], adder := RestorePrev(x, n0, p0))
    case RestorePrev(x, n0, p0) => s.(prev := s.prev[x := p0], adder := Idle, failed := s.failed + [x])
    case LoadFirst(n) => if head in s.next then s.(adder := FixPrev(n, s.next[head])) else s
    case FixPrev(n, first) => s.(prev := s.prev[n := first], adder := Idle)
  }

  /** One step of the interleaving; a move that does not apply changes nothing.  A caller
      adds a link that is on no list. */
  ghost function Step(s: State, head: Offset, m: Move): State {
    match m
    case Add(x) =>
      if s.adder.Idle? && x != head && x in s.next && x in s.prev && !OnChain(s.live, s.grabs, x)
      then s.(adder := LoadHead(x), entry := Entry(x, s.next[x], s.prev[x])) else s
    case Access => AdderStep(s, head)
    case Take =>
      if head in s.next
      then s.(next := s.next[head := head], live := [], grabs := s.grabs + [Grab(s.next[head], s.live)]) else s
    case Finish(g) =>
      if g < |s.grabs| && s.grabs[g].at != head && s.grabs[g].at in s.next then
        var x, rest := s.grabs[g].at, s.grabs[g].rest;
        s.(next := s.next[x := x], prev := s.prev[x := x], done := s.done + [x],
           grabs := s.grabs[g := Grab(s.next[x], if rest == [] then [] else rest[1..])])
      else s
  }

  ghost function Exec(s: State, head: Offset, moves: seq<Move>): State {
    if moves == [] then s else Step(Exec(s, head, moves[..|moves| - 1]), head, moves[|moves| - 1])
  }

  /** All the links traversers have still to visit. */
  ghost function Pending(grabs: seq<Grab>): multiset<Offset> {
    if grabs == [] then multiset{} else Pending(grabs[..|grabs| - 1]) + multiset(grabs[|grabs| - 1].rest)
  }

  lemma AddBoth(a: multiset<Offset>, b: multiset<Offset>, c: multiset<Offset>, d: multiset<Offset>, l: multiset<Offset>)
    requires a + b == c + d
    ensures a + l + b == c + l + d
  {
    assert a + l + b == a + b + l;
    assert c + l + d == c + d + l;
  }

  lemma {:induction false} PendingUpdate(grabs: seq<Grab>, g: nat, to: Grab)
    requires g < |grabs|
    ensures Pending(grabs[g := to]) + multiset(grabs[g].rest) == Pending(grabs) + multiset(to.rest)
  {
    var last := |grabs| - 1;
    if g == last {
      assert grabs[g := to][..last] == grabs[..last];
    } else {
      PendingUpdate(grabs[..last], g, to);
      assert grabs[g := to][..last] == grabs[..last][g := to];
      assert grabs[g := to][last] == grabs[last] && grabs[..last][g] == grabs[g];
      AddBoth(Pending(grabs[..last][g := to]), multiset(grabs[g].rest), Pending(grabs[..last]), multiset(to.rest),
              multiset(grabs[last].rest));
    }
  }

  ghost predicate GrabOk(next: Links, head: Offset, g: Grab) {
    Forward(next, g.rest, head) && g.at == First(g.rest, head)
  }

  ghost predicate Apart(a: seq<Offset>, b: seq<Offset>) {
    forall x :: x in a ==> x !in b
  }

  /** The chains in memory are the sequences of the model, and no link is on two. */
  ghost predicate Chains(next: Links, head: Offset, live: seq<Offset>, grabs: seq<Grab>) {
    && head in next && next[head] == First(live, head) && Forward(next, live, head)
    && (forall g :: 0 <= g < |grabs| ==> GrabOk(next, head, grabs[g]))
    && (forall g :: 0 <= g < |grabs| ==> Apart(live, grabs[g].rest))
    && (forall g, h :: 0 <= g < h < |grabs| ==> Apart(grabs[g].rest, grabs[h].rest))
  }

  /** The link being added is not yet visible to anyone else. */
  ghost predicate Private(s: State, head: Offset, x: Offset) {
    x == s.entry.link && x != head && x in s.next && x in s.prev && !OnChain(s.live, s.grabs, x)
  }

  ghost predicate AdderOk(s: State, head: Offset) {
    match s.adder
    case Idle => true
    case LoadHead(x) => Private(s, head, x) && s.entry == Entry(x, s.next[x], s.prev[x])
    case StoreNext(x, _, n0, p0) => Private(s, head, x) && s.entry == Entry(x, n0, p0)
    case StorePrev(x, n, n0, p0) => Private(s, head, x) && s.entry == Entry(x, n0, p0) && s.next[x] == n
    case Swap(x, n, n0, p0) => Private(s, head, x) && s.entry == Entry(x, n0, p0) && s.next[x] == n
    case RestoreNext(x, n0, p0) => Private(s, head, x) && s.entry == Entry(x, n0, p0)
    case RestorePrev(x, n0, p0) => Private(s, head, x) && s.entry == Entry(x, n0, p0) && s.next[x] == n0
    case LoadFirst(_) => true
    case FixPrev(_, _) => true
  }

  ghost predicate Conserved(s: State) {
    multiset(s.added) == multiset(s.live) + Pending(s.grabs) + multiset(s.done)
  }

  ghost predicate Invariant(s: State, head: Offset) {
    Chains(s.next, head, s.live, s.grabs) && AdderOk(s, head) && Conserved(s)
  }

  lemma ForwardFrame(n0: Links, n1: Links, chain: seq<Offset>, head: Offset)
    requires Forward(n0, chain, head)
    requires forall x :: x in chain && x in n0 ==> x in n1 && n1[x] == n0[x]
    ensures Forward(n1, chain, head)
  {
    forall i | 0 <= i < |chain|
      ensures Leads(n1, chain, head, i)
    {
      assert Leads(n0, chain, head, i);
    }
  }

  /** Storing into the forward field of a link that is on no chain keeps all chains. */
  lemma StoreOffChain(next: Links, head: Offset, live: seq<Offset>, grabs: seq<Grab>, x: Offset, to: Offset)
    requires Chains(next, head, live, grabs) && x != head && !OnChain(live, grabs, x)
    ensures Chains(next[x := to], head, live, grabs)
  {
    ForwardFrame(next, next[x := to], live, head);
    forall g | 0 <= g < |grabs|
      ensures GrabOk(next[x := to], head, grabs[g])
    {
      ForwardFrame(next, next[x := to], grabs[g].rest, head);
    }
  }

  /** The successful compare-and-swap. */
  lemma SwapChains(next: Links, head: Offset, live: seq<Offset>, grabs: seq<Grab>, x: Offset)
    requires Chains(next, head, live, grabs) && x != head && x in next && !OnChain(live, grabs, x)
    requires next[x] == next[head]
    ensures Chains(next[head := x], head, [x] + live, grabs)
  {
    var n1, more := next[head := x], [x] + live;
    forall i | 0 <= i < |more|
      ensures Leads(n1, more, head, i)
    {
      if i > 0 {
        assert Leads(next, live, head, i - 1);
      }
    }
    forall g | 0 <= g < |grabs|
      ensures GrabOk(n1, head, grabs[g]) && Apart(more, grabs[g].rest)
    {
      ForwardFrame(next, n1, grabs[g].rest, head);
    }
  }

  /** The exchange. */
  lemma TakeChains(next: Links, head: Offset, live: seq<Offset>, grabs: seq<Grab>)
    requires Chains(next, head, live, grabs)
    ensures Chains(next[head := head], head, [], grabs + [Grab(next[head], live)])
  {
    var more := grabs + [Grab(next[head], live)];
    forall g | 0 <= g < |more|
      ensures GrabOk(next[head := head], head, more[g])
    {
      assert g < |grabs| ==> more[g] == grabs[g] && GrabOk(next, head, grabs[g]);
      ForwardFrame(next, next[head := head], more[g].rest, head);
    }
    forall g, h | 0 <= g < h < |more|
      ensures Apart(more[g].rest, more[h].rest)
    {
      assert h == |grabs| ==> Apart(live, grabs[g].rest);
      assert h < |grabs| ==> Apart(grabs[g].rest, grabs[h].rest);
    }
  }

  lemma FinishChains(next: Links, head: Offset, live: seq<Offset>, grabs: seq<Grab>, g: nat)
    requires Chains(next, head, live, grabs) && g < |grabs| && grabs[g].rest != []
    ensures var x := grabs[g].at;
      && x == grabs[g].rest[0] && x in next && x != head
      && Chains(next[x := x], head, live, grabs[g := Grab(next[x], grabs[g].rest[1..])])
  {
    var x, rest := grabs[g].at, grabs[g].rest;
    assert GrabOk(next, head, grabs[g]);
    assert Leads(next, rest, head, 0);
    assert rest[0] in rest;
    var n1, tail := next[x := x], rest[1..];
    var less := grabs[g := Grab(next[x], tail)];
    FinishOne(next, head, rest);
    ForwardFrame(next, n1, live, head);
    forall h | 0 <= h < |less|
      ensures GrabOk(n1, head, less[h]) && Apart(live, less[h].rest)
    {
      assert GrabOk(next, head, grabs[h]) && Apart(live, grabs[h].rest);
      if h != g {
        assert h < g ==> Apart(grabs[h].rest, rest);
        assert h > g ==> Apart(rest, grabs[h].rest);
        ForwardFrame(next, n1, grabs[h].rest, head);
      }
    }
    forall h, k | 0 <= h < k < |less|
      ensures Apart(less[h].rest, less[k].rest)
    {
      assert Apart(grabs[h].rest, grabs[k].rest);
    }
  }

  lemma FinishOne(next: Links, head: Offset, rest: seq<Offset>)
    requires Forward(next, rest, head) && rest != []
    ensures rest[0] in next && next[rest[0]] == First(rest[1..], head)
    ensures Forward(next[rest[0] := rest[0]], rest[1..], head) && Apart(rest[1..], [rest[0]])
    ensures forall y :: y in rest[1..] ==> y in rest
  {
    var x, tail := rest[0], rest[1..];
    var n1 := next[x := x];
    assert Leads(next, rest, head, 0);
    assert forall i :: 0 <= i < |tail| ==> tail[i] == rest[i + 1];
    forall i | 0 <= i < |tail|
      ensures Leads(n1, tail, head, i)
    {
      assert Leads(next, rest, head, i + 1);
    }
  }

  lemma AccessInvariant(s: State, head: Offset)
    requires Invariant(s, head)
    ensures Invariant(AdderStep(s, head), head)
  {
    match s.adder
    case StoreNext(x, n, n0, p0) => StoreOffChain(s.next, head, s.live, s.grabs, x, n);
    case RestoreNext(x, n0, p0) => StoreOffChain(s.next, head, s.live, s.grabs, x, n0);
    case Swap(x, n, n0, p0) =>
      if s.next[head] == n {
        SwapChains(s.next, head, s.live, s.grabs, x);
      }
    case _ =>
  }

  lemma TakeOnChain(live: seq<Offset>, grabs: seq<Grab>, at: Offset, x: Offset)
    ensures OnChain([], grabs + [Grab(at, live)], x) ==> OnChain(live, grabs, x)
  {
    var more := grabs + [Grab(at, live)];
    if OnChain([], more, x) {
      var g :| 0 <= g < |more| && x in more[g].rest;
      assert g < |grabs| ==> more[g] == grabs[g];
    }
  }

  lemma TakeConserved(s: State, at: Offset)
    requires Conserved(s)
    ensures Conserved(s.(live := [], grabs := s.grabs + [Grab(at, s.live)]))
  {
    assert (s.grabs + [Grab(at, s.live)])[..|s.grabs|] == s.grabs;
    var l, p, d := multiset(s.live), Pending(s.grabs), multiset(s.done);
    assert l + p + d == multiset{} + (p + l) + d;
  }

  lemma TakeInvariant(s: State, head: Offset)
    requires Invariant(s, head)
    ensures Invariant(Step(s, head, Take), head)
  {
    TakeChains(s.next, head, s.live, s.grabs);
    TakeConserved(s, s.next[head]);
    TakeOnChain(s.live, s.grabs, s.next[head], s.entry.link);
  }

  lemma FinishOnChain(live: seq<Offset>, grabs: seq<Grab>, g: nat, to: Grab, y: Offset)
    requires g < |grabs| && grabs[g].rest != [] && to.rest == grabs[g].rest[1..]
    ensures OnChain(live, grabs[g := to], y) ==> OnChain(live, grabs, y)
    ensures OnChain(live, grabs, grabs[g].rest[0])
  {
    if y !in live && OnChain(live, grabs[g := to], y) {
      var h :| 0 <= h < |grabs| && y in grabs[g := to][h].rest;
      assert y in grabs[h].rest;
    }
  }

  lemma FinishConserved(s: State, g: nat, to: Grab)
    requires Conserved(s) && g < |s.grabs| && s.grabs[g].rest != [] && to.rest == s.grabs[g].rest[1..]
    ensures Conserved(s.(grabs := s.grabs[g := to], done := s.done + [s.grabs[g].rest[0]]))
  {
    var rest := s.grabs[g].rest;
    assert rest == [rest[0]] + rest[1..];
    PendingUpdate(s.grabs, g, to);
    MoveOut(Pending(s.grabs), Pending(s.grabs[g := to]), multiset(rest), multiset(to.rest), rest[0],
            multiset(s.live), multiset(s.done));
  }

  /** Moving one element from a part of a sum to another part. */
  lemma MoveOut(p: multiset<Offset>, q: multiset<Offset>, r: multiset<Offset>, t: multiset<Offset>, e: Offset,
                l: multiset<Offset>, d: multiset<Offset>)
    requires q + r == p + t && r == multiset{e} + t
    ensures l + p + d == l + q + (d + multiset{e})
  {
    forall x: Offset
      ensures (l + p + d)[x] == (l + q + (d + multiset{e}))[x]
    {
      assert (q + r)[x] == (p + t)[x];
    }
  }

  lemma FinishInvariant(s: State, head: Offset, g: nat)
    requires Invariant(s, head)
    ensures Invariant(Step(s, head, Finish(g)), head)
  {
    if g < |s.grabs| && s.grabs[g].at != head && s.grabs[g].at in s.next {
      assert GrabOk(s.next, head, s.grabs[g]);
      FinishChains(s.next, head, s.live, s.grabs, g);
      var to := Grab(s.next[s.grabs[g].at], s.grabs[g].rest[1..]);
      FinishConserved(s, g, to);
      FinishOnChain(s.live, s.grabs, g, to, s.entry.link);
    }
  }

  lemma StepInvariant(s: State, head: Offset, m: Move)
    requires Invariant(s, head)
    ensures Invariant(Step(s, head, m), head)
  {
    match m
    case Add(x) =>
    case Access => AccessInvariant(s, head);
    case Take => TakeInvariant(s, head);
    case Finish(g) => FinishInvariant(s, head, g);
  }

  /** An initialised list with no add or traversal under way. */
  ghost predicate Initial(s: State, head: Offset) {
    && s.adder == Idle && s.live == [] && s.grabs == [] && s.added == [] && s.failed == [] && s.done == []
    && head in s.next && s.next[head] == head
  }

  lemma {:induction false} RunInvariant(s: State, head: Offset, moves: seq<Move>)
    requires Initial(s, head)
    ensures Invariant(Exec(s, head, moves), head)
  {
    if moves != [] {
      RunInvariant(s, head, moves[..|moves| - 1]);
      StepInvariant(Exec(s, head, moves[..|moves| - 1]), head, moves[|moves| - 1]);
    }
  }

  /** Every link whose add succeeded is accounted for, exactly once for each time it was
      added: it is on the live list, on a list some traverser took, or finished with.  The
      live list is what memory holds forward of the head, and what a traverser has still
      to visit is what memory holds forward of where it is. */
  lemma AddedIsReachable(s: State, head: Offset, moves: seq<Move>)
    requires Initial(s, head)
    ensures var r := Exec(s, head, moves);
      && multiset(r.added) == multiset(r.live) + Pending(r.grabs) + multiset(r.done)
      && head in r.next && r.next[head] == First(r.live, head) && Forward(r.next, r.live, head)
      && forall g :: 0 <= g < |r.grabs| ==>
           r.grabs[g].at == First(r.grabs[g].rest, head) && Forward(r.next, r.grabs[g].rest, head)
  {
    RunInvariant(s, head, moves);
    var r := Exec(s, head, moves);
    assert forall g :: 0 <= g < |r.grabs| ==> GrabOk(r.next, head, r.grabs[g]);
  }

  /** The access that makes an add return false leaves the link with the fields it had when
      the add was called, on no list, and memory otherwise as it was before the access. */
  lemma FailureRestores(s: State, head: Offset, moves: seq<Move>, r: State, t: State)
    requires Initial(s, head) && r == Exec(s, head, moves) && t == AdderStep(r, head)
    requires |t.failed| > |r.failed|
    ensures t.failed == r.failed + [r.entry.link]
    ensures r.entry.link in t.next && t.next[r.entry.link] == r.entry.next
    ensures r.entry.link in t.prev && t.prev[r.entry.link] == r.entry.prev
    ensures !OnChain(t.live, t.grabs, r.entry.link)
    ensures t.next == r.next && t.prev == r.prev[r.entry.link := r.entry.prev]
  {
    RunInvariant(s, head, moves);
  }

  /** Up to the compare-and-swap, and whenever it fails, the adder stores to nothing but
      the link's own fields; the list is not modified. */
  lemma AdderFrame(s: State, head: Offset, moves: seq<Move>, r: State, t: State)
    requires Initial(s, head) && r == Exec(s, head, moves) && t == AdderStep(r, head)
    requires |t.added| == |r.added| && !r.adder.FixPrev?
    ensures t.live == r.live && t.grabs == r.grabs
    ensures t.next - {r.entry.link} == r.next - {r.entry.link}
    ensures t.prev - {r.entry.link} == r.prev - {r.entry.link}
  {
    RunInvariant(s, head, moves);
    match r.adder
    case StoreNext(x, _, _, _) => assert x == r.entry.link;
    case StorePrev(x, _, _, _) => assert x == r.entry.link;
    case RestoreNext(x, _, _) => assert x == r.entry.link;
    case RestorePrev(x, _, _) => assert x == r.entry.link;
    case _ =>
  }

  /** Between the load of the head and the compare-and-swap. */
  predicate Armed(a: Adder) {
    a.StoreNext? || a.StorePrev? || a.Swap?
  }

  /** The list was taken at move `i`, since the present add loaded the head. */
  ghost predicate TakenSince(s: State, head: Offset, moves: seq<Move>, i: nat) {
    && i < |moves| && moves[i].Take?
    && forall k :: i <= k <= |moves| ==> Armed(Exec(s, head, moves[..k]).adder)
  }

  lemma TakenExtends(s: State, head: Offset, moves: seq<Move>, i: nat)
    requires moves != [] && TakenSince(s, head, moves[..|moves| - 1], i) && Armed(Exec(s, head, moves).adder)
    ensures TakenSince(s, head, moves, i)
  {
    var before := moves[..|moves| - 1];
    assert moves[..|moves|] == moves;
    forall k | i <= k <= |moves|
      ensures Armed(Exec(s, head, moves[..k]).adder)
    {
      assert k < |moves| ==> moves[..k] == before[..k];
    }
  }

  lemma TakenNow(s: State, head: Offset, moves: seq<Move>)
    requires moves != [] && moves[|moves| - 1].Take? && Armed(Exec(s, head, moves).adder)
    ensures TakenSince(s, head, moves, |moves| - 1)
  {
    assert moves[..|moves|] == moves;
    forall k | |moves| - 1 <= k <= |moves|
      ensures Armed(Exec(s, head, moves[..k]).adder)
    {
    }
  }

  ghost predicate HeadAsLoaded(r: State, head: Offset) {
    Armed(r.adder) && head in r.next && r.next[head] == r.adder.n
  }

  lemma {:induction false} ArmedExpects(s: State, head: Offset, moves: seq<Move>)
    requires Initial(s, head) && Armed(Exec(s, head, moves).adder)
    ensures HeadAsLoaded(Exec(s, head, moves), head) || exists i :: TakenSince(s, head, moves, i)
  {
    var before := moves[..|moves| - 1];
    var m := moves[|moves| - 1];
    var r := Exec(s, head, before);
    RunInvariant(s, head, before);
    if m.Take? {
      TakenNow(s, head, moves);
    } else if Armed(r.adder) {
      ArmedExpects(s, head, before);
      if i :| TakenSince(s, head, before, i) {
        TakenExtends(s, head, moves, i);
      } else {
        HeadKept(r, head, m);
      }
    } else {
      JustArmed(r, head, m);
    }
  }

  lemma JustArmed(r: State, head: Offset, m: Move)
    requires Invariant(r, head) && !Armed(r.adder) && Armed(Step(r, head, m).adder)
    ensures HeadAsLoaded(Step(r, head, m), head)
  {
  }

  lemma HeadKept(r: State, head: Offset, m: Move)
    requires Invariant(r, head) && HeadAsLoaded(r, head) && Armed(Step(r, head, m).adder) && !m.Take?
    ensures HeadAsLoaded(Step(r, head, m), head)
  {
  }

  /** An add fails only because the list was taken between its two looks at the head. */
  lemma FailsOnlyIfTaken(s: State, head: Offset, moves: seq<Move>)
    requires Initial(s, head)
    requires Exec(s, head, moves).adder.Swap? && AdderStep(Exec(s, head, moves), head).adder.RestoreNext?
    ensures exists i :: TakenSince(s, head, moves, i)
  {
    ArmedExpects(s, head, moves);
  }

  /** A whole add with no traverser in between. */
  ghost function Undisturbed(s: State, head: Offset, x: Offset): State {
    var loaded := AdderStep(Step(s, head, Add(x)), head);
    var stored := AdderStep(AdderStep(loaded, head), head);
    AdderStep(AdderStep(AdderStep(stored, head), head), head)
  }

  lemma UndisturbedState(s: State, head: Offset, x: Offset)
    requires s.adder == Idle && head in s.next
    requires x != head && x in s.next && x in s.prev && !OnChain(s.live, s.grabs, x)
    ensures var t, n := Undisturbed(s, head, x), s.next[head];
      && t.adder == Idle && t.added == s.added + [x] && t.live == [x] + s.live && t.grabs == s.grabs
      && t.next == s.next[x := n][head := x] && t.prev == s.prev[x := head][n := x]
  {
    var n := s.next[head];
    var loaded := AdderStep(Step(s, head, Add(x)), head);
    assert loaded.adder == StoreNext(x, n, s.next[x], s.prev[x]);
    var stored := AdderStep(AdderStep(loaded, head), head);
    assert stored.adder.Swap? && stored.next == s.next[x := n] && stored.prev == s.prev[x := head];
    var swapped := AdderStep(stored, head);
    assert swapped.adder == LoadFirst(n) && swapped.next[head] == x;
  }

  /** It does what the plain add does, to the backward fields too. */
  lemma UndisturbedIsAdd(s: State, head: Offset, x: Offset)
    requires Linked(s.next, s.prev, [head] + s.live) && s.adder == Idle
    requires x != head && x in s.next && x in s.prev && !OnChain(s.live, s.grabs, x)
    ensures var t := Undisturbed(s, head, x);
      && t.adder == Idle && t.added == s.added + [x] && t.live == [x] + s.live && t.grabs == s.grabs
      && Linked(t.next, t.prev, [head] + t.live)
  {
    Ends(s.next, s.prev, head, s.live);
    UndisturbedState(s, head, x);
    PrependLinked(s.next, s.prev, head, s.live, x);
  }

  lemma PrependLinked(next: Links, prev: Links, head: Offset, items: seq<Offset>, x: Offset)
    requires Linked(next, prev, [head] + items) && x != head && x !in items && head in next
    ensures Linked(next[x := next[head]][head := x], prev[x := head][next[head] := x], [head] + ([x] + items))
  {
    var ring := [head] + items;
    Ends(next, prev, head, items);
    assert next[x := next[head]][head := x] == next[head := x][x := next[head]];
    Splice(next, prev, ring, 1, [x]);
    assert Inserted(ring, 1, [x]) == [head] + ([x] + items);
  }
}
