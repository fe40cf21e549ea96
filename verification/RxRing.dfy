/** The receive path of the EF_VI client: a pool of packet buffers, a free list threaded
    through them, and the NIC's descriptor ring.

    A buffer is always in exactly one of three places: on the free list, on the ring, or
    named by an event of the batch being handled.  The ring's counters are 32-bit and
    wrap. */
module RxRing {

  import opened Binary
  import opened Sequences

  const REFILL_BATCH_SIZE: nat := 16
  const EV_POLL_BATCH_SIZE: nat := 16
  const U32: nat := 0x1_0000_0000
  const NULL: int := -1

  /** `ef_vi_receive_fill_level`: an unsigned 32-bit difference read as an `int`. */
  function FillLevel(added: nat, removed: nat): int {
    var d := (added - removed) % U32;
    if d < U32 / 2 then d else d - U32
  }

  /** The count of submitted descriptors after `ef_vi_receive_push`, which submits new
      descriptors in multiples of eight. */
  function Pushed(posted: nat, added: nat): nat {
    (posted + (added - posted) % U32 / 8 * 8) % U32
  }

  datatype Event = Rx(id: nat, bytes: int) | RxDiscard(id: nat, bytes: int, kind: int) | Other(kind: int)

  /** The buffers a batch of events gives back, in order. */
  function Returned(evs: seq<Event>): seq<nat> {
    if evs == [] then [] else
    (if evs[0].Other? then [] else [evs[0].id]) + Returned(evs[1..])
  }

  ghost predicate ThreadAt(next: seq<int>, free: seq<nat>, i: nat)
    requires i < |free|
  {
    free[i] < |next| && next[free[i]] == if i + 1 == |free| then NULL else free[i + 1]
  }

  /** `next` threads `free` from `head` to the null pointer. */
  ghost predicate Threaded(next: seq<int>, head: int, free: seq<nat>) {
    && head == (if free == [] then NULL else free[0])
    && forall i :: 0 <= i < |free| ==> ThreadAt(next, free, i)
  }

  /** Buffer `i` is in exactly one place, if there is such a buffer. */
  ghost predicate Placed(n: nat, free: seq<nat>, ring: set<nat>, pending: seq<nat>, i: nat) {
    && (i in free || i in ring || i in pending <==> i < n)
    && !(i in free && i in ring) && !(i in free && i in pending) && !(i in ring && i in pending)
  }

  /** Every buffer is in exactly one place, once. */
  ghost predicate Partition(n: nat, free: seq<nat>, ring: set<nat>, pending: seq<nat>) {
    && Distinct(free) && Distinct(pending)
    && |free| + |ring| + |pending| == n
    && forall i: nat :: Placed(n, free, ring, pending, i)
  }

  // ---------------------------------------------------------------------------------
  // How far a refill goes
  // ---------------------------------------------------------------------------------

  /** The level after the do-while loop of `refill_rx_ring`, from `fill` on the ring out of
      `n` buffers with at least a batch free. */
  function FillUp(n: nat, fill: nat): (r: nat)
    requires fill + REFILL_BATCH_SIZE <= n
    ensures fill < r <= n
    decreases n - fill
  {
    var f := fill + REFILL_BATCH_SIZE;
    if f < n / 2 && n - f >= REFILL_BATCH_SIZE then FillUp(n, f) else f
  }

  /** It is reached in whole batches, and is short of half of the buffers only when less
      than a batch is left. */
  lemma {:induction false} FillUpReaches(n: nat, fill: nat)
    requires fill + REFILL_BATCH_SIZE <= n
    ensures (FillUp(n, fill) - fill) % REFILL_BATCH_SIZE == 0
    ensures FillUp(n, fill) >= n / 2 || n - FillUp(n, fill) < REFILL_BATCH_SIZE
    decreases n - fill
  {
    var f := fill + REFILL_BATCH_SIZE;
    if f < n / 2 && n - f >= REFILL_BATCH_SIZE {
      FillUpReaches(n, f);
    }
  }

  /** And it goes no further: at every level on the way the ring was short of half and a batch was left.  So a
      refill posts one batch, or stops within a batch above half. */
  lemma {:induction false} FillUpStops(n: nat, fill: nat, level: nat)
    requires fill + 16 <= n && fill < level < FillUp(n, fill) && (level - fill) % 16 == 0
    ensures level < n / 2 && n - level >= 16
    decreases n - fill
  {
    if level > fill + REFILL_BATCH_SIZE {
      FillUpStops(n, fill + REFILL_BATCH_SIZE, level);
    }
  }

  lemma FillUpBounded(n: nat, fill: nat)
    requires fill + 16 <= n
    ensures FillUp(n, fill) == fill + 16 || FillUp(n, fill) - 16 < n / 2
  {
    FillUpReaches(n, fill);
    if FillUp(n, fill) != fill + 16 {
      FillUpStops(n, fill, FillUp(n, fill) - 16);
    }
  }

  /** The level after a call of `refill_rx_ring` with no event outstanding. */
  function Refilled(n: nat, fill: nat): (r: nat)
    requires fill <= n
    ensures fill <= r <= n
  {
    if fill > n - REFILL_BATCH_SIZE then fill else FillUp(n, fill)
  }

  /** A refill posts something exactly when a batch is free. */
  lemma RefillsExactly(n: nat, fill: nat)
    requires fill <= n
    ensures Refilled(n, fill) > fill <==> n - fill >= 16
    ensures (Refilled(n, fill) - fill) % 16 == 0
  {
    if fill + REFILL_BATCH_SIZE <= n {
      FillUpReaches(n, fill);
    }
  }

  lemma RefilledIsHalf(n: nat, fill: nat)
    requires fill <= n && n >= 29
    ensures Refilled(n, fill) >= n / 2
  {
    if fill <= n - REFILL_BATCH_SIZE {
      FillUpReaches(n, fill);
    }
  }

  /** The level when initialisation ends. */
  function InitialFill(n: nat): nat {
    if n < REFILL_BATCH_SIZE then 0 else n - n % REFILL_BATCH_SIZE
  }

  /** The levels of the ring before each refill of a run of the event loop: it starts where
      initialisation ends, and each poll takes at most a batch from what the refill left. */
  ghost predicate IsRun(n: nat, fills: seq<nat>) {
    && fills != [] && fills[0] == InitialFill(n)
    && (forall i :: 0 <= i < |fills| ==> fills[i] <= n)
    && forall i :: 0 <= i < |fills| - 1 ==> Polled(n, fills[i], fills[i + 1])
  }

  predicate Polled(n: nat, fill: nat, left: nat)
    requires fill <= n
  {
    left <= Refilled(n, fill) <= left + EV_POLL_BATCH_SIZE
  }

  /** The ring is at least half full before every poll of every run. */
  ghost predicate AlwaysHalfFull(n: nat) {
    forall fills :: IsRun(n, fills) ==> forall i :: 0 <= i < |fills| ==> Refilled(n, fills[i]) >= n / 2
  }

  /** It is, exactly when there are at least 29 buffers, or too few to matter: with 16 to 28
      the refill threshold is below the half. */
  lemma HalfFullExactly(n: nat)
    ensures AlwaysHalfFull(n) <==> n <= 1 || n >= 29
  {
    if n >= 29 {
      forall fill: nat | fill <= n
        ensures Refilled(n, fill) >= n / 2
      {
        RefilledIsHalf(n, fill);
      }
    } else if n >= 16 {
      var fills := [16, n - 15];
      assert InitialFill(n) == 16 && Refilled(n, 16) == 16;
      assert Polled(n, fills[0], fills[1]);
      assert IsRun(n, fills);
      assert Refilled(n, fills[1]) < n / 2;
    } else if n >= 2 {
      assert IsRun(n, [0]);
      assert Refilled(n, [0][0]) < n / 2;
    }
  }

  /** Every ring has a capacity of `2^k - 1`.  From `k = 5` on initialisation leaves no
      buffer free, and of these only the smallest ring, with 16 buffers, is not kept half
      full. */
  lemma RingSizes(k: nat)
    requires k >= 5
    ensures var n := Pow2(k) - 1 - 15;
      n >= 16 && InitialFill(n) == n && (AlwaysHalfFull(n) <==> k >= 6)
  {
    Pow2Sizes(k);
    HalfFullExactly(Pow2(k) - 16);
  }

  lemma {:induction false} Pow2Sizes(k: nat)
    requires k >= 5
    ensures Pow2(k) >= 32 && Pow2(k) % 16 == 0 && (k == 5 ==> Pow2(k) == 32) && (k >= 6 ==> Pow2(k) >= 64)
  {
    if k == 5 {
      assert Pow2(5) == 2 * Pow2(4) && Pow2(4) == 2 * Pow2(3) && Pow2(3) == 2 * Pow2(2);
    } else {
      Pow2Sizes(k - 1);
    }
  }

  // ---------------------------------------------------------------------------------
  // The code
  // ---------------------------------------------------------------------------------

  /** `base` with the elements of `ids` pushed on it one after the other. */
  function Stacked(ids: seq<nat>, base: seq<nat>): (r: seq<nat>)
    ensures |r| == |ids| + |base|
  {
    if ids == [] then base else Stacked(ids[1..], [ids[0]] + base)
  }

  lemma StackedNext(ev: Event, rest: seq<nat>, base: seq<nat>)
    ensures var ids := if ev.Other? then [] else [ev.id];
      Stacked(ids + rest, base) == Stacked(rest, ids + base)
  {
    if ev.Other? {
      assert [] + rest == rest && [] + base == base;
    } else {
      assert ([ev.id] + rest)[1..] == rest;
    }
  }

  lemma ReturnedRest(evs: seq<Event>, i: nat)
    requires i < |evs|
    ensures Returned(evs[i..]) == (if evs[i].Other? then [] else [evs[i].id]) + Returned(evs[i + 1..])
  {
    assert evs[i..][1..] == evs[i + 1..];
  }

  lemma {:induction false} ReturnedSize(evs: seq<Event>)
    ensures |Returned(evs)| <= |evs|
  {
    if evs != [] {
      ReturnedSize(evs[1..]);
    }
  }

  /** Popping the first free buffer. */
  lemma PopPartition(n: nat, free: seq<nat>, ring: set<nat>, pending: seq<nat>)
    requires Partition(n, free, ring, pending) && free != []
    ensures Partition(n, free[1..], ring + {free[0]}, pending) && free[0] !in ring
  {
    DistinctTail(free);
    var rest, ring' := free[1..], ring + {free[0]};
    assert Placed(n, free, ring, pending, free[0]);
    forall i: nat
      ensures Placed(n, rest, ring', pending, i)
    {
      assert Placed(n, free, ring, pending, i);
    }
  }

  lemma PopThreaded(next: seq<int>, head: int, free: seq<nat>)
    requires Threaded(next, head, free) && free != []
    ensures head == free[0] && 0 <= head < |next| && Threaded(next, next[head], free[1..])
  {
    var rest := free[1..];
    assert ThreadAt(next, free, 0);
    forall i | 0 <= i < |rest|
      ensures ThreadAt(next, rest, i)
    {
      assert ThreadAt(next, free, i + 1);
    }
  }

  lemma PushPartition(n: nat, free: seq<nat>, ring: set<nat>, id: nat, rest: seq<nat>)
    requires Partition(n, free, ring, [id] + rest)
    ensures Partition(n, [id] + free, ring, rest) && id !in free && id < n
  {
    var pending, more := [id] + rest, [id] + free;
    assert pending[1..] == rest;
    DistinctTail(pending);
    assert Placed(n, free, ring, pending, id);
    DistinctPrepend(id, free);
    forall i: nat
      ensures Placed(n, more, ring, rest, i)
    {
      assert Placed(n, free, ring, pending, i);
    }
  }

  lemma PushThreaded(next: seq<int>, head: int, free: seq<nat>, id: nat)
    requires Threaded(next, head, free) && id < |next| && id !in free
    ensures Threaded(next[id := head], id, [id] + free)
  {
    var more, next' := [id] + free, next[id := head];
    forall i | 0 <= i < |more|
      ensures ThreadAt(next', more, i)
    {
      if i > 0 {
        assert ThreadAt(next, free, i - 1);
        assert free[i - 1] in free;
      }
    }
  }

  function From(i: nat, n: nat): seq<nat>
    requires i <= n
  {
    seq(n - i, k requires 0 <= k < n - i => i + k)
  }

  lemma AllPending(n: nat)
    ensures Partition(n, [], {}, From(0, n))
  {
    var all := From(0, n);
    assert forall i :: 0 <= i < n ==> all[i] == i;
    forall i: nat
      ensures Placed(n, [], {}, all, i)
    {
      assert i < n ==> all[i] in all;
    }
  }

  /** What the NIC may report in one poll: default flags give one event per descriptor. */
  predicate LegalBatch(ring: set<nat>, evs: seq<Event>) {
    && |evs| <= EV_POLL_BATCH_SIZE
    && Distinct(Returned(evs)) && forall id :: id in Returned(evs) ==> id in ring
  }

  method AnyBatch(ring: set<nat>) returns (evs: seq<Event>)
    ensures LegalBatch(ring, evs)
  {
    assert LegalBatch(ring, []);
    evs :| LegalBatch(ring, evs);
  }

  /** A legal batch that gives back `m` of the buffers. */
  method BatchOf(ring: set<nat>, m: nat) returns (evs: seq<Event>)
    requires m <= |ring| && m <= EV_POLL_BATCH_SIZE
    ensures LegalBatch(ring, evs) && |Returned(evs)| == m
  {
    evs := [];
    var rest := ring;
    while |evs| < m
      invariant |evs| <= m && |evs| == |Returned(evs)| && rest <= ring && |rest| == |ring| - |evs|
      invariant Distinct(Returned(evs)) && forall id :: id in Returned(evs) ==> id in ring && id !in rest
    {
      var id :| id in rest;
      DistinctPrepend(id, Returned(evs));
      assert ([Rx(id, 0)] + evs)[1..] == evs;
      evs, rest := [Rx(id, 0)] + evs, rest - {id};
    }
  }

  lemma RemovePartition(n: nat, free: seq<nat>, ring: set<nat>, ids: seq<nat>)
    requires Partition(n, free, ring, []) && Distinct(ids) && forall id :: id in ids ==> id in ring
    ensures |ring - Elements(ids)| == |ring| - |ids|
    ensures Partition(n, free, ring - Elements(ids), ids)
  {
    DistinctSize(ids);
    assert Elements(ids) <= ring;
    forall i: nat
      ensures Placed(n, free, ring - Elements(ids), ids, i)
    {
      assert Placed(n, free, ring, [], i);
    }
  }

  lemma FilledUp(n: nat, level: nat)
    requires level <= n && level > n - REFILL_BATCH_SIZE && level % REFILL_BATCH_SIZE == 0
    ensures level == InitialFill(n)
  {
  }

  class Resources {
    const n: nat             // pkt_bufs_n
    var next: seq<int>       // the `next` field of each packet buffer
    var freeHead: int        // free_pkt_bufs
    var freeN: int           // free_pkt_bufs_n
    var refillLevel: int
    var refillMin: int
    // The descriptor ring: its counters, and the buffers it holds.
    const mask: nat
    var added: nat
    var removed: nat
    var posted: nat
    var ring: set<nat>
    ghost var free: seq<nat>
    ghost var everAdded: nat // the counters as they would be without wrapping
    ghost var everRemoved: nat

    /** What holds at every step, `pending` being the buffers of the events still to be
        handled. */
    ghost predicate Valid(pending: seq<nat>)
      reads this
    {
      && n < U32 / 2 && n + 15 == mask
      && |next| == n && Threaded(next, freeHead, free) && |free| == freeN
      && Partition(n, free, ring, pending)
      && added == everAdded % U32 && removed == everRemoved % U32 && everAdded - everRemoved == |ring|
      && refillLevel == n - REFILL_BATCH_SIZE && refillMin == n / 2
    }

    /** Nothing initialised is waiting to be submitted. */
    ghost predicate Submitted()
      reads this
    {
      posted == added && everAdded % REFILL_BATCH_SIZE == 0
    }

    /** `pkt_buf_free`. */
    method PktBufFree(id: nat, ghost rest: seq<nat>)
      requires Valid([id] + rest)
      modifies this`next, this`freeHead, this`freeN, this`free
      ensures Valid(rest) && free == [id] + old(free)
    {
      PushPartition(n, free, ring, id, rest);
      PushThreaded(next, freeHead, free, id);
      next := next[id := freeHead];
      freeHead := id;
      freeN := freeN + 1;
      free := [id] + free;
    }

    /** `ef_vi_receive_init`: one more descriptor on the ring. */
    method ReceiveInit(id: nat)
      requires added == everAdded % U32
      modifies this`added, this`ring, this`everAdded
      ensures ring == old(ring) + {id} && everAdded == old(everAdded) + 1 && added == everAdded % U32
    {
      ring := ring + {id};
      added := (added + 1) % U32;
      everAdded := everAdded + 1;
    }

    /** `ef_vi_receive_push`. */
    method ReceivePush()
      modifies this`posted
      ensures posted == Pushed(old(posted), added)
    {
      posted := Pushed(posted, added);
    }

    /** One round of the inner loop of `refill_rx_ring`.  The free list is not empty. */
    method PostOne(ghost pending: seq<nat>)
      requires Valid(pending) && freeN > 0
      modifies this`freeHead, this`freeN, this`added, this`everAdded, this`ring, this`free
      ensures Valid(pending) && free == old(free)[1..]
      ensures |ring| == old(|ring|) + 1 && everAdded == old(everAdded) + 1
    {
      PopThreaded(next, freeHead, free);
      PopPartition(n, free, ring, pending);
      var buf := freeHead;
      assert buf != NULL;
      freeHead := next[freeHead];
      freeN := freeN - 1;
      ReceiveInit(buf);
      free := free[1..];
    }

    /** `init`, from the pool to the filled ring, for a ring of the given capacity.  The
        buffers not yet freed are the pending ones. */
    constructor (capacity: nat)
      requires 15 <= capacity < U32 / 2
      ensures Valid([]) && Submitted() && n == capacity - 15 && mask == capacity
      ensures |ring| == InitialFill(n) && |free| == n - InitialFill(n)
    {
      n := capacity - 15;
      mask := capacity;
      next := seq(capacity - 15, _ => NULL);
      freeHead, freeN, free := NULL, 0, [];
      added, removed, posted, ring := 0, 0, 0, {};
      everAdded, everRemoved := 0, 0;
      refillLevel := capacity - 15 - REFILL_BATCH_SIZE;
      refillMin := (capacity - 15) / 2;
      new;
      AllPending(n);
      FreeAll();
      FillRing();
    }

    /** The loop of `init` that puts every buffer on the free list. */
    method FreeAll()
      requires Valid(From(0, n))
      modifies this`next, this`freeHead, this`freeN, this`free
      ensures Valid([])
    {
      var i := 0;
      while i < n
        invariant i <= n && Valid(From(i, n))
      {
        assert From(i, n) == [i] + From(i + 1, n);
        PktBufFree(i, From(i + 1, n));
        i := i + 1;
      }
      assert From(n, n) == [];
    }

    /** The loop of `init` that fills the ring: it ends for every number of buffers. */
    method FillRing()
      requires Valid([]) && Submitted() && ring == {}
      modifies this`freeHead, this`freeN, this`added, this`everAdded, this`ring, this`free, this`posted
      ensures Valid([]) && Submitted() && |ring| == InitialFill(n)
    {
      var level := ReceiveFillLevel([]);
      while level <= refillLevel
        invariant Valid([]) && Submitted() && level == |ring|
        invariant |ring| % REFILL_BATCH_SIZE == 0
        decreases n - |ring|
      {
        FillUpReaches(n, |ring|);
        WholeBatches(|ring|, FillUp(n, |ring|) - |ring|);
        var filled := RefillRxRing();
        level := ReceiveFillLevel([]);
      }
      FilledUp(n, |ring|);
    }

    /** `ef_eventq_poll`, as the environment: it reports up to a batch of events, in any
        order, each receive event naming a different buffer on the ring, and takes those
        buffers off the ring. */
    method EventqPoll(evs: seq<Event>)
      requires Valid([]) && LegalBatch(ring, evs)
      modifies this`removed, this`everRemoved, this`ring
      ensures Valid(Returned(evs))
      ensures ring == old(ring) - Elements(Returned(evs)) && |ring| == old(|ring|) - |Returned(evs)|
    {
      RemovePartition(n, free, ring, Returned(evs));
      TakeOff(Returned(evs));
    }

    /** The descriptors of these buffers have been consumed. */
    method TakeOff(ids: seq<nat>)
      requires removed == everRemoved % U32
      modifies this`removed, this`everRemoved, this`ring
      ensures ring == old(ring) - Elements(ids)
      ensures everRemoved == old(everRemoved) + |ids| && removed == everRemoved % U32
    {
      WrapSum(everRemoved, |ids|);
      ring := ring - Elements(ids);
      removed := (removed + |ids|) % U32;
      everRemoved := everRemoved + |ids|;
    }

    /** `handle_rx`, apart from what it does with the packet. */
    method HandleRx(id: nat, ghost rest: seq<nat>)
      requires Valid([id] + rest)
      modifies this`next, this`freeHead, this`freeN, this`free
      ensures Valid(rest) && free == [id] + old(free)
    {
      PktBufFree(id, rest);
    }

    /** `handle_rx_discard`. */
    method HandleRxDiscard(id: nat, ghost rest: seq<nat>)
      requires Valid([id] + rest)
      modifies this`next, this`freeHead, this`freeN, this`free
      ensures Valid(rest) && free == [id] + old(free)
    {
      PktBufFree(id, rest);
    }

    /** The switch of `poll_evq`. */
    method HandleEvent(ev: Event, ghost rest: seq<nat>)
      requires Valid((if ev.Other? then [] else [ev.id]) + rest)
      modifies this`next, this`freeHead, this`freeN, this`free
      ensures Valid(rest) && free == (if ev.Other? then [] else [ev.id]) + old(free)
    {
      match ev
      case Rx(id, bytes) => HandleRx(id, rest);
      case RxDiscard(id, bytes, kind) => HandleRxDiscard(id, rest);
      case Other(kind) =>
        assert [] + rest == rest;
    }

    /** `poll_evq`, for any events the NIC may report: every buffer reported ends up at the
        front of the free list, the last one first. */
    method PollEvq(evs: seq<Event>)
      requires Valid([]) && LegalBatch(ring, evs)
      modifies this`next, this`freeHead, this`freeN, this`free, this`removed, this`everRemoved, this`ring
      ensures Valid([])
      ensures ring == old(ring) - Elements(Returned(evs)) && |ring| == old(|ring|) - |Returned(evs)|
      ensures free == Stacked(Returned(evs), old(free))
    {
      EventqPoll(evs);
      var i := 0;
      assert evs[0..] == evs;
      while i < |evs|
        invariant i <= |evs| && Valid(Returned(evs[i..]))
        invariant Stacked(Returned(evs[i..]), free) == Stacked(Returned(evs), old(free))
        modifies this`next, this`freeHead, this`freeN, this`free
        decreases |evs| - i
      {
        ReturnedRest(evs, i);
        StackedNext(evs[i], Returned(evs[i + 1..]), free);
        HandleEvent(evs[i], Returned(evs[i + 1..]));
        i := i + 1;
      }
    }

    /** One round of `event_loop_low_latency`, giving the ring's level before the poll. */
    method Round() returns (level: int)
      requires Valid([]) && Submitted()
      modifies this`next, this`freeHead, this`freeN, this`free, this`removed, this`everRemoved, this`ring,
               this`added, this`everAdded, this`posted
      ensures Valid([]) && Submitted()
      ensures level == Refilled(n, old(|ring|)) && level - 16 <= |ring| <= level
    {
      var filled := RefillRxRing();
      level := ReceiveFillLevel([]);
      var evs := AnyBatch(ring);
      PollEvq(evs);
      ReturnedSize(evs);
    }

    /** The same, with a poll after which `left` descriptors are on the ring. */
    method RoundTo(left: nat) returns (level: int)
      requires Valid([]) && Submitted() && |ring| <= n && Polled(n, |ring|, left)
      modifies this`next, this`freeHead, this`freeN, this`free, this`removed, this`everRemoved, this`ring,
               this`added, this`everAdded, this`posted
      ensures Valid([]) && Submitted()
      ensures level == Refilled(n, old(|ring|)) && |ring| == left
    {
      var filled := RefillRxRing();
      level := ReceiveFillLevel([]);
      var evs := BatchOf(ring, level - left);
      PollEvq(evs);
    }

    /** Every run of levels is one the event loop goes through, with polls that give back as many buffers as
        the run says.  `levels` are those before each poll. */
    method FollowRun(fills: seq<nat>) returns (levels: seq<int>)
      requires Valid([]) && Submitted() && IsRun(n, fills) && |ring| == fills[0]
      modifies this`next, this`freeHead, this`freeN, this`free, this`removed, this`everRemoved, this`ring,
               this`added, this`everAdded, this`posted
      ensures Valid([]) && Submitted() && |levels| == |fills|
      ensures forall i :: 0 <= i < |fills| ==> levels[i] == Refilled(n, fills[i])
    {
      levels := [];
      var last := |fills| - 1;
      for i := 0 to last
        invariant Valid([]) && Submitted() && |levels| == i && |ring| == fills[i]
        invariant forall j :: 0 <= j < i ==> levels[j] == Refilled(n, fills[j])
      {
        assert Polled(n, fills[i], fills[i + 1]);
        var level := RoundTo(fills[i + 1]);
        levels := levels + [level];
      }
      var level := Round();
      levels := levels + [level];
    }

    /** `event_loop_low_latency` for any number of rounds, recording the ring's level before
        each poll. */
    method EventLoop(rounds: nat) returns (levels: seq<int>)
      requires Valid([]) && Submitted()
      modifies this`next, this`freeHead, this`freeN, this`free, this`removed, this`everRemoved, this`ring,
               this`added, this`everAdded, this`posted
      ensures Valid([]) && Submitted() && |levels| == rounds
      ensures forall i :: 0 <= i < rounds ==> levels[i] <= n < mask && (n >= 29 ==> levels[i] >= n / 2)
    {
      levels := [];
      while |levels| < rounds
        invariant Valid([]) && Submitted() && |levels| <= rounds
        invariant forall i :: 0 <= i < |levels| ==> levels[i] <= n && (n >= 29 ==> levels[i] >= n / 2)
        decreases rounds - |levels|
      {
        if n >= 29 {
          RefilledIsHalf(n, |ring|);
        }
        var level := Round();
        levels := levels + [level];
      }
    }

    /** `ef_vi_receive_fill_level`. */
    method ReceiveFillLevel(ghost pending: seq<nat>) returns (level: int)
      requires Valid(pending)
      ensures level == FillLevel(added, removed) == |ring|
    {
      LevelIsHeld(everAdded, everRemoved);
      level := FillLevel(added, removed);
    }

    /** The do-while loop of `refill_rx_ring`. */
    method PostBatches()
      requires Valid([]) && freeN >= REFILL_BATCH_SIZE
      modifies this`freeHead, this`freeN, this`added, this`everAdded, this`ring, this`free
      ensures Valid([]) && |ring| == FillUp(n, old(|ring|))
      ensures everAdded - old(everAdded) == |ring| - old(|ring|)
      ensures free == old(free)[|ring| - old(|ring|)..]
    {
      ghost var was, had, taken: nat := |ring|, free, 0;
      var again := true;
      while again
        invariant Valid([]) && taken <= |had| && free == had[taken..]
        invariant |ring| == was + taken && everAdded == old(everAdded) + taken
        invariant again ==> freeN >= REFILL_BATCH_SIZE && FillUp(n, was) == FillUp(n, |ring|)
        invariant !again ==> |ring| == FillUp(n, was)
        decreases freeN, again
      {
        PostBatch();
        assert had[taken..][REFILL_BATCH_SIZE..] == had[taken + REFILL_BATCH_SIZE..];
        taken := taken + REFILL_BATCH_SIZE;
        var level := ReceiveFillLevel([]);
        again := level < refillMin && freeN >= REFILL_BATCH_SIZE;
      }
    }

    /** `refill_rx_ring`, called with no event outstanding.  The ring's level becomes
        `Refilled` of what it was, with buffers from the front of the free list, and every
        descriptor is submitted. */
    method RefillRxRing() returns (filled: bool)
      requires Valid([]) && Submitted()
      modifies this`freeHead, this`freeN, this`added, this`everAdded, this`ring, this`free, this`posted
      ensures Valid([]) && Submitted()
      ensures |ring| == Refilled(n, old(|ring|))
      ensures filled <==> |ring| > old(|ring|)
      ensures free == old(free)[|ring| - old(|ring|)..]
    {
      var level := ReceiveFillLevel([]);
      if level > refillLevel || freeN < REFILL_BATCH_SIZE {
        return false;
      }
      PostBatches();
      FillUpReaches(n, old(|ring|));
      PushAll(old(everAdded), everAdded - old(everAdded));
      WholeBatches(old(everAdded), everAdded - old(everAdded));
      ReceivePush();
      return true;
    }

    /** The inner loop of `refill_rx_ring`. */
    method PostBatch()
      requires Valid([]) && freeN >= REFILL_BATCH_SIZE
      modifies this`freeHead, this`freeN, this`added, this`everAdded, this`ring, this`free
      ensures Valid([]) && free == old(free)[REFILL_BATCH_SIZE..]
      ensures |ring| == old(|ring|) + REFILL_BATCH_SIZE && everAdded == old(everAdded) + REFILL_BATCH_SIZE
    {
      var i := 0;
      while i < REFILL_BATCH_SIZE
        invariant Valid([]) && i <= REFILL_BATCH_SIZE && free == old(free)[i..]
        invariant |ring| == old(|ring|) + i && everAdded == old(everAdded) + i
      {
        PostOne([]);
        i := i + 1;
      }
    }
  }

  /** With 2 to 28 buffers the code does get below the half: here it does. */
  method HalfEmpty(n: nat) returns (levels: seq<int>)
    requires 2 <= n <= 28
    ensures exists i :: 0 <= i < |levels| && levels[i] < n / 2
  {
    var r := new Resources(n + 15);
    var fills := if n < 16 then [0] else [16, n - 15];
    assert n >= 16 ==> Refilled(n, 16) == 16 && Polled(n, fills[0], fills[1]);
    levels := r.FollowRun(fills);
    assert levels[|fills| - 1] < n / 2;
  }

  lemma WrapDifference(high: nat, low: nat)
    requires 0 <= high - low < U32
    ensures (high % U32 - low % U32) % U32 == high - low
  {
    var h, l := high / U32, low / U32;
    assert high % U32 - low % U32 == (high - low) - U32 * (h - l);
  }

  lemma WrapSum(x: nat, y: nat)
    ensures (x % U32 + y) % U32 == (x + y) % U32
  {
  }

  /** The wrapping difference of the counters is the number of descriptors held. */
  lemma LevelIsHeld(added: nat, removed: nat)
    requires 0 <= added - removed < U32 / 2
    ensures FillLevel(added % U32, removed % U32) == added - removed
  {
    WrapDifference(added, removed);
  }

  lemma WholeEights(x: nat)
    requires x % REFILL_BATCH_SIZE == 0
    ensures x / 8 * 8 == x
  {
  }

  lemma WholeBatches(x: nat, more: nat)
    requires x % REFILL_BATCH_SIZE == 0 && more % REFILL_BATCH_SIZE == 0
    ensures (x + more) % REFILL_BATCH_SIZE == 0
  {
  }

  /** A push submits the new descriptors but for the last ones that do not make up eight. */
  lemma PushLeaves(posted: nat, more: nat)
    requires more < U32
    ensures Pushed(posted % U32, (posted + more) % U32) == (posted + more - more % 8) % U32
  {
    WrapDifference(posted + more, posted);
    assert more / 8 * 8 == more - more % 8;
    WrapSum(posted, more / 8 * 8);
  }

  /** A push after whole batches of new descriptors leaves none behind. */
  lemma PushAll(posted: nat, more: nat)
    requires more < U32 && more % REFILL_BATCH_SIZE == 0
    ensures Pushed(posted % U32, (posted + more) % U32) == (posted + more) % U32
  {
    var d := ((posted + more) % U32 - posted % U32) % U32;
    assert d == more by {
      WrapDifference(posted + more, posted);
    }
    assert d / 8 * 8 == more by {
      WholeEights(more);
    }
    WrapSum(posted, more);
  }
}
