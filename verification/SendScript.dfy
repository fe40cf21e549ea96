/** What the packets of a send loop carry, for any program that chooses how much to send and when to patch
    the headers, and exactly when its packets are right. */
module SendScript {
  import opened TcpHeaders

  function Min(a: int, b: int): int {
    if a <= b then a else b
  }

  datatype Packet = Packet(headers: seq<Byte>, payload: seq<Byte>)

  /** The bytes of the stream that the packets carry. */
  function Stream(packets: seq<Packet>): seq<Byte> {
    if packets == [] then [] else Stream(packets[..|packets| - 1]) + packets[|packets| - 1].payload
  }

  /** What a transfer starts from: the headers, the data and how much of it may go. */
  datatype Plan = Plan(layout: Layout, headers: seq<Byte>, mss: int, data: seq<Byte>, total: int) {
    predicate Valid() {
      Shaped(layout, headers) && total <= |data|
    }

    /** The headers are as `onload_delegated_send_prepare` leaves them: full size and no PSH. */
    predicate Prepared()
      requires Valid()
    {
      MarkOf(layout, headers) == Mark((mss + layout.ipTcpLen) % TWO16, false)
    }

    /** The mark of a packet of this size. */
    function MarkFor(bytes: int, push: bool): Mark {
      Mark((bytes + layout.ipTcpLen) % TWO16, push)
    }
  }

  /** One round of a send loop: how much it sends, and whether it calls `onload_delegated_send_tcp_update`
      first, with which push flag. */
  datatype Choice = Choice(bytes: nat, update: bool, push: bool)

  function Total(script: seq<Choice>): nat {
    if script == [] then 0 else Total(script[..|script| - 1]) + script[|script| - 1].bytes
  }

  lemma NextTotal(script: seq<Choice>, k: nat)
    requires k < |script|
    ensures Total(script[..k + 1]) == Total(script[..k]) + script[k].bytes
  {
    assert script[..k + 1][..k] == script[..k];
  }

  /** What is left of the windows before round `k`. */
  function Left(plan: Plan, script: seq<Choice>, k: nat): int
    requires k <= |script|
  {
    plan.total - Total(script[..k])
  }

  /** Round `k` sends something, and no more than the windows of the moment and a segment allow. */
  predicate AllowedAt(plan: Plan, script: seq<Choice>, k: int) {
    0 <= k < |script| ==> 0 < script[k].bytes <= Min(Left(plan, script, k), plan.mss)
  }

  ghost predicate Allowed(plan: Plan, script: seq<Choice>) {
    forall k :: AllowedAt(plan, script, k)
  }

  /** The mark in the headers after the script: that of the latest update, or the one it began with. */
  function Stored(plan: Plan, script: seq<Choice>): Mark
    requires plan.Valid()
  {
    if script == [] then MarkOf(plan.layout, plan.headers) else
    var last := script[|script| - 1];
    if last.update then plan.MarkFor(last.bytes, last.push) else Stored(plan, script[..|script| - 1])
  }

  /** `p` is the packet of the round that sends `bytes` from `from`, with `mark` in its headers. */
  predicate Carries(plan: Plan, p: Packet, from: nat, bytes: nat, mark: Mark)
    requires plan.Valid()
  {
    && from + bytes <= |plan.data| && p.payload == plan.data[from..from + bytes]
    && Shaped(plan.layout, p.headers) && MarkOf(plan.layout, p.headers) == mark
    && SeqNo(plan.layout, p.headers) == (SeqNo(plan.layout, plan.headers) + from) % TWO32
    && SameHeader(plan.layout, p.headers, plan.headers)
  }

  ghost predicate CarriedAt(plan: Plan, script: seq<Choice>, packets: seq<Packet>, k: int)
    requires plan.Valid() && |packets| == |script|
  {
    0 <= k < |script| ==>
      Carries(plan, packets[k], Total(script[..k]), script[k].bytes, Stored(plan, script[..k + 1]))
  }

  /** The packets are what the script sends. */
  ghost predicate Carried(plan: Plan, script: seq<Choice>, packets: seq<Packet>)
    requires plan.Valid()
  {
    |packets| == |script| && forall k :: CarriedAt(plan, script, packets, k)
  }

  lemma CarriedNext(plan: Plan, script: seq<Choice>, packets: seq<Packet>, c: Choice, p: Packet, from: nat, mark: Mark)
    requires plan.Valid() && Carried(plan, script, packets)
    requires from == Total(script) && mark == Stored(plan, script + [c]) && Carries(plan, p, from, c.bytes, mark)
    ensures Carried(plan, script + [c], packets + [p])
  {
    var more, all := script + [c], packets + [p];
    forall k
      ensures CarriedAt(plan, more, all, k)
    {
      if 0 <= k < |script| {
        assert more[..k] == script[..k] && more[..k + 1] == script[..k + 1];
        assert CarriedAt(plan, script, packets, k);
      } else if k == |script| {
        assert more[..k] == script && more[..k + 1] == more;
      }
    }
  }

  lemma ModSum(x: int, y: int)
    ensures (x % TWO32 + y) % TWO32 == (x + y) % TWO32
  {}

  lemma ModDifference(x: int, y: int)
    requires 0 <= y < TWO32
    ensures ((x + y) % TWO32 - x) % TWO32 == y
  {}

  /** The headers after a packet carry on from it. */
  lemma Advanced(plan: Plan, p: Packet, h: seq<Byte>, from: nat, bytes: nat, mark: Mark)
    requires plan.Valid() && Carries(plan, p, from, bytes, mark) && Shaped(plan.layout, h)
    requires SameHeader(plan.layout, h, p.headers)
    requires SeqNo(plan.layout, h) == (SeqNo(plan.layout, p.headers) + bytes) % TWO32
    ensures SeqNo(plan.layout, h) == (SeqNo(plan.layout, plan.headers) + (from + bytes)) % TWO32
    ensures SameHeader(plan.layout, h, plan.headers)
  {
    ModSum(SeqNo(plan.layout, plan.headers) + from, bytes);
    SameTwice(plan.layout, h, p.headers, plan.headers);
  }

  // ---------------------------------------------------------------------------------
  // Every script
  // ---------------------------------------------------------------------------------

  lemma NextStream(packets: seq<Packet>, k: nat)
    requires k < |packets|
    ensures Stream(packets[..k + 1]) == Stream(packets[..k]) + packets[k].payload
  {
    assert packets[..k + 1][..k] == packets[..k];
  }

  /** The packets carry a prefix of the data, in order, without gap or repetition. */
  lemma {:induction false} StreamIsData(plan: Plan, script: seq<Choice>, packets: seq<Packet>, k: nat)
    requires plan.Valid() && Carried(plan, script, packets) && k <= |script|
    ensures Total(script[..k]) <= |plan.data| && Stream(packets[..k]) == plan.data[..Total(script[..k])]
  {
    if k > 0 {
      StreamIsData(plan, script, packets, k - 1);
      NextStream(packets, k - 1);
      NextTotal(script, k - 1);
      assert CarriedAt(plan, script, packets, k - 1);
    }
  }

  /** However much each round sends, the windows last: none goes below zero. */
  lemma {:induction false} WindowsLast(plan: Plan, script: seq<Choice>, k: nat)
    requires Allowed(plan, script) && k <= |script|
    ensures plan.total >= 0 ==> 0 <= Left(plan, script, k) <= plan.total
    ensures k > 0 ==> 0 <= Left(plan, script, k) < Left(plan, script, k - 1)
  {
    if k > 0 {
      WindowsLast(plan, script, k - 1);
      NextTotal(script, k - 1);
      assert AllowedAt(plan, script, k - 1);
    }
  }

  /** The windows recorded after round `k` are what the script leaves, and not negative. */
  predicate WindowAt(plan: Plan, script: seq<Choice>, windows: seq<int>, k: int)
    requires |windows| <= |script|
  {
    0 <= k < |windows| ==> windows[k] == Left(plan, script, k + 1) >= 0
  }

  lemma WindowNext(plan: Plan, script: seq<Choice>, windows: seq<int>, window: int)
    requires |windows| < |script| && forall k :: WindowAt(plan, script, windows, k)
    requires window == Left(plan, script, |windows| + 1) >= 0
    ensures forall k :: WindowAt(plan, script, windows + [window], k)
  {
    forall k
      ensures WindowAt(plan, script, windows + [window], k)
    {
      assert WindowAt(plan, script, windows, k);
    }
  }

  /** Each sequence number is that of the packet before plus what it carried. */
  lemma Contiguous(plan: Plan, script: seq<Choice>, packets: seq<Packet>, k: nat)
    requires plan.Valid() && Carried(plan, script, packets) && k + 1 < |script|
    ensures Shaped(plan.layout, packets[k].headers) && Shaped(plan.layout, packets[k + 1].headers)
    ensures SeqNo(plan.layout, packets[k + 1].headers) ==
            (SeqNo(plan.layout, packets[k].headers) + |packets[k].payload|) % TWO32
  {
    NextTotal(script, k);
    assert CarriedAt(plan, script, packets, k) && CarriedAt(plan, script, packets, k + 1);
    ModSum(SeqNo(plan.layout, plan.headers) + Total(script[..k]), script[k].bytes);
  }

  /** The mark of packet `k` is the one for its size and the given flag. */
  predicate Marked(plan: Plan, script: seq<Choice>, packets: seq<Packet>, k: nat, push: bool)
    requires plan.Valid() && k < |script| == |packets| && Shaped(plan.layout, packets[k].headers)
  {
    MarkOf(plan.layout, packets[k].headers) == plan.MarkFor(script[k].bytes, push)
  }

  /** The size and flag that the headers are set for: those of the latest update, or a full segment without
      PSH.  A program can keep track of this. */
  function SetFor(plan: Plan, script: seq<Choice>): (int, bool) {
    if script == [] then (plan.mss, false) else
    var last := script[|script| - 1];
    if last.update then (last.bytes, last.push) else SetFor(plan, script[..|script| - 1])
  }

  lemma {:induction false} StoredIsSet(plan: Plan, script: seq<Choice>)
    requires plan.Valid() && plan.Prepared()
    ensures Stored(plan, script) == plan.MarkFor(SetFor(plan, script).0, SetFor(plan, script).1)
  {
    if script != [] {
      StoredIsSet(plan, script[..|script| - 1]);
    }
  }

  lemma {:induction false} SetWithin(plan: Plan, script: seq<Choice>, k: nat)
    requires Allowed(plan, script) && k <= |script| && plan.mss >= 0
    ensures 0 <= SetFor(plan, script[..k]).0 <= plan.mss
  {
    if k > 0 {
      SetWithin(plan, script, k - 1);
      assert script[..k][..k - 1] == script[..k - 1];
      assert AllowedAt(plan, script, k - 1);
    }
  }

  /** A segment and its headers fit the length field. */
  predicate Fits(plan: Plan) {
    0 <= plan.mss && plan.mss + plan.layout.ipTcpLen < TWO16
  }

  /** Exactly when a round may leave out the update: when the headers are already set for its size, as far as
      the length field tells sizes apart, and for the flag it wants. */
  lemma UpdateNeeded(plan: Plan, script: seq<Choice>, packets: seq<Packet>, k: nat, push: bool)
    requires plan.Valid() && plan.Prepared()
    requires Allowed(plan, script) && Carried(plan, script, packets) && k < |script|
    ensures Shaped(plan.layout, packets[k].headers)
    ensures script[k].update ==> (Marked(plan, script, packets, k, push) <==> script[k].push == push)
    ensures var (size, flag) := SetFor(plan, script[..k]);
      && (!script[k].update ==>
            (Marked(plan, script, packets, k, push) <==>
               (size - script[k].bytes) % TWO16 == 0 && flag == push))
      && (!script[k].update && Fits(plan) ==>
            (Marked(plan, script, packets, k, push) <==> size == script[k].bytes && flag == push))
  {
    assert CarriedAt(plan, script, packets, k) && AllowedAt(plan, script, k);
    assert script[..k + 1][..k] == script[..k];
    StoredIsSet(plan, script[..k]);
    SameLength(SetFor(plan, script[..k]).0, script[k].bytes, plan.layout.ipTcpLen);
    if Fits(plan) {
      SetWithin(plan, script, k);
      SmallMultiple(SetFor(plan, script[..k]).0 - script[k].bytes);
    }
  }

  lemma SameLength(x: int, y: int, z: int)
    ensures (x + z) % TWO16 == (y + z) % TWO16 <==> (x - y) % TWO16 == 0
  {}

  lemma SmallMultiple(d: int)
    requires 0 - TWO16 < d < TWO16
    ensures d % TWO16 == 0 <==> d == 0
  {}

  /** Where a receiver puts a packet, and how much it takes it to hold, by its headers alone. */
  function Place(plan: Plan, p: Packet): nat
    requires plan.Valid() && Shaped(plan.layout, p.headers)
  {
    (SeqNo(plan.layout, p.headers) - SeqNo(plan.layout, plan.headers)) % TWO32
  }

  function Held(plan: Plan, p: Packet): int
    requires plan.Valid() && Shaped(plan.layout, p.headers)
  {
    IpLen(plan.layout, p.headers) - plan.layout.ipTcpLen
  }

  /** Reassembly: the headers alone put every packet where the data had it, directly after the one before,
      and give its size exactly when it was updated or the headers were set for that size. */
  lemma Reassembled(plan: Plan, script: seq<Choice>, packets: seq<Packet>, k: nat)
    requires plan.Valid() && plan.Prepared() && plan.total < TWO32 && Fits(plan)
    requires Allowed(plan, script) && Carried(plan, script, packets) && k < |script|
    ensures Shaped(plan.layout, packets[k].headers)
    ensures Place(plan, packets[k]) == Total(script[..k]) == |Stream(packets[..k])|
    ensures Place(plan, packets[k]) + |packets[k].payload| == Total(script[..k + 1]) <= |plan.data|
    ensures packets[k].payload == plan.data[Place(plan, packets[k])..Place(plan, packets[k]) + |packets[k].payload|]
    ensures Held(plan, packets[k]) == |packets[k].payload| <==>
              script[k].update || SetFor(plan, script[..k]).0 == script[k].bytes
  {
    var from := Total(script[..k]);
    StreamIsData(plan, script, packets, k);
    NextTotal(script, k);
    assert CarriedAt(plan, script, packets, k) && AllowedAt(plan, script, k);
    ModDifference(SeqNo(plan.layout, plan.headers), from);
    HeldExactly(plan, script, packets, k);
  }

  lemma HeldExactly(plan: Plan, script: seq<Choice>, packets: seq<Packet>, k: nat)
    requires plan.Valid() && plan.Prepared() && Fits(plan)
    requires Allowed(plan, script) && Carried(plan, script, packets) && k < |script|
    ensures Shaped(plan.layout, packets[k].headers)
    ensures Held(plan, packets[k]) == |packets[k].payload| <==>
              script[k].update || SetFor(plan, script[..k]).0 == script[k].bytes
  {
    assert CarriedAt(plan, script, packets, k) && AllowedAt(plan, script, k);
    assert script[..k + 1][..k] == script[..k];
    StoredIsSet(plan, script[..k]);
    SetWithin(plan, script, k);
    NoWrap(script[k].bytes + plan.layout.ipTcpLen);
    NoWrap(SetFor(plan, script[..k]).0 + plan.layout.ipTcpLen);
  }

  lemma NoWrap(x: nat)
    requires x < TWO16
    ensures x % TWO16 == x
  {}

  // ---------------------------------------------------------------------------------
  // The rule of the sample code
  // ---------------------------------------------------------------------------------

  /** The sample updates, with PSH, a packet that is not full or that uses up the windows. */
  predicate SampleAt(plan: Plan, script: seq<Choice>, k: int) {
    0 <= k < |script| ==>
      && script[k].push
      && (script[k].update <==> script[k].bytes != plan.mss || script[k].bytes == Left(plan, script, k))
  }

  ghost predicate SampleRule(plan: Plan, script: seq<Choice>) {
    forall k :: SampleAt(plan, script, k)
  }

  /** Round `k` sends as much as it may. */
  predicate TakesAll(plan: Plan, script: seq<Choice>, k: nat)
    requires k < |script|
  {
    script[k].bytes == Min(Left(plan, script, k), plan.mss)
  }

  /** The loop of the sample: its rule, every round taking all it may. */
  ghost predicate SampleLoop(plan: Plan, script: seq<Choice>) {
    Allowed(plan, script) && SampleRule(plan, script) && forall k :: 0 <= k < |script| ==> TakesAll(plan, script, k)
  }

  lemma SampleNext(plan: Plan, script: seq<Choice>, left: int, bytes: nat)
    requires SampleLoop(plan, script) && left == plan.total - Total(script) && bytes == Min(left, plan.mss) > 0
    ensures SampleLoop(plan, script + [Choice(bytes, bytes != plan.mss || bytes == left, true)])
  {
    var more := script + [Choice(bytes, bytes != plan.mss || bytes == left, true)];
    forall k
      ensures AllowedAt(plan, more, k) && SampleAt(plan, more, k) && (0 <= k < |more| ==> TakesAll(plan, more, k))
    {
      if 0 <= k < |script| {
        assert more[..k] == script[..k];
        assert AllowedAt(plan, script, k) && SampleAt(plan, script, k) && TakesAll(plan, script, k);
      } else if k == |script| {
        assert more[..k] == script;
      }
    }
  }

  /** Packet `k` has the right length, and PSH iff it uses up the windows. */
  ghost predicate RightAt(plan: Plan, script: seq<Choice>, packets: seq<Packet>, k: nat)
    requires plan.Valid() && k < |script| == |packets|
  {
    && Shaped(plan.layout, packets[k].headers)
    && Marked(plan, script, packets, k, script[k].bytes == Left(plan, script, k))
  }

  /** While every round takes all it may and none is the last, nothing is updated. */
  lemma {:induction false} NothingSet(plan: Plan, script: seq<Choice>, k: nat)
    requires Allowed(plan, script) && SampleRule(plan, script) && k < |script|
    requires forall i :: 0 <= i < k ==> TakesAll(plan, script, i)
    ensures SetFor(plan, script[..k]) == (plan.mss, false)
  {
    if k > 0 {
      NothingSet(plan, script, k - 1);
      assert script[..k][..k - 1] == script[..k - 1];
      NextTotal(script, k - 1);
      assert AllowedAt(plan, script, k) && SampleAt(plan, script, k - 1) && TakesAll(plan, script, k - 1);
    }
  }

  lemma TakesAllIsRight(plan: Plan, script: seq<Choice>, packets: seq<Packet>, k: nat)
    requires plan.Valid() && plan.Prepared()
    requires Allowed(plan, script) && SampleRule(plan, script) && Carried(plan, script, packets) && k < |script|
    requires forall i :: 0 <= i <= k ==> TakesAll(plan, script, i)
    ensures RightAt(plan, script, packets, k)
  {
    NothingSet(plan, script, k);
    UpdateNeeded(plan, script, packets, k, script[k].bytes == Left(plan, script, k));
    assert AllowedAt(plan, script, k) && SampleAt(plan, script, k) && TakesAll(plan, script, k);
  }

  /** The rule of the sample is enough exactly for the loop of the sample: all packets are right if and only if
      every round takes all it may.  A smaller packet in between gets a PSH of its own. */
  lemma SampleRuleExactly(plan: Plan, script: seq<Choice>, packets: seq<Packet>)
    requires plan.Valid() && plan.Prepared()
    requires Allowed(plan, script) && SampleRule(plan, script) && Carried(plan, script, packets)
    ensures (forall k :: 0 <= k < |script| ==> RightAt(plan, script, packets, k)) <==>
            (forall k :: 0 <= k < |script| ==> TakesAll(plan, script, k))
  {
    if forall k :: 0 <= k < |script| ==> TakesAll(plan, script, k) {
      forall k | 0 <= k < |script|
        ensures RightAt(plan, script, packets, k)
      {
        TakesAllIsRight(plan, script, packets, k);
      }
    } else {
      var k :| 0 <= k < |script| && !TakesAll(plan, script, k);
      assert AllowedAt(plan, script, k) && SampleAt(plan, script, k);
      UpdateNeeded(plan, script, packets, k, script[k].bytes == Left(plan, script, k));
      assert !RightAt(plan, script, packets, k);
    }
  }

  /** What the loop of the sample has sent when it ends. */
  lemma SampleDone(plan: Plan, script: seq<Choice>, packets: seq<Packet>)
    requires plan.Valid() && SampleLoop(plan, script) && Carried(plan, script, packets)
    ensures Total(script) <= |plan.data| && Stream(packets) == plan.data[..Total(script)]
    ensures plan.Prepared() ==> forall k :: 0 <= k < |script| ==> RightAt(plan, script, packets, k)
  {
    assert packets[..|packets|] == packets && script[..|script|] == script;
    StreamIsData(plan, script, packets, |script|);
    if plan.Prepared() {
      SampleRuleExactly(plan, script, packets);
    }
  }

  /** A right PSH marks the packet that completes the transfer and no other. */
  lemma PushEndsTransfer(plan: Plan, script: seq<Choice>, packets: seq<Packet>, k: nat)
    requires plan.Valid() && Allowed(plan, script) && Carried(plan, script, packets)
    requires k < |script| && RightAt(plan, script, packets, k)
    ensures Psh(plan.layout, packets[k].headers) <==> k == |script| - 1 && Total(script) == plan.total
  {
    NextTotal(script, k);
    assert AllowedAt(plan, script, k) && AllowedAt(plan, script, k + 1);
    assert script[..|script|] == script;
  }

  /** Packet `k` has the right length. */
  ghost predicate LengthAt(plan: Plan, script: seq<Choice>, packets: seq<Packet>, k: nat)
    requires plan.Valid() && k < |script| == |packets|
  {
    && Shaped(plan.layout, packets[k].headers)
    && IpLen(plan.layout, packets[k].headers) == (script[k].bytes + plan.layout.ipTcpLen) % TWO16
  }

  /** A full packet that is not the last comes after a smaller one. */
  predicate Stale(plan: Plan, script: seq<Choice>, j: nat, k: nat)
    requires j < |script| && k < |script|
  {
    j < k && script[j].bytes != plan.mss && script[k].bytes == plan.mss && script[k].bytes != Left(plan, script, k)
  }

  predicate NoneStale(plan: Plan, script: seq<Choice>, k: nat)
    requires k < |script|
  {
    forall j :: 0 <= j < k ==> !Stale(plan, script, j, k)
  }

  /** Under the sample's rule a size other than full stays in the headers once it is set. */
  lemma {:induction false} SmallerSet(plan: Plan, script: seq<Choice>, j: nat, k: nat)
    requires Allowed(plan, script) && SampleRule(plan, script) && j < k < |script| && script[j].bytes != plan.mss
    ensures SetFor(plan, script[..k]).0 != plan.mss
  {
    assert script[..k][..k - 1] == script[..k - 1];
    assert AllowedAt(plan, script, k) && SampleAt(plan, script, k - 1);
    NextTotal(script, k - 1);
    if j < k - 1 {
      SmallerSet(plan, script, j, k - 1);
    }
  }

  /** And full size stays until then. */
  lemma {:induction false} FullSet(plan: Plan, script: seq<Choice>, k: nat)
    requires Allowed(plan, script) && SampleRule(plan, script) && k < |script|
    requires forall j :: 0 <= j < k ==> script[j].bytes == plan.mss
    ensures SetFor(plan, script[..k]) == (plan.mss, false)
  {
    if k > 0 {
      FullSet(plan, script, k - 1);
      assert script[..k][..k - 1] == script[..k - 1];
      assert AllowedAt(plan, script, k) && SampleAt(plan, script, k - 1);
      NextTotal(script, k - 1);
    }
  }

  lemma SampleLength(plan: Plan, script: seq<Choice>, packets: seq<Packet>, k: nat)
    requires plan.Valid() && plan.Prepared() && Fits(plan)
    requires Allowed(plan, script) && SampleRule(plan, script) && Carried(plan, script, packets) && k < |script|
    ensures LengthAt(plan, script, packets, k) <==> NoneStale(plan, script, k)
  {
    HeldExactly(plan, script, packets, k);
    assert CarriedAt(plan, script, packets, k) && AllowedAt(plan, script, k) && SampleAt(plan, script, k);
    assert LengthAt(plan, script, packets, k) <==> script[k].update || SetFor(plan, script[..k]).0 == script[k].bytes;
    if j :| 0 <= j < k && script[j].bytes != plan.mss {
      SmallerSet(plan, script, j, k);
      assert script[k].update <==> !Stale(plan, script, j, k);
    } else {
      FullSet(plan, script, k);
    }
  }

  /** Whatever the sizes, the sample's rule gets all the lengths right if and only if no full packet but the
      last comes after a smaller one. */
  lemma SampleLengthsExactly(plan: Plan, script: seq<Choice>, packets: seq<Packet>)
    requires plan.Valid() && plan.Prepared() && Fits(plan)
    requires Allowed(plan, script) && SampleRule(plan, script) && Carried(plan, script, packets)
    ensures (forall k :: 0 <= k < |script| ==> LengthAt(plan, script, packets, k)) <==>
            (forall k :: 0 <= k < |script| ==> NoneStale(plan, script, k))
  {
    forall k | 0 <= k < |script|
      ensures LengthAt(plan, script, packets, k) <==> NoneStale(plan, script, k)
    {
      SampleLength(plan, script, packets, k);
    }
  }

  /** A packet of 500 bytes and then a full one of 1000, by that rule: the second goes out with the length of
      the first, and with PSH. */
  lemma StaleLength(plan: Plan, packets: seq<Packet>)
    requires plan.Valid() && plan.Prepared()
    requires plan.mss == 1000 && plan.layout.ipTcpLen == 40 && plan.total == 5000
    requires Carried(plan, [Choice(500, true, true), Choice(1000, false, true)], packets)
    ensures var script := [Choice(500, true, true), Choice(1000, false, true)];
      && Allowed(plan, script) && SampleRule(plan, script)
      && Shaped(plan.layout, packets[1].headers) && |packets[1].payload| == 1000
      && IpLen(plan.layout, packets[1].headers) == 540 && Psh(plan.layout, packets[1].headers)
  {
    var script := [Choice(500, true, true), Choice(1000, false, true)];
    assert script[..0] == [] && script[..1] == [script[0]] && script[..2] == script;
    assert Total([script[0]]) == 500 by {
      assert [script[0]][..0] == [];
    }
    assert Stored(plan, script[..2]) == Stored(plan, script[..1]) == plan.MarkFor(500, true);
    assert CarriedAt(plan, script, packets, 1);
    forall k
      ensures AllowedAt(plan, script, k) && SampleAt(plan, script, k)
    {
    }
  }
}
