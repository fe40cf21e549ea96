/** Delegated sends: the application sends TCP segments itself, from header bytes that it patches in
    place between packets. */
module DelegatedSend {
  import opened SendScript
  import opened TcpHeaders

  class Sender {
    const layout: Layout
    const headers: array<Byte>
    const mss: int
    var sendWnd: int
    var congWnd: int
    var userSize: int

    ghost predicate Valid() {
      layout.Valid() && headers.Length == layout.size
    }

    /** What `onload_delegated_send_prepare` hands to the application. */
    constructor (layout: Layout, headers: array<Byte>, mss: int, sendWnd: int, congWnd: int, userSize: int)
      requires layout.Valid() && headers.Length == layout.size
      ensures Valid() && this.layout == layout && this.headers == headers && this.mss == mss
      ensures this.sendWnd == sendWnd && this.congWnd == congWnd && this.userSize == userSize
    {
      this.layout, this.headers, this.mss := layout, headers, mss;
      this.sendWnd, this.congWnd, this.userSize := sendWnd, congWnd, userSize;
    }

    /** The smallest of the three windows. */
    function Window(): (r: int)
      reads this
      ensures r <= sendWnd && r <= congWnd && r <= userSize && (r == sendWnd || r == congWnd || r == userSize)
    {
      Min(Min(sendWnd, congWnd), userSize)
    }

    /** Storing a number in network byte order. */
    method Store(at: nat, n: nat, v: nat)
      requires Valid() && at + n <= layout.size
      modifies headers
      ensures headers[at..at + n] == NetworkOrder(v, n)
      ensures forall i :: 0 <= i < layout.size && !(at <= i < at + n) ==> headers[i] == old(headers[i])
    {
      var bytes := NetworkOrder(v, n);
      for i := 0 to n
        invariant forall j :: 0 <= j < i ==> headers[at + j] == bytes[j]
        invariant forall j :: 0 <= j < layout.size && !(at <= j < at + i) ==> headers[j] == old(headers[j])
      {
        headers[at + i] := bytes[i];
      }
    }

    /** `onload_delegated_send_tcp_update`: the length is stored modulo 65536. */
    method TcpUpdate(bytes: int, push: bool)
      requires Valid()
      modifies headers
      ensures UpdatedBytes(layout, old(headers[..]), headers[..], bytes, push)
    {
      var v := (bytes + layout.ipTcpLen) % TWO16;
      StoredTwo(v);
      Store(layout.ipLen, 2, v);
      assert forall i :: 0 <= i < 2 ==> headers[layout.ipLen + i] == NetworkOrder(v, 2)[i];
      headers[layout.Flags()] := SetPsh(headers[layout.Flags()], push);
    }

    /** `onload_delegated_send_tcp_advance`: the sequence number moves on modulo 2^32. */
    method TcpAdvance(bytes: int)
      requires Valid()
      modifies this, headers
      ensures sendWnd == old(sendWnd) - bytes && congWnd == old(congWnd) - bytes && userSize == old(userSize) - bytes
      ensures AdvancedBytes(layout, old(headers[..]), headers[..], bytes)
    {
      var v := (FourBytes(headers[..], layout.seqNo) + bytes) % TWO32;
      sendWnd, congWnd, userSize := sendWnd - bytes, congWnd - bytes, userSize - bytes;
      StoredFour(v);
      Store(layout.seqNo, 4, v);
      assert forall i :: 0 <= i < 4 ==> headers[layout.seqNo + i] == NetworkOrder(v, 4)[i];
    }

    /** An update, as the fields show it. */
    method SetFields(bytes: int, push: bool)
      requires Valid()
      modifies headers
      ensures MarkOf(layout, headers[..]) == Mark((bytes + layout.ipTcpLen) % TWO16, push)
      ensures SeqNo(layout, headers[..]) == old(SeqNo(layout, headers[..]))
      ensures SameHeader(layout, headers[..], old(headers[..]))
    {
      TcpUpdate(bytes, push);
      FieldsUpdated(layout, old(headers[..]), headers[..], bytes, push);
    }

    /** An advance, as the fields show it. */
    method MoveFields(bytes: int)
      requires Valid()
      modifies this, headers
      ensures sendWnd == old(sendWnd) - bytes && congWnd == old(congWnd) - bytes && userSize == old(userSize) - bytes
      ensures Window() == old(Window()) - bytes
      ensures SeqNo(layout, headers[..]) == (old(SeqNo(layout, headers[..])) + bytes) % TWO32
      ensures MarkOf(layout, headers[..]) == old(MarkOf(layout, headers[..]))
      ensures SameHeader(layout, headers[..], old(headers[..]))
    {
      TcpAdvance(bytes);
      FieldsAdvanced(layout, old(headers[..]), headers[..], bytes);
    }

    /** A transfer that starts from here. */
    ghost function Start(data: seq<Byte>): Plan
      reads this, headers
    {
      Plan(layout, headers[..], mss, data, Window())
    }

    /** Between packets: the windows and the sequence number count what is sent, the mark is the latest one
        set, and nothing else in the headers has changed. */
    ghost predicate InFlight(plan: Plan, script: seq<Choice>)
      requires Valid() && plan.Valid()
      reads this, headers
    {
      && plan.layout == layout && plan.mss == mss
      && Window() == plan.total - Total(script)
      && MarkOf(layout, headers[..]) == Stored(plan, script)
      && SeqNo(layout, headers[..]) == (SeqNo(layout, plan.headers) + Total(script)) % TWO32
      && SameHeader(layout, headers[..], plan.headers)
    }

    lemma Begins(data: seq<Byte>)
      requires Valid() && userSize <= |data|
      ensures InFlight(Start(data), [])
    {
      SeqNoBound(layout, headers[..]);
    }

    /** Composing a packet of any size, with or without an update. */
    method Compose(ghost plan: Plan, ghost script: seq<Choice>, data: seq<Byte>, sent: nat, c: Choice)
      returns (p: Packet)
      requires Valid() && plan.Valid() && plan.data == data && InFlight(plan, script)
      requires sent == Total(script) && sent + c.bytes <= |data|
      modifies headers
      ensures p.headers == headers[..]
      ensures Carries(plan, p, sent, c.bytes, Stored(plan, script + [c]))
    {
      if c.update {
        SetFields(c.bytes, c.push);
        SameTwice(layout, headers[..], old(headers[..]), plan.headers);
      }
      assert (script + [c])[..|script|] == script;
      p := Packet(headers[..], data[sent..sent + c.bytes]);
    }

    /** One round of a send loop that sends at most what the windows and a segment allow. */
    method SendOne(ghost plan: Plan, ghost script: seq<Choice>, data: seq<Byte>, sent: nat, c: Choice)
      returns (p: Packet)
      requires Valid() && plan.Valid() && plan.data == data && InFlight(plan, script)
      requires sent == Total(script) && 0 < c.bytes <= Min(Window(), mss)
      modifies this, headers
      ensures Carries(plan, p, sent, c.bytes, Stored(plan, script + [c]))
      ensures InFlight(plan, script + [c]) && Total(script + [c]) == sent + c.bytes
      ensures sendWnd == old(sendWnd) - c.bytes && congWnd == old(congWnd) - c.bytes
      ensures userSize == old(userSize) - c.bytes && Window() >= 0
    {
      p := Compose(plan, script, data, sent, c);
      assert (script + [c])[..|script|] == script;
      MoveFields(c.bytes);
      Advanced(plan, p, headers[..], sent, c.bytes, Stored(plan, script + [c]));
    }

    /** Any send loop: each round sends what the program chooses within the windows of the moment and the
        segment size, and updates the headers when the program chooses.  `windows` are the smallest windows
        after each packet. */
    method SendChosen(data: seq<Byte>, script: seq<Choice>) returns (packets: seq<Packet>, windows: seq<int>)
      requires Valid() && userSize <= |data| && Allowed(Start(data), script)
      modifies this, headers
      ensures Carried(old(Start(data)), script, packets)
      ensures |windows| == |script| && forall k :: WindowAt(old(Start(data)), script, windows, k)
      ensures sendWnd == old(sendWnd) - Total(script) && congWnd == old(congWnd) - Total(script)
      ensures userSize == old(userSize) - Total(script)
      ensures script != [] ==> sendWnd >= 0 && congWnd >= 0 && userSize >= 0
      ensures SameHeader(layout, headers[..], old(headers[..]))
    {
      ghost var plan := Start(data);
      Begins(data);
      packets, windows := [], [];
      var sent := 0;
      for k := 0 to |script|
        invariant sent == Total(script[..k]) && InFlight(plan, script[..k]) && Carried(plan, script[..k], packets)
        invariant |windows| == k && forall i :: WindowAt(plan, script, windows, i)
        invariant sendWnd == old(sendWnd) - sent && congWnd == old(congWnd) - sent && userSize == old(userSize) - sent
        invariant k > 0 ==> Window() >= 0
      {
        assert AllowedAt(plan, script, k);
        assert script[..k] + [script[k]] == script[..k + 1];
        var p := SendOne(plan, script[..k], data, sent, script[k]);
        CarriedNext(plan, script[..k], packets, script[k], p, sent, Stored(plan, script[..k + 1]));
        WindowNext(plan, script, windows, Window());
        packets, windows, sent := packets + [p], windows + [Window()], sent + script[k].bytes;
      }
      assert script[..|script|] == script;
    }

    /** The send loop of the sample: `wrong` says after how many packets, if ever, the program gives up. */
    method SendAll(data: seq<Byte>, wrong: set<nat>)
      returns (sent: nat, packets: seq<Packet>, ghost script: seq<Choice>)
      requires Valid() && userSize <= |data|
      modifies this, headers
      ensures SampleLoop(old(Start(data)), script) && Carried(old(Start(data)), script, packets)
      ensures old(Start(data)).Prepared() ==>
                forall k :: 0 <= k < |script| ==> RightAt(old(Start(data)), script, packets, k)
      ensures sent == 0 || (sent <= old(sendWnd) && sent <= old(congWnd) && sent <= old(userSize))
      ensures mss > 0 && old(sendWnd) > 0 && old(congWnd) > 0 && old(userSize) > 0 ==>
                sent == old(sendWnd) || sent == old(congWnd) || sent == old(userSize) || |packets| in wrong
      ensures sent == Total(script) <= |data| && Stream(packets) == data[..sent]
      ensures sendWnd == old(sendWnd) - sent && congWnd == old(congWnd) - sent && userSize == old(userSize) - sent
    {
      ghost var plan := Start(data);
      Begins(data);
      sent, packets, script := 0, [], [];
      while Min(Window(), mss) > 0
        invariant InFlight(plan, script) && SampleLoop(plan, script) && Carried(plan, script, packets)
        invariant sent == Total(script) && (sent == 0 || sent <= plan.total)
        invariant sendWnd == old(sendWnd) - sent && congWnd == old(congWnd) - sent && userSize == old(userSize) - sent
        decreases Window()
      {
        var bytes := Min(Window(), mss);
        var c := Choice(bytes, bytes != mss || bytes == Window(), true);
        SampleNext(plan, script, Window(), bytes);
        var p := SendOne(plan, script, data, sent, c);
        CarriedNext(plan, script, packets, c, p, sent, Stored(plan, script + [c]));
        packets, script, sent := packets + [p], script + [c], sent + bytes;
        if |packets| in wrong {
          break;
        }
      }
      SampleDone(plan, script, packets);
    }
  }
}
