/** What the hash of a bonded interface is, in bits of the packet.

    Bit 4 of the interface type selects the layer 3+4 hash and bit 5 the layer 2+3 hash.  Addresses and ports are
    held as loaded from network order, so bit `i` in host order is in the byte counted from the other end. */
module BondHash {
  import opened Binary
  import opened Bond

  /** Bit `i` of the last bytes of the two hardware addresses, exclusive-ored. */
  predicate MacBit(f: Flow, i: nat) {
    i < 8 && f.srcMac[i] != f.dstMac[i]
  }

  /** Bit `i` of the two addresses in host order, exclusive-ored. */
  predicate AddressBit(f: Flow, i: nat)
    requires i < 16
  {
    var at := if i < 8 then 24 + i else 8 + i;
    f.src[at] != f.dst[at]
  }

  /** The exclusive or of the two ports in host order, as a number. */
  function PortNumber(f: Flow): nat {
    Value(seq(16, i requires 0 <= i < 16 =>
      var at := if i < 8 then 8 + i else i - 8;
      f.srcPort[at] != f.dstPort[at]))
  }

  /** Bit `i` of a number. */
  predicate BitOf(v: nat, i: nat) {
    v / Pow2(i) % 2 == 1
  }

  /** Bit `i` of what is divided by the number of ports. */
  predicate PacketBit(encap: Encap, f: Flow, i: nat)
    requires i < 16
  {
    if f.kind.isIp && 4 in encap then
      AddressBit(f, i) != (f.kind.isTcpUdp && !f.kind.isFrag && BitOf(PortNumber(f) * 16777619, i + 8))
    else if f.kind.isIp && 5 in encap then MacBit(f, i) != AddressBit(f, i)
    else MacBit(f, i)
  }

  /** `w` is what is divided. */
  ghost predicate Divided16(encap: Encap, f: Flow, w: seq<bool>) {
    |w| == 16 && forall i :: 0 <= i < 16 ==> w[i] == PacketBit(encap, f, i)
  }

  lemma {:induction false} PowDivide(v: nat, j: nat, i: nat)
    ensures v / Pow2(j) / Pow2(i) == v / Pow2(j + i)
  {
    if j > 0 {
      DivideTwice(v, Pow2(j - 1));
      PowDivide(v / 2, j - 1, i);
      DivideTwice(v, Pow2(j - 1 + i));
    }
  }

  lemma AddressBits(f: Flow, i: nat)
    requires i < 16
    ensures Addresses(f)[i] == AddressBit(f, i)
  {}

  lemma PortNumberIs(f: Flow)
    ensures Value(PortPair(f)) == PortNumber(f)
  {
    assert PortPair(f) == seq(16, i requires 0 <= i < 16 =>
      var at := if i < 8 then 8 + i else i - 8;
      f.srcPort[at] != f.dstPort[at]);
  }

  /** The 16 bits kept of the product are its bits from 8 on. */
  lemma ProductBits(f: Flow, i: nat)
    requires i < 16
    ensures MixPorts(PortPair(f))[i] == BitOf(PortNumber(f) * 16777619, i + 8)
  {
    PortNumberIs(f);
    BitsFrom8(PortNumber(f) * 16777619, i);
  }

  lemma BitsFrom8(v: nat, i: nat)
    requires i < 16
    ensures Bits(v / 256, 16)[i] == BitOf(v, i + 8)
  {
    BitsAt(v / 256, 16, i);
    assert Pow2(8) == 256;
    PowDivide(v, 8, i);
  }

  lemma MacWord(f: Flow, w: seq<bool>)
    requires |w| == 16 && forall i :: 0 <= i < 16 ==> w[i] == MacBit(f, i)
    ensures w == Macs(f) + Zeros(8) && Value(w) == Value(Macs(f))
  {
    assert w == Macs(f) + Zeros(8);
    ValuePadded(Macs(f), 8);
  }

  /** A word whose bits are those of two words, exclusive-ored. */
  lemma XorWord(x: seq<bool>, y: seq<bool>, w: seq<bool>)
    requires |w| == |x| == |y| && forall i :: 0 <= i < |w| ==> w[i] == (x[i] != y[i])
    ensures w == Xor(x, y)
  {}

  lemma Word34(encap: Encap, f: Flow, w: seq<bool>)
    requires Divided16(encap, f, w) && f.kind.isIp && 4 in encap
    ensures w == if !f.kind.isFrag && f.kind.isTcpUdp then Xor(MixPorts(PortPair(f)), Addresses(f)) else Addresses(f)
  {
    forall i | 0 <= i < 16
      ensures Addresses(f)[i] == AddressBit(f, i)
      ensures MixPorts(PortPair(f))[i] == BitOf(PortNumber(f) * 16777619, i + 8)
      ensures w[i] == PacketBit(encap, f, i)
    {
      AddressBits(f, i);
      ProductBits(f, i);
    }
    if !f.kind.isFrag && f.kind.isTcpUdp {
      XorWord(MixPorts(PortPair(f)), Addresses(f), w);
    } else {
      assert w == Addresses(f);
    }
  }

  lemma Word23(encap: Encap, f: Flow, w: seq<bool>)
    requires Divided16(encap, f, w) && f.kind.isIp && 4 !in encap && 5 in encap
    ensures w == Xor(Addresses(f), Macs(f) + Zeros(8))
  {
    forall i | 0 <= i < 16
      ensures w[i] == (Addresses(f)[i] != (Macs(f) + Zeros(8))[i])
    {
      AddressBits(f, i);
    }
    XorWord(Addresses(f), Macs(f) + Zeros(8), w);
  }

  /** For every number of ports, mode and packet: the index is the number whose bits are these, modulo the number
      of ports. */
  lemma HashIs(encap: Encap, f: Flow, slaves: nat, w: seq<bool>)
    requires 0 < slaves < 0x10000 && Divided16(encap, f, w)
    ensures Hash(encap, f, slaves) == Value(w) % slaves
  {
    if f.kind.isIp && 4 in encap {
      Word34(encap, f, w);
    } else if f.kind.isIp && 5 in encap {
      Word23(encap, f, w);
    } else {
      MacWord(f, w);
    }
  }

  lemma {:induction false} ValueBit(w: seq<bool>, i: nat)
    requires i < |w|
    ensures BitOf(Value(w), i) == w[i]
  {
    var rest := Value(w[1..]);
    if i == 0 {
      FirstBitIsParity(w);
    } else {
      ValueBit(w[1..], i - 1);
      DivideTwice(Value(w), Pow2(i - 1));
      Remainder(Value(w), 2, rest, if w[0] then 1 else 0);
    }
  }

  lemma Twice(x: nat, y: nat)
    ensures (2 * x) * y == 2 * (x * y)
  {}

  /** A number is its low bits and, that many places up, the others. */
  lemma {:induction false} ValueSplit(w: seq<bool>, j: nat)
    requires j <= |w|
    ensures Value(w[..j]) < Pow2(j)
    ensures Value(w) == Pow2(j) * Value(w[j..]) + Value(w[..j])
  {
    if j == 0 {
      assert w[0..] == w;
    } else {
      ValueSplit(w[1..], j - 1);
      assert w[1..][..j - 1] == w[..j][1..] && w[1..][j - 1..] == w[j..];
      assert Value(w[..j]) == (if w[0] then 1 else 0) + 2 * Value(w[..j][1..]);
      Twice(Pow2(j - 1), Value(w[j..]));
    }
  }

  lemma {:induction false} PowSmall(j: nat)
    requires j < 16
    ensures Pow2(j) <= 0x8000
    decreases 16 - j
  {
    if j < 15 {
      PowSmall(j + 1);
    } else {
      assert Pow2(15) == 0x8000;
    }
  }

  /** With `2^j` ports, bit `i` of the index is bit `i` of the packet. */
  lemma IndexBits(encap: Encap, f: Flow, j: nat, i: nat)
    requires i < j < 16
    ensures Pow2(j) < 0x10000
    ensures BitOf(Hash(encap, f, Pow2(j)), i) == PacketBit(encap, f, i)
  {
    PowSmall(j);
    var w := seq(16, k requires 0 <= k < 16 => PacketBit(encap, f, k));
    HashIs(encap, f, Pow2(j), w);
    ValueSplit(w, j);
    Remainder(Value(w), Pow2(j), Value(w[j..]), Value(w[..j]));
    ValueBit(w[..j], i);
  }

  /** The port chosen is the one at that place among the ports of the mask, in ascending order; 255 for none. */
  lemma PortIs(encap: Encap, mask: PortMask, f: Flow, w: seq<bool>)
    requires Divided16(encap, f, w)
    ensures var ports := Ports(mask, 0);
      Chosen(encap, mask, f) == if ports == [] then 255 else ports[Value(w) % |ports|]
  {
    if Ports(mask, 0) != [] {
      HashIs(encap, f, |Ports(mask, 0)|, w);
    }
  }
}
