/** Choosing the hardware port of a bonded interface for a flow: the ports in the mask are
    listed in ascending order and a hash of the flow picks one. */
module Bond {

  import opened Binary

  /** A mask of ports, as the sequence of its bits, least significant first. */
  type PortMask = m: seq<bool> | |m| == 16 witness seq(16, _ => false)

  const CI_HWPORT_ID_BAD: nat := 255

  /** Subtracting one, by borrowing through the low zeros. */
  function Decrement(bits: seq<bool>): (r: seq<bool>)
    ensures |r| == |bits|
  {
    if bits == [] then [] else [!bits[0]] + if bits[0] then bits[1..] else Decrement(bits[1..])
  }

  lemma {:induction false} DecrementValue(bits: seq<bool>)
    requires Value(bits) != 0
    ensures Value(Decrement(bits)) == Value(bits) - 1
  {
    var rest := bits[1..];
    assert ([!bits[0]] + rest)[1..] == rest;
    if !bits[0] {
      DecrementValue(rest);
      assert ([true] + Decrement(rest))[1..] == Decrement(rest);
    }
  }

  lemma AndParts(x: seq<bool>, y: seq<bool>)
    requires |x| == |y| > 0
    ensures And(x, y) == [x[0] && y[0]] + And(x[1..], y[1..])
  {}

  lemma AndSelf(x: seq<bool>)
    ensures And(x, x) == x
  {}

  /** A mask without its lowest bit. */
  function Cleared(bits: seq<bool>): (r: seq<bool>)
    ensures |r| == |bits|
  {
    if bits == [] then [] else [false] + if bits[0] then bits[1..] else Cleared(bits[1..])
  }

  /** `m & (m - 1)` clears the lowest bit. */
  lemma {:induction false} ClearLowest(bits: seq<bool>)
    ensures And(bits, Decrement(bits)) == Cleared(bits)
  {
    if bits != [] {
      AndParts(bits, Decrement(bits));
      AndSelf(bits[1..]);
      ClearLowest(bits[1..]);
    }
  }

  /** The step of the loops over a mask. */
  method ClearFirst(mask: PortMask) returns (r: PortMask)
    ensures r == Cleared(mask)
  {
    ClearLowest(mask);
    r := And(mask, Decrement(mask));
  }

  /** `cp_hwport_mask_first` of a mask that is not zero. */
  function First(bits: seq<bool>): (r: nat)
    requires Value(bits) != 0
    ensures r < |bits| && bits[r]
  {
    if bits[0] then 0 else 1 + First(bits[1..])
  }

  lemma {:induction false} FirstIsLowest(bits: seq<bool>, i: nat)
    requires Value(bits) != 0 && i < First(bits)
    ensures !bits[i]
  {
    if i > 0 {
      FirstIsLowest(bits[1..], i - 1);
    }
  }

  /** Only the lowest bit is cleared. */
  lemma {:induction false} ClearedBit(bits: seq<bool>, i: nat)
    requires Value(bits) != 0 && i < |bits|
    ensures Cleared(bits)[i] == (bits[i] && i != First(bits))
  {
    if !bits[0] {
      if i > 0 {
        ClearedBit(bits[1..], i - 1);
      }
    }
  }

  /** The positions of the bits set, counted from `base`, in ascending order. */
  function Ports(bits: seq<bool>, base: nat): (r: seq<nat>)
    ensures |r| <= |bits|
  {
    if bits == [] then [] else
    if bits[0] then [base] + Ports(bits[1..], base + 1) else Ports(bits[1..], base + 1)
  }

  /** The list holds every port of the mask and nothing else. */
  lemma {:induction false} PortsComplete(bits: seq<bool>, base: nat, p: nat)
    ensures p in Ports(bits, base) <==> base <= p < base + |bits| && bits[p - base]
  {
    if bits != [] {
      PortsComplete(bits[1..], base + 1, p);
    }
  }

  lemma {:induction false} PortsAscending(bits: seq<bool>, base: nat, i: nat, j: nat)
    requires i < j < |Ports(bits, base)|
    ensures Ports(bits, base)[i] < Ports(bits, base)[j]
  {
    var rest := Ports(bits[1..], base + 1);
    if !bits[0] {
      PortsAscending(bits[1..], base + 1, i, j);
    } else if i > 0 {
      PortsAscending(bits[1..], base + 1, i - 1, j - 1);
    } else {
      PortsComplete(bits[1..], base + 1, rest[j - 1]);
    }
  }

  lemma PortsShifted(bits: seq<bool>, base: nat)
    ensures Ports([false] + bits, base) == Ports(bits, base + 1)
  {
    assert ([false] + bits)[1..] == bits;
  }

  /** Clearing the lowest bit takes the first port off the list. */
  lemma {:induction false} PortsCleared(bits: seq<bool>, base: nat)
    requires Value(bits) != 0
    ensures Ports(bits, base) == [base + First(bits)] + Ports(Cleared(bits), base)
  {
    if bits[0] {
      assert Cleared(bits) == [false] + bits[1..];
      PortsShifted(bits[1..], base);
    } else {
      var rest := bits[1..];
      assert Cleared(bits) == [false] + Cleared(rest);
      PortsShifted(Cleared(rest), base);
      PortsCleared(rest, base + 1);
      assert base + First(bits) == base + 1 + First(rest);
    }
  }

  lemma {:induction false} PortsOfZero(bits: seq<bool>, base: nat)
    requires Value(bits) == 0
    ensures Ports(bits, base) == []
  {
    if bits != [] {
      PortsOfZero(bits[1..], base + 1);
    }
  }

  /** `oo_cp_hwport_bond_get`'s loop: the ports of the mask go into the table in ascending order. */
  method ListPorts(mask: PortMask) returns (table: array<nat>, count: nat)
    ensures fresh(table) && table.Length == 16 && count <= 16
    ensures table[..count] == Ports(mask, 0)
  {
    table := new nat[16];
    table[0] := CI_HWPORT_ID_BAD;
    count := 0;
    var hwports: PortMask := mask;
    ghost var list := Ports(mask, 0);
    while Value(hwports) != 0
      invariant count <= |list| && Ports(hwports, 0) == list[count..]
      invariant forall i :: 0 <= i < count ==> table[i] == list[i]
      decreases |list| - count
    {
      PortsCleared(hwports, 0);
      table[count] := First(hwports);
      hwports := ClearFirst(hwports);
      count := count + 1;
    }
    PortsOfZero(hwports, 0);
  }

  // The hash that picks one of the ports.

  lemma XorSymmetric(x: seq<bool>, y: seq<bool>)
    requires |x| == |y|
    ensures Xor(x, y) == Xor(y, x)
  {}

  function Zeros(n: nat): (r: seq<bool>)
    ensures |r| == n && forall i :: 0 <= i < n ==> !r[i]
  {
    seq(n, _ => false)
  }

  type Byte = b: seq<bool> | |b| == 8 witness Zeros(8)
  type Word16 = w: seq<bool> | |w| == 16 witness Zeros(16)
  type Word32 = w: seq<bool> | |w| == 32 witness Zeros(32)

  /** `cicp_hash_state`: what the hash reads of a packet: the last byte of each hardware address, and
      the addresses and ports as loaded from network-order fields on a little-endian host. */
  datatype Flow = Flow(kind: Kind, srcMac: Byte, dstMac: Byte, src: Word32, dst: Word32,
                       srcPort: Word16, dstPort: Word16)
  {
    /** The same flow seen in the other direction. */
    function Reversed(): Flow {
      Flow(kind, dstMac, srcMac, dst, src, dstPort, srcPort)
    }
  }

  datatype Kind = Kind(isIp: bool, isTcpUdp: bool, isFrag: bool)

  function Bswap16(x: Word16): Word16 {
    x[8..] + x[..8]
  }

  function Macs(f: Flow): Byte {
    Xor(f.srcMac, f.dstMac)
  }

  /** The low half of the addresses' difference in host order. */
  function Addresses(f: Flow): Word16 {
    Bswap32(Xor(f.src, f.dst))[..16]
  }

  function PortPair(f: Flow): Word16 {
    Bswap16(Xor(f.srcPort, f.dstPort))
  }

  /** Bits 8 to 23 of the product, which is all of it that the 16-bit result keeps. */
  function MixPorts(ports: Word16): Word16 {
    Bits(Value(ports) * 16777619 / 256, 16)
  }

  function Layer2(f: Flow, slaves: nat): nat
    requires slaves > 0
  {
    Value(Macs(f)) % slaves
  }

  function Layer23(f: Flow, slaves: nat): nat
    requires slaves > 0
  {
    if f.kind.isIp then Value(Xor(Addresses(f), Macs(f) + Zeros(8))) % slaves
    else Layer2(f, slaves)
  }

  function Layer34(f: Flow, slaves: nat): nat
    requires 0 < slaves < 0x10000
  {
    if !f.kind.isIp then Layer2(f, slaves)
    else if !f.kind.isFrag && f.kind.isTcpUdp then Value(Xor(MixPorts(PortPair(f)), Addresses(f))) % slaves
    else Value(Addresses(f)) % slaves
  }

  /** The bits of an interface type that name the hash in use. */
  const LAYER34: nat := 4
  const LAYER23: nat := 5

  type Encap = set<nat>

  function Hash(encap: Encap, f: Flow, slaves: nat): (r: nat)
    requires 0 < slaves < 0x10000
    ensures r < slaves
  {
    if LAYER34 in encap then Layer34(f, slaves)
    else if LAYER23 in encap then Layer23(f, slaves)
    else Layer2(f, slaves)
  }

  /** The port a flow leaves by. */
  function Chosen(encap: Encap, mask: PortMask, f: Flow): nat {
    var ports := Ports(mask, 0);
    if ports == [] then CI_HWPORT_ID_BAD else ports[Hash(encap, f, |ports|)]
  }

  /** `oo_cp_hwport_bond_get`: a port of the mask, or the bad port exactly when the mask is zero. */
  method BondGet(encap: Encap, hwports: PortMask, f: Flow) returns (port: nat)
    ensures port == Chosen(encap, hwports, f)
    ensures Value(hwports) == 0 ==> port == CI_HWPORT_ID_BAD
    ensures Value(hwports) != 0 ==> port < 16 && hwports[port]
  {
    if Value(hwports) == 0 {
      PortsOfZero(hwports, 0);
      return CI_HWPORT_ID_BAD;
    }
    PortsCleared(hwports, 0);
    var table, count := ListPorts(hwports);
    assert count == |Ports(hwports, 0)|;
    var index := Hash(encap, f, count);
    assert table[..count][index] == table[index];
    port := table[index];
    PortsComplete(hwports, 0, port);
  }

  /** Both directions of a connection use the same port, whatever the hash. */
  lemma BothDirections(encap: Encap, mask: PortMask, f: Flow)
    ensures Chosen(encap, mask, f) == Chosen(encap, mask, f.Reversed())
  {
    XorSymmetric(f.srcMac, f.dstMac);
    XorSymmetric(f.src, f.dst);
    XorSymmetric(f.srcPort, f.dstPort);
  }

  lemma XorZero(x: seq<bool>)
    ensures Xor(x, Zeros(|x|)) == x == Xor(Zeros(|x|), x)
  {}

  lemma {:induction false} ZeroValue(n: nat)
    ensures Value(Zeros(n)) == 0 && Bits(0, n) == Zeros(n)
  {
    if n > 0 {
      ZeroValue(n - 1);
      assert Zeros(n)[1..] == Zeros(n - 1);
    }
  }

  lemma {:induction false} BitsValue(v: nat, n: nat)
    requires v == 0 || v < 2 * n
    ensures Value(Bits(v, n)) == v
  {
    if n > 0 {
      BitsValue(v / 2, n - 1);
    }
  }

  /** A flow of the given kind whose hash is `k`. */
  function Reaching(kind: Kind, encap: Encap, k: nat): Flow {
    if kind.isIp && LAYER34 in encap
    then Flow(kind, Zeros(8), Zeros(8), Zeros(16) + Bswap16(Bits(k, 16)), Zeros(32), Zeros(16), Zeros(16))
    else Flow(kind, Bits(k, 8), Zeros(8), Zeros(32), Zeros(32), Zeros(16), Zeros(16))
  }
  /** With equal ports the port hash vanishes. */
  lemma EqualPorts(f: Flow)
    requires f.srcPort == f.dstPort == Zeros(16)
    ensures MixPorts(PortPair(f)) == Zeros(16)
  {
    XorZero(f.srcPort);
    assert Bswap16(f.srcPort) == Zeros(16);
    ZeroValue(16);
  }

  lemma {:induction false} ValuePadded(x: seq<bool>, n: nat)
    ensures Value(x + Zeros(n)) == Value(x)
  {
    if x == [] {
      ZeroValue(n);
      assert x + Zeros(n) == Zeros(n);
    } else {
      ValuePadded(x[1..], n);
      assert (x + Zeros(n))[1..] == x[1..] + Zeros(n);
    }
  }

  lemma SwapTwice(w: Word16)
    ensures Bswap32(Zeros(16) + Bswap16(w))[..16] == w
  {
    var x := Zeros(16) + Bswap16(w);
    assert x[24..] == w[..8] && x[16..24] == w[8..];
  }

  lemma SwapZero()
    ensures Bswap32(Zeros(32))[..16] == Zeros(16)
  {
    var z := Zeros(32);
    assert z[24..] + z[16..24] == Zeros(16);
    assert Bswap32(z)[..16] == z[24..] + z[16..24];
  }

  lemma ByAddress(kind: Kind, encap: Encap, k: nat)
    requires kind.isIp && LAYER34 in encap && k < 16
    ensures Value(Addresses(Reaching(kind, encap, k))) == k
  {
    XorZero(Reaching(kind, encap, k).src);
    SwapTwice(Bits(k, 16));
    BitsValue(k, 16);
  }

  lemma ByMac(kind: Kind, encap: Encap, k: nat)
    requires !(kind.isIp && LAYER34 in encap) && k < 16
    ensures Value(Macs(Reaching(kind, encap, k))) == k
    ensures Addresses(Reaching(kind, encap, k)) == Zeros(16)
  {
    var f := Reaching(kind, encap, k);
    XorZero(f.srcMac);
    XorZero(f.src);
    BitsValue(k, 8);
    SwapZero();
  }

  lemma SmallMod(v: nat, n: nat)
    requires v < n
    ensures v % n == v
  {}

  lemma HashByAddress(encap: Encap, f: Flow, slaves: nat)
    requires f.kind.isIp && LAYER34 in encap && MixPorts(PortPair(f)) == Zeros(16)
    requires Value(Addresses(f)) < slaves < 0x10000
    ensures Hash(encap, f, slaves) == Value(Addresses(f))
  {
    XorZero(Addresses(f));
    SmallMod(Value(Addresses(f)), slaves);
  }

  lemma HashByMac(encap: Encap, f: Flow, slaves: nat)
    requires !(f.kind.isIp && LAYER34 in encap) && Addresses(f) == Zeros(16)
    requires Value(Macs(f)) < slaves < 0x10000
    ensures Hash(encap, f, slaves) == Value(Macs(f))
  {
    XorZero(Macs(f) + Zeros(8));
    ValuePadded(Macs(f), 8);
    SmallMod(Value(Macs(f)), slaves);
  }

  lemma ReachingHash(kind: Kind, encap: Encap, k: nat, slaves: nat)
    requires k < slaves <= 16
    ensures Hash(encap, Reaching(kind, encap, k), slaves) == k
  {
    var f := Reaching(kind, encap, k);
    if kind.isIp && LAYER34 in encap {
      ByAddress(kind, encap, k);
      EqualPorts(f);
      HashByAddress(encap, f, slaves);
    } else {
      ByMac(kind, encap, k);
      HashByMac(encap, f, slaves);
    }
  }

  /** The hash leaves no port of the bond idle: flows of every kind reach each of them. */
  lemma EveryPortUsed(kind: Kind, encap: Encap, mask: PortMask, port: nat)
    requires port < 16 && mask[port]
    ensures exists f: Flow :: f.kind == kind && Chosen(encap, mask, f) == port
  {
    PortsComplete(mask, 0, port);
    var k :| 0 <= k < |Ports(mask, 0)| && Ports(mask, 0)[k] == port;
    ReachingHash(kind, encap, k, |Ports(mask, 0)|);
    assert Reaching(kind, encap, k).kind == kind;
  }

  // For two ports the TCP and UDP hash must not follow the parity of the source port, since the
  // kernel allocates ports of one parity.

  lemma XorCancels(x: seq<bool>, y: seq<bool>)
    requires |x| == |y|
    ensures Xor(Xor(x, y), y) == x
  {}

  /** The source port that makes the ports' difference `d`. */
  function WithDifference(f: Flow, d: Word16): Flow {
    f.(srcPort := Xor(Bswap16(d), f.dstPort))
  }

  lemma Difference(f: Flow, d: Word16)
    ensures PortPair(WithDifference(f, d)) == d
    ensures Bswap16(WithDifference(f, d).srcPort)[0] == (d[0] != Bswap16(f.dstPort)[0])
  {
    XorCancels(Bswap16(d), f.dstPort);
  }

  lemma HashOfTwo(encap: Encap, f: Flow)
    requires f.kind == Kind(true, true, false) && LAYER34 in encap
    ensures Hash(encap, f, 2) == if MixPorts(PortPair(f))[0] != Addresses(f)[0] then 1 else 0
  {
    var mixed := Xor(MixPorts(PortPair(f)), Addresses(f));
    FirstBitIsParity(mixed);
  }

  lemma MixedParity(v: nat)
    requires v < 4
    ensures MixPorts(Bits(v, 16))[0] == (v == 1 || v == 2)
  {
    BitsValue(v, 16);
    MixedBit(v);
  }

  lemma MixedBit(v: nat)
    requires v < 4
    ensures v * 16777619 / 256 % 2 == if v == 1 || v == 2 then 1 else 0
  {}

  /** Source port `s`, of the given parity in host order, leaves by the port at `index` of the pair. */
  predicate Leaves(encap: Encap, f: Flow, odd: bool, index: nat, s: Word16) {
    Bswap16(s)[0] == odd && Hash(encap, f.(srcPort := s), 2) == index
  }

  lemma DifferenceLeaves(encap: Encap, f: Flow, odd: bool, v: nat)
    requires f.kind == Kind(true, true, false) && LAYER34 in encap && v < 4
    requires (v % 2 == 1) == (odd != Bswap16(f.dstPort)[0])
    ensures Leaves(encap, f, odd, if (v == 1 || v == 2) != Addresses(f)[0] then 1 else 0,
                   WithDifference(f, Bits(v, 16)).srcPort)
  {
    var g := WithDifference(f, Bits(v, 16));
    Difference(f, Bits(v, 16));
    MixedParity(v);
    HashOfTwo(encap, g);
    assert g == f.(srcPort := g.srcPort);
  }

  /** Whatever the flow and the parity, source ports of that parity reach both ports of a pair. */
  lemma ParityDoesNotDecide(encap: Encap, f: Flow, odd: bool, index: nat)
    requires f.kind == Kind(true, true, false) && LAYER34 in encap && index < 2
    ensures exists s: Word16 :: Leaves(encap, f, odd, index, s)
  {
    var mixed := (index == 1) != Addresses(f)[0];
    var v: nat := if Bswap16(f.dstPort)[0] != odd then (if mixed then 1 else 3) else if mixed then 2 else 0;
    DifferenceLeaves(encap, f, odd, v);
  }

  /** The hash may read the transport ports only of an unfragmented TCP or UDP packet under the
      layer 3+4 mode: other packets, fragments among them, need not have any. */
  predicate ReadsPorts(encap: Encap, k: Kind) {
    LAYER34 in encap && k.isIp && k.isTcpUdp && !k.isFrag
  }

  lemma FragmentsTogether(encap: Encap, mask: PortMask, f: Flow, g: Flow)
    requires !ReadsPorts(encap, f.kind) && !ReadsPorts(encap, g.kind) && f.kind.isIp == g.kind.isIp
    requires f == g.(kind := f.kind, srcPort := f.srcPort, dstPort := f.dstPort)
    ensures Chosen(encap, mask, f) == Chosen(encap, mask, g)
  {}

  /** Without the layer 2+3 and 3+4 modes only the hardware addresses are read; under layer 3+4 those of
      an IP packet are not. */
  lemma LayersRead(encap: Encap, mask: PortMask, f: Flow, g: Flow)
    ensures LAYER34 !in encap && LAYER23 !in encap && f.srcMac == g.srcMac && f.dstMac == g.dstMac ==>
      Chosen(encap, mask, f) == Chosen(encap, mask, g)
    ensures LAYER34 in encap && f.kind.isIp && g == f.(srcMac := g.srcMac, dstMac := g.dstMac) ==>
      Chosen(encap, mask, f) == Chosen(encap, mask, g)
  {}

  /** `cp_get_hwports`: the ports of the mask whose rows are in use. */
  method GetHwports(free: seq<bool>, hwports: PortMask) returns (all: PortMask)
    requires forall i :: 0 <= i < 16 && hwports[i] ==> i < |free|
    ensures forall i :: 0 <= i < 16 ==> all[i] == (hwports[i] && !free[i])
  {
    all := seq(16, _ => false);
    var rest: PortMask := hwports;
    while Value(rest) != 0
      invariant forall i :: 0 <= i < 16 && rest[i] ==> hwports[i] && !all[i]
      invariant forall i :: 0 <= i < 16 && !rest[i] ==> all[i] == (hwports[i] && !free[i])
      decreases Value(rest)
    {
      var id := First(rest);
      var before := rest;
      rest := ClearFirst(rest);
      ClearedSmaller(before);
      forall i | 0 <= i < 16
        ensures rest[i] == (before[i] && i != id)
      {
        ClearedBit(before, i);
      }
      if !free[id] {
        all := all[id := true];
      }
    }
    forall i | 0 <= i < 16
      ensures !rest[i]
    {
      ZeroHasNoBit(rest, i);
    }
  }

  lemma {:induction false} ClearedSmaller(bits: seq<bool>)
    requires Value(bits) != 0
    ensures Value(Cleared(bits)) < Value(bits)
  {
    if !bits[0] {
      ClearedSmaller(bits[1..]);
    }
  }

  lemma {:induction false} ZeroHasNoBit(bits: seq<bool>, i: nat)
    requires Value(bits) == 0 && i < |bits|
    ensures !bits[i]
  {
    if i > 0 {
      ZeroHasNoBit(bits[1..], i - 1);
    }
  }
}
