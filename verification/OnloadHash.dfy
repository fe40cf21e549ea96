/** The hash functions of Onload's lookup tables, with the lemmas and propositions that
    their header argues for informally.

    An unsigned 32-bit word is the sequence of its bits, least significant first.  The host
    is little-endian, so `CI_BSWAP_LE32` is the identity and `CI_BSWAP_BE32` reverses the
    bytes. */
module OnloadHash {

  import opened Binary

  type Word = w: seq<bool> | |w| == 32 witness seq(32, _ => false)
  type Port = p: seq<bool> | |p| == 16 witness seq(16, _ => false)

  function Shr(x: Word, k: nat): (r: Word)
    ensures forall i :: 0 <= i < 32 ==> r[i] == (i + k < 32 && x[i + k])
  {
    seq(32, i requires 0 <= i < 32 => i + k < 32 && x[i + k])
  }

  /** `upper << 16 | lower`. */
  function Join(upper: Port, lower: Port): Word {
    lower + upper
  }

  /** Everything a lookup tuple holds but its local port. */
  datatype Tuple = Tuple(laddr: Word, raddr: Word, rport: Port, protocol: Word)

  /** The last two lines of `__onload_hash3`. */
  function Mix(h: Word): Word {
    var g := Xor(h, Shr(h, 16));
    Xor(g, Shr(g, 8))
  }

  /** `h` in `__onload_hash3` before it is mixed. */
  function Raw(t: Tuple, lport: Port): Word {
    Xor(Xor(Xor(Bswap32(t.raddr), t.laddr), Join(t.rport, lport)), t.protocol)
  }

  function Hash3(t: Tuple, lport: Port): Word {
    Mix(Raw(t, lport))
  }

  function Hash1(mask: Word, t: Tuple, lport: Port): Word {
    And(Hash3(t, lport), mask)
  }

  function Hash2(t: Tuple, lport: Port): Word {
    SetLowBit(Xor(Xor(Xor(t.laddr, t.raddr), Join(lport, t.rport)), t.protocol))
  }

  /** `x | 1`. */
  function SetLowBit(x: Word): Word {
    x[0 := true]
  }

  const ZERO: Word := seq(32, _ => false)

  /** Whether an odd number of the words has bit `i` set. */
  function OddlySet(words: seq<Word>, i: nat): bool
    requires i < 32
  {
    words != [] && (OddlySet(words[..|words| - 1], i) != words[|words| - 1][i])
  }

  /** `onload_addr_xor`, over the four words of an address. */
  method AddrXor(addr: seq<Word>) returns (r: Word)
    requires |addr| == 4
    ensures forall i :: 0 <= i < 32 ==> r[i] == OddlySet(addr, i)
  {
    r := ZERO;
    var n := 0;
    while n < 4
      invariant n <= 4 && forall i :: 0 <= i < 32 ==> r[i] == OddlySet(addr[..n], i)
    {
      assert addr[..n + 1][..n] == addr[..n];
      r := Xor(r, addr[n]);
      n := n + 1;
    }
    assert addr[..4] == addr;
  }

  /** Unsigned 32-bit addition. */
  function Add(x: Word, y: Word): Word {
    Bits(Value(x) + Value(y), 32)
  }

  /** `upper << 16 | low`. */
  function Joined(upper: Port, low: Word): (r: Word)
    ensures forall i :: 0 <= i < 32 ==> r[i] == (low[i] || (i >= 16 && upper[i - 16]))
  {
    seq(32, i requires 0 <= i < 32 => low[i] || (i >= 16 && upper[i - 16]))
  }

  /** `cplane_hash2`, from the folded addresses. */
  function CplaneHash2(laddr: Word, ifindex: Port, raddr: Word, tos: Word, iif: Word): Word {
    SetLowBit(Mix(Xor(Xor(raddr, Bswap32(Add(laddr, raddr))), Joined(ifindex, Add(iif, tos)))))
  }

  // ---------------------------------------------------------------------------------
  // Local port recovery
  // ---------------------------------------------------------------------------------

  function Bit(h: Word, i: nat): bool {
    i < 32 && h[i]
  }

  /** The expression the header gives for the mixing. */
  lemma MixBits(h: Word, i: nat)
    requires i < 32
    ensures Mix(h)[i] == (((Bit(h, i) != Bit(h, i + 8)) != Bit(h, i + 16)) != Bit(h, i + 24))
  {
    var g := Xor(h, Shr(h, 16));
    assert g[i] == (Bit(h, i) != Bit(h, i + 16));
    if i + 8 < 32 {
      assert g[i + 8] == (Bit(h, i + 8) != Bit(h, i + 24));
    }
  }

  function Unmix(h: Word): Word {
    Xor(h, Shr(h, 8))
  }

  /** Lemma 2 of the header: the mixing is a bijection, with this inverse. */
  lemma MixBijective(h: Word)
    ensures Unmix(Mix(h)) == h && Mix(Unmix(h)) == h
  {
    forall i | 0 <= i < 32
      ensures Unmix(Mix(h))[i] == h[i] && Mix(Unmix(h))[i] == h[i]
    {
      MixBits(h, i);
      if i + 8 < 32 {
        MixBits(h, i + 8);
      }
      MixBits(Unmix(h), i);
    }
  }

  /** Lemma 4: the upper half of the hash does not depend on the local port. */
  lemma UpperHalfIndependent(t: Tuple, p: Port, q: Port, i: nat)
    requires 16 <= i < 32
    ensures Hash3(t, p)[i] == Hash3(t, q)[i]
  {
    MixBits(Raw(t, p), i);
    MixBits(Raw(t, q), i);
    forall j | 16 <= j < 32
      ensures Raw(t, p)[j] == Raw(t, q)[j]
    {
    }
  }

  /** The local port, from a masked hash and the rest of the tuple. */
  function RecoverPort(masked: Word, t: Tuple): Port {
    var zero := seq(16, _ => false);
    var full := masked[..16] + Hash3(t, zero)[16..];
    Xor(Unmix(full), Raw(t, zero))[..16]
  }

  predicate CoversPort(mask: Word) {
    forall i :: 0 <= i < 16 ==> mask[i]
  }

  /** Proposition 5, and with a mask of all ones Proposition 3: when the mask covers the 16
      low bits the local port can be computed from the masked hash. */
  lemma PortRecovered(mask: Word, t: Tuple, lport: Port)
    requires CoversPort(mask)
    ensures RecoverPort(Hash1(mask, t, lport), t) == lport
  {
    var zero := seq(16, _ => false);
    var h := Hash3(t, lport);
    var full := Hash1(mask, t, lport)[..16] + Hash3(t, zero)[16..];
    forall i | 0 <= i < 32
      ensures full[i] == h[i]
    {
      if i >= 16 {
        UpperHalfIndependent(t, lport, zero, i);
      }
    }
    assert full == h;
    MixBijective(Raw(t, lport));
    forall i | 0 <= i < 16
      ensures Xor(Raw(t, lport), Raw(t, zero))[i] == lport[i]
    {
    }
  }

  /** Two tuples that differ only in their local port never share a masked hash. */
  ghost predicate LocalPortRecovery(mask: Word) {
    forall t: Tuple, p: Port, q: Port :: Hash1(mask, t, p) == Hash1(mask, t, q) ==> p == q
  }

  /** With an all-zero tuple the raw hash is the port. */
  lemma RawOfPort(t: Tuple, p: Port, i: nat)
    requires t == Tuple(ZERO, ZERO, seq(16, _ => false), ZERO) && i < 32
    ensures Raw(t, p)[i] == (i < 16 && p[i])
  {
    assert Bswap32(ZERO)[i] == false;
  }

  /** The ports 0 and `b` with `b - 8` differ in hash bit `b` only. */
  lemma OneBitApart(t: Tuple, p: Port, q: Port, b: nat, i: nat)
    requires t == Tuple(ZERO, ZERO, seq(16, _ => false), ZERO) && b < 16 && i < 32
    requires p == seq(16, _ => false)
    requires forall j :: 0 <= j < 16 ==> q[j] == (j == b || j + 8 == b)
    ensures Hash3(t, p)[i] == false && Hash3(t, q)[i] == (i == b)
  {
    MixBits(Raw(t, p), i);
    MixBits(Raw(t, q), i);
    forall j: nat | j < 32
      ensures !Raw(t, p)[j] && Raw(t, q)[j] == (j == b || j + 8 == b)
    {
      RawOfPort(t, p, j);
      RawOfPort(t, q, j);
    }
  }

  /** The condition of Proposition 5 is exact: any mask that leaves out one of the 16 low
      bits makes two ports collide. */
  lemma RecoveryExactly(mask: Word)
    ensures LocalPortRecovery(mask) <==> CoversPort(mask)
  {
    if CoversPort(mask) {
      forall t: Tuple, p: Port, q: Port | Hash1(mask, t, p) == Hash1(mask, t, q)
        ensures p == q
      {
        PortRecovered(mask, t, p);
        PortRecovered(mask, t, q);
      }
    } else {
      var b :| 0 <= b < 16 && !mask[b];
      var t := Tuple(ZERO, ZERO, seq(16, _ => false), ZERO);
      var p: Port, q: Port := seq(16, _ => false), seq(16, j => j == b || j + 8 == b);
      forall i | 0 <= i < 32
        ensures Hash1(mask, t, p)[i] == Hash1(mask, t, q)[i]
      {
        OneBitApart(t, p, q, b, i);
      }
      assert Hash1(mask, t, p) == Hash1(mask, t, q);
      assert p[b] != q[b];
    }
  }

  lemma RawBit(t: Tuple, p: Port, i: nat)
    requires i < 32
    ensures Raw(t, p)[i] == (((Bswap32(t.raddr)[i] != t.laddr[i]) != Join(t.rport, p)[i]) != t.protocol[i])
  {}

  lemma BswapTwice(x: Word)
    ensures Bswap32(Bswap32(x)) == x
  {
    var y := Bswap32(x);
    assert y[24..] == x[..8] && y[16..24] == x[8..16] && y[8..16] == x[16..24] && y[..8] == x[24..];
    assert x[..8] + x[8..16] + x[16..24] + x[24..] == x;
  }

  /** Tuples with the same hash before mixing differ in two of their parts or in none. */
  lemma RawDiffers(t: Tuple, p: Port, u: Tuple, q: Port)
    requires Raw(t, p) == Raw(u, q)
    ensures Bswap32(t.raddr) == Bswap32(u.raddr) && Join(t.rport, p) == Join(u.rport, q) && t.protocol == u.protocol ==>
      t.laddr == u.laddr
    ensures t.laddr == u.laddr && Join(t.rport, p) == Join(u.rport, q) && t.protocol == u.protocol ==>
      Bswap32(t.raddr) == Bswap32(u.raddr)
    ensures Bswap32(t.raddr) == Bswap32(u.raddr) && t.laddr == u.laddr && t.protocol == u.protocol ==>
      Join(t.rport, p) == Join(u.rport, q)
    ensures Bswap32(t.raddr) == Bswap32(u.raddr) && t.laddr == u.laddr && Join(t.rport, p) == Join(u.rport, q) ==>
      t.protocol == u.protocol
  {
    forall i: nat | i < 32
      ensures (((Bswap32(t.raddr)[i] != t.laddr[i]) != Join(t.rport, p)[i]) != t.protocol[i]) ==
              (((Bswap32(u.raddr)[i] != u.laddr[i]) != Join(u.rport, q)[i]) != u.protocol[i])
    {
      RawBit(t, p, i);
      RawBit(u, q, i);
    }
  }

  lemma JoinInjective(a: Port, b: Port, c: Port, d: Port)
    requires Join(a, b) == Join(c, d)
    ensures a == c && b == d
  {
    assert Join(a, b)[..16] == b && Join(a, b)[16..] == a;
  }

  /** Every part of a tuple counts: tuples that differ in one address, in the protocol, or in their
      pair of ports, and in nothing else, have different hashes. */
  lemma EveryPartCounts(t: Tuple, p: Port, u: Tuple, q: Port)
    requires Hash3(t, p) == Hash3(u, q)
    ensures p == q && u == t.(laddr := u.laddr) ==> t == u
    ensures p == q && u == t.(raddr := u.raddr) ==> t == u
    ensures p == q && u == t.(protocol := u.protocol) ==> t == u
    ensures u == t.(rport := u.rport) ==> t == u && p == q
  {
    MixBijective(Raw(t, p));
    MixBijective(Raw(u, q));
    RawDiffers(t, p, u, q);
    BswapTwice(t.raddr);
    BswapTwice(u.raddr);
    if u == t.(rport := u.rport) {
      JoinInjective(t.rport, p, u.rport, q);
    }
  }

  // ---------------------------------------------------------------------------------
  // Double hashing
  // ---------------------------------------------------------------------------------

  /** The `i`-th slot probed in a table of `2^k` slots. */
  function Probe(h1: nat, h2: nat, k: nat, i: nat): nat {
    (h1 + i * h2) % Pow2(k)
  }

  lemma LowBitIsOdd(x: Word)
    ensures Value(SetLowBit(x)) % 2 == 1
  {
    FirstBitIsParity(SetLowBit(x));
  }

  /** Both secondary hashes are odd. */
  lemma SecondaryHashesOdd(t: Tuple, lport: Port, laddr: Word, ifindex: Port, raddr: Word, tos: Word, iif: Word)
    ensures Value(Hash2(t, lport)) % 2 == 1
    ensures Value(CplaneHash2(laddr, ifindex, raddr, tos, iif)) % 2 == 1
  {
    LowBitIsOdd(Xor(Xor(Xor(t.laddr, t.raddr), Join(lport, t.rport)), t.protocol));
    LowBitIsOdd(CplaneHash2(laddr, ifindex, raddr, tos, iif));
    assert SetLowBit(CplaneHash2(laddr, ifindex, raddr, tos, iif)) == CplaneHash2(laddr, ifindex, raddr, tos, iif);
  }

  /** The step of a probe sequence has the ports in the opposite words: its upper half gives the local
      port, its lower half the remote port but for the bit that is always set. */
  lemma SecondaryPorts(t: Tuple, p: Port, u: Tuple, q: Port)
    requires Hash2(t, p) == Hash2(u, q) && u == t.(rport := u.rport)
    ensures p == q && t.rport[1..] == u.rport[1..]
  {
    forall i: nat | 1 <= i < 32
      ensures Join(p, t.rport)[i] == Join(q, u.rport)[i]
    {
      assert Hash2(t, p)[i] == (((t.laddr[i] != t.raddr[i]) != Join(p, t.rport)[i]) != t.protocol[i]);
      assert Hash2(u, q)[i] == (((u.laddr[i] != u.raddr[i]) != Join(q, u.rport)[i]) != u.protocol[i]);
    }
    assert forall i :: 0 <= i < 16 ==> p[i] == Join(p, t.rport)[16 + i] && q[i] == Join(q, u.rport)[16 + i];
    assert forall i :: 1 <= i < 16 ==> t.rport[i] == Join(p, t.rport)[i] && u.rport[i] == Join(q, u.rport)[i];
  }

  /** An odd factor can be cancelled modulo a power of two. */
  lemma {:induction false} CancelOdd(k: nat, d: int, h: nat, q: int) returns (r: int)
    requires h % 2 == 1 && d * h == Pow2(k) * q
    ensures d == Pow2(k) * r
  {
    if k == 0 {
      r := d;
    } else {
      var half := Pow2(k - 1);
      var m := h / 2;
      assert d * h == 2 * (d * m) + d by {
        assert h == 2 * m + 1;
        assert d * (2 * m + 1) == 2 * (d * m) + d;
      }
      assert Pow2(k) * q == 2 * (half * q);
      var e := half * q - d * m;
      assert d == 2 * e;
      assert e * h == half * q by {
        assert 2 * (e * h) == d * h;
      }
      r := CancelOdd(k - 1, e, h, q);
      assert d == 2 * (half * r) == Pow2(k) * r;
    }
  }

  /** Two probes of one slot are a multiple of the table size apart. */
  lemma SameSlot(h1: nat, h2: nat, k: nat, i: nat, j: nat) returns (r: int)
    requires h2 % 2 == 1 && i < j && Probe(h1, h2, k, i) == Probe(h1, h2, k, j)
    ensures j - i == Pow2(k) * r
  {
    var size := Pow2(k);
    var a, b := h1 + i * h2, h1 + j * h2;
    var p, q := a / size, b / size;
    Divided(a, size);
    Divided(b, size);
    assert size * (q - p) == size * q - size * p;
    assert (j - i) * h2 == j * h2 - i * h2;
    r := CancelOdd(k, j - i, h2, q - p);
  }

  /** No slot is probed twice in the first `2^k` steps. */
  lemma ProbesDiffer(h1: nat, h2: nat, k: nat, i: nat, j: nat)
    requires h2 % 2 == 1 && i < j < Pow2(k)
    ensures Probe(h1, h2, k, i) != Probe(h1, h2, k, j)
  {
    if Probe(h1, h2, k, i) == Probe(h1, h2, k, j) {
      var r := SameSlot(h1, h2, k, i, j);
      MultipleIsLarge(Pow2(k), r);
      assert false;
    }
  }

  lemma Distribute(h1: nat, i: nat, half: nat, h2: nat)
    ensures h1 + (i + half) * h2 == h1 + i * h2 + half * h2
  {
  }

  /** Every slot is probed. */
  lemma {:induction false} ProbeReaches(h1: nat, h2: nat, k: nat, slot: nat) returns (i: nat)
    requires h2 % 2 == 1 && slot < Pow2(k)
    ensures i < Pow2(k) && Probe(h1, h2, k, i) == slot
  {
    if k == 0 {
      i := 0;
    } else {
      var half := Pow2(k - 1);
      var low := if slot < half then slot else slot - half;
      i := ProbeReaches(h1, h2, k - 1, low);
      var x := h1 + i * h2;
      assert x % half == low;
      if x % (2 * half) != slot {
        Shifted(x, h2, half, low, slot);
        Distribute(h1, i, half, h2);
        i := i + half;
      }
    }
  }

  /** Which half of a table of `2 * half` a number falls in. */
  lemma WhichHalf(half: nat, q: nat, low: nat)
    requires low < half
    ensures (half * q + low) % (2 * half) == low + if q % 2 == 0 then 0 else half
  {
    var u := q / 2;
    if q % 2 == 0 {
      assert half * q == half * (2 * u) == (2 * half) * u;
      Remainder(half * q + low, 2 * half, u, low);
    } else {
      assert half * q == half * (2 * u + 1) == (2 * half) * u + half;
      Remainder(half * q + low, 2 * half, u, low + half);
    }
  }

  /** Going on by half the table moves to the other half. */
  lemma Shifted(x: nat, h: nat, half: nat, low: nat, slot: nat)
    requires half > 0 && h % 2 == 1 && x % half == low && x % (2 * half) != slot
    requires slot == low || slot == low + half
    ensures (x + half * h) % (2 * half) == slot
  {
    var q := x / half;
    Divided(x, half);
    WhichHalf(half, q, low);
    WhichHalf(half, q + h, low);
    assert half * (q + h) == half * q + half * h;
  }

  ghost predicate Visited(h1: nat, h2: nat, k: nat, slot: nat) {
    exists i: nat :: i < Pow2(k) && Probe(h1, h2, k, i) == slot
  }

  /** Double hashing visits every slot of a table of `2^k` exactly once in `2^k` steps. */
  lemma ProbeVisitsAll(h1: nat, h2: nat, k: nat)
    requires h2 % 2 == 1
    ensures forall slot: nat :: slot < Pow2(k) ==> Visited(h1, h2, k, slot)
    ensures forall i: nat, j: nat :: i < j < Pow2(k) ==> Probe(h1, h2, k, i) != Probe(h1, h2, k, j)
  {
    forall slot: nat | slot < Pow2(k)
      ensures Visited(h1, h2, k, slot)
    {
      var i := ProbeReaches(h1, h2, k, slot);
    }
    forall i: nat, j: nat | i < j < Pow2(k)
      ensures Probe(h1, h2, k, i) != Probe(h1, h2, k, j)
    {
      ProbesDiffer(h1, h2, k, i, j);
    }
  }

  lemma Doubled(p: nat, q: nat)
    ensures (2 * p) * q == 2 * (p * q)
  {
  }

  lemma {:induction false} Pow2Product(j: nat, k: nat)
    ensures Pow2(j + k) == Pow2(j) * Pow2(k)
  {
    if j > 0 {
      Pow2Product(j - 1, k);
      Doubled(Pow2(j - 1), Pow2(k));
    }
  }

  /** Probing with unsigned arithmetic of any width that can index the table, 32 bits in
      the source, makes no difference. */
  lemma WrapHarmless(h1: nat, h2: nat, k: nat, i: nat, width: nat)
    requires k <= width
    ensures (h1 + i * h2) % Pow2(width) % Pow2(k) == Probe(h1, h2, k, i)
  {
    Pow2Product(k, width - k);
    ModMod(h1 + i * h2, Pow2(k), Pow2(width - k));
  }

  lemma ModMod(x: nat, a: nat, b: nat)
    requires a > 0 && b > 0 && a * b > 0
    ensures x % (a * b) % a == x % a
  {
    var q, r := x / (a * b), x % (a * b);
    Divided(x, a * b);
    Divided(r, a);
    Regroup(a, b, q, r / a);
    Remainder(x, a, b * q + r / a, r % a);
  }

  lemma Regroup(a: nat, b: nat, q: nat, p: nat)
    ensures a * b * q + a * p == a * (b * q + p)
  {
  }

  /** For every tuple: the software filter table's probe sequence, and the control plane's
      within its rehash limit of a quarter of the mask. */
  lemma TuplesProbeAll(t: Tuple, lport: Port, laddr: Word, ifindex: Port, raddr: Word, tos: Word, iif: Word,
                       k: nat, h1: nat)
    ensures forall slot: nat :: slot < Pow2(k) ==> Visited(h1, Value(Hash2(t, lport)), k, slot)
    ensures forall i: nat, j: nat :: i < j <= (Pow2(k) - 1) / 4 ==>
      Probe(h1, Value(CplaneHash2(laddr, ifindex, raddr, tos, iif)), k, i) !=
      Probe(h1, Value(CplaneHash2(laddr, ifindex, raddr, tos, iif)), k, j)
  {
    SecondaryHashesOdd(t, lport, laddr, ifindex, raddr, tos, iif);
    ProbeVisitsAll(h1, Value(Hash2(t, lport)), k);
    ProbeVisitsAll(h1, Value(CplaneHash2(laddr, ifindex, raddr, tos, iif)), k);
  }
}
