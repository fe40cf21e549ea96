/** Address prefixes of the forward table.

    An address is two 64-bit words of memory on a little-endian host.  IPv4 addresses are held in their
    IPv6-mapped form.  A prefix of length `p` is about the first `p` bits in network
    order, which runs through the bytes from the first, each byte from its top bit. */
module Prefix {

  import opened Binary
  import opened Word64

  type Addr = a: seq<Word> | |a| == 2 witness [seq(64, _ => false), seq(64, _ => false)]

  /** The position in its word of the `i`-th bit in network order. */
  function Place(i: nat): nat
    requires i < 64
  {
    8 * (i / 8) + 7 - i % 8
  }

  lemma PlaceInvolution(i: nat)
    requires i < 64
    ensures Place(i) < 64 && Place(Place(i)) == i
  {
  }

  /** The `i`-th bit of an address in network order. */
  function NetBit(a: Addr, i: nat): bool
    requires i < 128
  {
    PlaceInvolution(i % 64);
    a[i / 64][Place(i % 64)]
  }

  /** `0xffffffffffffffff << k`. */
  function OnesShifted(k: nat): (r: Word)
    ensures forall i :: 0 <= i < 64 ==> r[i] == (i >= k)
  {
    seq(64, i => i >= k)
  }

  /** `CI_BSWAP_BE64` on a little-endian host. */
  function Bswap(x: Word): (r: Word)
    ensures forall i :: 0 <= i < 64 ==> r[i] == x[56 - 8 * (i / 8) + i % 8]
  {
    seq(64, i requires 0 <= i < 64 => x[56 - 8 * (i / 8) + i % 8])
  }

  /** The word that a prefix ends in. */
  lemma LastWord(left: nat, i: nat)
    requires left <= 64 && i < 64
    ensures Place(i) < 64 && Bswap(OnesShifted(64 - left))[Place(i)] == (i < left)
  {
    PlaceInvolution(i);
    assert 56 - 8 * (Place(i) / 8) + Place(i) % 8 == 63 - i;
  }

  /** The mask of a prefix: its first `pfx` bits in network order. */
  ghost predicate IsMask(m: Addr, pfx: nat) {
    forall i :: 0 <= i < 128 ==> NetBit(m, i) == (i < pfx)
  }

  /** `cp_ip6_pfx2mask`. */
  method Pfx2Mask(pfx: nat) returns (m: Addr)
    requires pfx <= 128
    ensures IsMask(m, pfx) && m == Mask(pfx)
  {
    m := [ZERO, ZERO];
    var i, left := 0, pfx;
    while left > 64
      invariant 0 <= i <= 1 && left + 64 * i == pfx
      invariant forall w :: 0 <= w < 2 ==> m[w] == if w < i then ONES else ZERO
    {
      m := m[i := ONES];
      i := i + 1;
      left := left - 64;
    }
    if left != 0 {
      m := m[i := Bswap(OnesShifted(64 - left))];
    }
    forall k | 0 <= k < 128
      ensures NetBit(m, k) == (k < pfx)
    {
      LastWord(left, k % 64);
    }
    MaskBits(pfx);
    SameBits(m, Mask(pfx));
  }

  /** A word of the mask, and the mask, as functions for specifications. */
  function MaskWord(pfx: nat, w: nat): (r: Word)
    ensures forall p :: 0 <= p < 64 ==> r[p] == (64 * w + Place(p) < pfx)
  {
    seq(64, p requires 0 <= p < 64 => 64 * w + Place(p) < pfx)
  }

  function Mask(pfx: nat): Addr {
    [MaskWord(pfx, 0), MaskWord(pfx, 1)]
  }

  lemma MaskBits(pfx: nat)
    ensures IsMask(Mask(pfx), pfx)
  {
    forall i | 0 <= i < 128
      ensures NetBit(Mask(pfx), i) == (i < pfx)
    {
      PlaceInvolution(i % 64);
    }
  }

  /** Which network bit is at a position of a word. */
  lemma AtPlace(a: Addr, w: nat, p: nat)
    requires w < 2 && p < 64
    ensures Place(p) < 64 && NetBit(a, 64 * w + Place(p)) == a[w][p]
  {
    PlaceInvolution(p);
    assert (64 * w + Place(p)) / 64 == w && (64 * w + Place(p)) % 64 == Place(p);
  }

  /** Addresses with the same bits in network order are equal. */
  lemma SameBits(a: Addr, b: Addr)
    requires forall i :: 0 <= i < 128 ==> NetBit(a, i) == NetBit(b, i)
    ensures a == b
  {
    SameWord(a, b, 0);
    SameWord(a, b, 1);
  }

  lemma SameWord(a: Addr, b: Addr, w: nat)
    requires w < 2 && forall i :: 0 <= i < 128 ==> NetBit(a, i) == NetBit(b, i)
    ensures a[w] == b[w]
  {
    forall p | 0 <= p < 64
      ensures a[w][p] == b[w][p]
    {
      AtPlace(a, w, p);
      AtPlace(b, w, p);
    }
  }

  /** `cp_addr_apply_pfx`. */
  function Apply(a: Addr, pfx: nat): Addr
    requires pfx <= 128
  {
    [And(a[0], Mask(pfx)[0]), And(a[1], Mask(pfx)[1])]
  }

  lemma ApplyBits(a: Addr, pfx: nat)
    requires pfx <= 128
    ensures forall i :: 0 <= i < 128 ==> NetBit(Apply(a, pfx), i) == (NetBit(a, i) && i < pfx)
  {
    MaskBits(pfx);
    forall i | 0 <= i < 128
      ensures NetBit(Apply(a, pfx), i) == (NetBit(a, i) && NetBit(Mask(pfx), i))
    {
      PlaceInvolution(i % 64);
    }
  }

  /** `ci_ipx_addr_sh_masked_eq`. */
  predicate MaskedEq(a: Addr, b: Addr, m: Addr) {
    IsZero(Difference(a, b, m))
  }

  /** `cp_ip6_pfx_match`. */
  predicate Match(a: Addr, b: Addr, pfx: nat)
    requires pfx <= 128
  {
    MaskedEq(a, b, Mask(pfx))
  }

  predicate Agree(a: Addr, b: Addr, pfx: nat) {
    forall i :: 0 <= i < 128 && i < pfx ==> NetBit(a, i) == NetBit(b, i)
  }

  /** The word that `ci_ipx_addr_sh_masked_cmp` returns. */
  function Difference(a: Addr, b: Addr, m: Addr): Word {
    Or(And(Xor(a[0], b[0]), m[0]), And(Xor(a[1], b[1]), m[1]))
  }

  lemma DifferenceBit(a: Addr, b: Addr, m: Addr, w: nat, p: nat)
    requires w < 2 && p < 64 && m[w][p] && a[w][p] != b[w][p]
    ensures Difference(a, b, m)[p]
  {
  }

  lemma MaskedEqBits(a: Addr, b: Addr, m: Addr)
    ensures MaskedEq(a, b, m) <==> forall i :: 0 <= i < 128 && NetBit(m, i) ==> NetBit(a, i) == NetBit(b, i)
  {
    forall i | 0 <= i < 128 && NetBit(m, i) && NetBit(a, i) != NetBit(b, i)
      ensures !MaskedEq(a, b, m)
    {
      PlaceInvolution(i % 64);
      DifferenceBit(a, b, m, i / 64, Place(i % 64));
    }
    if !MaskedEq(a, b, m) {
      var p :| 0 <= p < 64 && Difference(a, b, m)[p];
      var w := if m[0][p] && a[0][p] != b[0][p] then 0 else 1;
      assert m[w][p] && a[w][p] != b[w][p];
      AtPlace(a, w, p);
      AtPlace(b, w, p);
      AtPlace(m, w, p);
      assert NetBit(m, 64 * w + Place(p));
    }
  }

  /** Matching is agreement on the first `pfx` bits in network order. */
  lemma MatchExactly(a: Addr, b: Addr, pfx: nat)
    requires pfx <= 128
    ensures Match(a, b, pfx) <==> Agree(a, b, pfx)
  {
    MaskBits(pfx);
    MaskedEqBits(a, b, Mask(pfx));
  }

  function Min(p: nat, q: nat): nat {
    if p < q then p else q
  }

  /** Applying one prefix and then another is applying the shorter. */
  lemma ApplyTwice(a: Addr, p: nat, q: nat)
    requires p <= 128 && q <= 128
    ensures Apply(Apply(a, p), q) == Apply(a, Min(p, q))
  {
    ApplyBits(a, p);
    ApplyBits(Apply(a, p), q);
    ApplyBits(a, Min(p, q));
    SameBits(Apply(Apply(a, p), q), Apply(a, Min(p, q)));
  }

  /** Two addresses match exactly when applying the prefix makes them equal, so that a row
      can be looked up by the masked address. */
  lemma MatchByApply(a: Addr, b: Addr, pfx: nat)
    requires pfx <= 128
    ensures Match(a, b, pfx) <==> Apply(a, pfx) == Apply(b, pfx)
  {
    MatchExactly(a, b, pfx);
    ApplyBits(a, pfx);
    ApplyBits(b, pfx);
    if Agree(a, b, pfx) {
      SameBits(Apply(a, pfx), Apply(b, pfx));
    } else {
      var i :| 0 <= i < 128 && i < pfx && NetBit(a, i) != NetBit(b, i);
      assert NetBit(Apply(a, pfx), i) != NetBit(Apply(b, pfx), i);
    }
  }

  /** Matching is an equivalence, and weaker for shorter prefixes. */
  lemma MatchLaws(a: Addr, b: Addr, c: Addr, p: nat, q: nat)
    requires q <= p <= 128
    ensures Match(a, a, p)
    ensures Match(a, b, p) ==> Match(b, a, p)
    ensures Match(a, b, p) && Match(b, c, p) ==> Match(a, c, p)
    ensures Match(a, b, p) ==> Match(a, b, q)
  {
    MatchExactly(a, a, p);
    MatchExactly(a, b, p);
    MatchExactly(b, a, p);
    MatchExactly(b, c, p);
    MatchExactly(a, c, p);
    MatchExactly(a, b, q);
  }

  // ---------------------------------------------------------------------------------
  // Blocks of addresses, and rows
  // ---------------------------------------------------------------------------------

  /** Every address of the block `a/p` is in the block `b/q`. */
  ghost predicate Inside(a: Addr, p: nat, b: Addr, q: nat)
    requires p <= 128 && q <= 128
  {
    forall x: Addr :: Match(a, x, p) ==> Match(b, x, q)
  }

  ghost predicate Disjoint(a: Addr, p: nat, b: Addr, q: nat)
    requires p <= 128 && q <= 128
  {
    forall x: Addr :: !(Match(a, x, p) && Match(b, x, q))
  }

  lemma CommonAddress(a: Addr, p: nat, b: Addr, q: nat, x: Addr)
    requires q <= p <= 128 && Match(a, x, p) && Match(b, x, q)
    ensures Match(b, a, q)
  {
    MatchLaws(a, x, a, p, q);
    MatchLaws(x, a, a, q, q);
    MatchLaws(a, x, a, q, q);
    MatchLaws(b, x, a, q, q);
  }

  /** Of two blocks, either the one with the longer prefix is inside the other or they have
      no address in common, according to whether they match at the shorter prefix. */
  lemma NestedOrDisjoint(a: Addr, p: nat, b: Addr, q: nat)
    requires q <= p <= 128
    ensures Match(b, a, q) ==> Inside(a, p, b, q)
    ensures !Match(b, a, q) ==> Disjoint(a, p, b, q)
  {
    forall x: Addr | Match(a, x, p)
      ensures Match(b, a, q) <==> Match(b, x, q)
    {
      MatchLaws(a, x, a, p, q);
      MatchLaws(a, x, b, q, q);
      MatchLaws(b, a, x, q, q);
      MatchLaws(b, x, a, q, q);
    }
  }

  /** Bytes of flags, as the sets of their one bits. */
  type Flags = set<nat>
  const RT_TOS: Flags := {2, 3, 4}      // IPTOS_RT_MASK, 0x1c
  const TRANSPARENT: Flags := {5}       // CP_FWD_KEY_TRANSPARENT, 0x20
  const OCCUPIED: Flags := {7}          // CICP_FWD_FLAG_OCCUPIED, 0x80

  datatype Key = Key(src: Addr, dst: Addr, ifindex: nat, tos: Flags, iif: nat, flag: Flags)

  datatype Row = Row(key: Key, srcPrefix: nat, dstPrefix: nat, flags: Flags)

  predicate RowOk(r: Row) {
    r.srcPrefix <= 128 && r.dstPrefix <= 128
  }

  /** `cp_fwd_key_match`. */
  predicate KeyMatch(r: Row, key: Key)
    requires RowOk(r)
  {
    && r.flags * OCCUPIED != {}
    && MaskedEq(r.key.src, key.src, Mask(r.srcPrefix)) && MaskedEq(r.key.dst, key.dst, Mask(r.dstPrefix))
    && r.key.ifindex == key.ifindex && r.key.tos * RT_TOS == key.tos * RT_TOS
    && r.key.iif == key.iif
    && ((r.key.flag - key.flag) + (key.flag - r.key.flag)) * TRANSPARENT == {}
  }

  /** Which requests a row handles, bit by bit: the row is occupied, the request's source and destination are in
      the row's source and destination block, and interface, incoming interface, the routing bits of the type of
      service and the transparency bit are the same. */
  lemma KeyMatchExactly(r: Row, key: Key)
    requires RowOk(r)
    ensures KeyMatch(r, key) <==>
      && 7 in r.flags
      && Agree(r.key.src, key.src, r.srcPrefix) && Agree(r.key.dst, key.dst, r.dstPrefix)
      && r.key.ifindex == key.ifindex && r.key.iif == key.iif
      && (2 in r.key.tos <==> 2 in key.tos) && (3 in r.key.tos <==> 3 in key.tos) && (4 in r.key.tos <==> 4 in key.tos)
      && (5 in r.key.flag <==> 5 in key.flag)
  {
    MatchExactly(r.key.src, key.src, r.srcPrefix);
    MatchExactly(r.key.dst, key.dst, r.dstPrefix);
    FlagBits(r.flags, r.key.tos, key.tos, r.key.flag, key.flag);
  }

  lemma FlagBits(flags: Flags, t: Flags, u: Flags, f: Flags, g: Flags)
    ensures flags * OCCUPIED != {} <==> 7 in flags
    ensures t * RT_TOS == u * RT_TOS <==> (2 in t <==> 2 in u) && (3 in t <==> 3 in u) && (4 in t <==> 4 in u)
    ensures ((f - g) + (g - f)) * TRANSPARENT == {} <==> (5 in f <==> 5 in g)
  {
    assert 7 in flags ==> 7 in flags * OCCUPIED;
    assert forall b :: b in t * RT_TOS <==> b in t && (b == 2 || b == 3 || b == 4);
    assert forall b :: b in u * RT_TOS <==> b in u && (b == 2 || b == 3 || b == 4);
    assert 5 in ((f - g) + (g - f)) * TRANSPARENT <==> !(5 in f <==> 5 in g);
  }

  /** An occupied row handles a request for its own key. */
  lemma OwnKeyMatches(r: Row)
    requires RowOk(r)
    ensures KeyMatch(r, r.key) <==> 7 in r.flags
  {
    KeyMatchExactly(r, r.key);
  }

  /** The rows agree on what is compared exactly, and both their source and their
      destination blocks are nested. */
  predicate Overlap(r: Row, s: Row)
    requires RowOk(r) && RowOk(s)
  {
    && r.flags * OCCUPIED != {} && s.flags * OCCUPIED != {}
    && Match(r.key.src, s.key.src, Min(r.srcPrefix, s.srcPrefix))
    && Match(r.key.dst, s.key.dst, Min(r.dstPrefix, s.dstPrefix))
    && r.key.ifindex == s.key.ifindex && r.key.tos * RT_TOS == s.key.tos * RT_TOS
    && r.key.iif == s.key.iif
    && ((r.key.flag - s.key.flag) + (s.key.flag - r.key.flag)) * TRANSPARENT == {}
  }

  lemma BlocksMeet(a: Addr, p: nat, b: Addr, q: nat, x: Addr)
    requires p <= 128 && q <= 128 && Match(a, x, p) && Match(b, x, q)
    ensures Match(a, b, Min(p, q))
  {
    if q <= p {
      CommonAddress(a, p, b, q, x);
      MatchLaws(b, a, a, q, q);
    } else {
      CommonAddress(b, q, a, p, x);
    }
  }

  /** The base of the narrower of two nested blocks is in both. */
  lemma NarrowerIsCommon(a: Addr, p: nat, b: Addr, q: nat) returns (x: Addr)
    requires p <= 128 && q <= 128 && Match(a, b, Min(p, q))
    ensures Match(a, x, p) && Match(b, x, q)
  {
    if q <= p {
      x := a;
      MatchLaws(a, b, a, q, q);
      MatchLaws(a, a, a, p, q);
    } else {
      x := b;
      MatchLaws(b, b, b, q, p);
    }
  }

  lemma SameTransparency(f: Flags, g: Flags, h: Flags)
    requires ((f - h) + (h - f)) * TRANSPARENT == {} && ((g - h) + (h - g)) * TRANSPARENT == {}
    ensures ((f - g) + (g - f)) * TRANSPARENT == {}
  {
    forall x | x in ((f - g) + (g - f)) * TRANSPARENT
      ensures x in ((f - h) + (h - f)) * TRANSPARENT || x in ((g - h) + (h - g)) * TRANSPARENT
    {
    }
  }

  /** Two rows can both handle some request exactly when they overlap, which is what the
      table's rule of one row per address has to exclude. */
  lemma SharedKeyExactly(r: Row, s: Row)
    requires RowOk(r) && RowOk(s)
    ensures (exists key :: KeyMatch(r, key) && KeyMatch(s, key)) <==> Overlap(r, s)
  {
    if key :| KeyMatch(r, key) && KeyMatch(s, key) {
      BlocksMeet(r.key.src, r.srcPrefix, s.key.src, s.srcPrefix, key.src);
      BlocksMeet(r.key.dst, r.dstPrefix, s.key.dst, s.dstPrefix, key.dst);
      SameTransparency(r.key.flag, s.key.flag, key.flag);
    }
    if Overlap(r, s) {
      var src := NarrowerIsCommon(r.key.src, r.srcPrefix, s.key.src, s.srcPrefix);
      var dst := NarrowerIsCommon(r.key.dst, r.dstPrefix, s.key.dst, s.dstPrefix);
      var key := r.key.(src := src, dst := dst);
      assert KeyMatch(r, key);
      assert KeyMatch(s, key) by {
        var f, g := r.key.flag, s.key.flag;
        assert (g - key.flag) + (key.flag - g) == (f - g) + (g - f);
      }
    }
  }
}
