/** The hashes of the lookup tables in bits of the tuple.  Bit `i` of a byte-swapped word is bit `i % 8` of byte
    `3 - i / 8`. */
module HashBits {
  import opened Binary
  import opened OnloadHash

  /** Bit `i` of a tuple folded for the primary hash, with the local port in the low half. */
  predicate TupleBit(t: Tuple, lport: Port, i: nat) {
    i < 32 &&
    (((t.raddr[8 * (3 - i / 8) + i % 8] != t.laddr[i]) != (if i < 16 then lport[i] else t.rport[i - 16])) !=
     t.protocol[i])
  }

  /** Bit `i` of a sum of two words. */
  predicate SumBit(x: Word, y: Word, i: nat) {
    (Value(x) + Value(y)) / Pow2(i) % 2 == 1
  }

  /** Bit `i` of a route key folded for the control plane's secondary hash. */
  predicate KeyBit(laddr: Word, ifindex: Port, raddr: Word, tos: Word, iif: Word, i: nat) {
    i < 32 &&
    ((raddr[i] != SumBit(laddr, raddr, 8 * (3 - i / 8) + i % 8)) !=
     (SumBit(iif, tos, i) || (i >= 16 && ifindex[i - 16])))
  }

  lemma SwappedBit(x: Word, i: nat)
    requires i < 32
    ensures Bswap32(x)[i] == x[8 * (3 - i / 8) + i % 8]
  {}

  lemma RawIs(t: Tuple, lport: Port, i: nat)
    requires i < 32
    ensures Raw(t, lport)[i] == TupleBit(t, lport, i)
  {
    SwappedBit(t.raddr, i);
    RawBit(t, lport, i);
  }

  lemma RawBitIs(t: Tuple, lport: Port, i: nat)
    ensures Bit(Raw(t, lport), i) == TupleBit(t, lport, i)
  {
    if i < 32 {
      RawIs(t, lport, i);
    }
  }

  /** Every bit of the primary hash, below the mask and above. */
  lemma Hash1Bits(mask: Word, t: Tuple, lport: Port, i: nat)
    requires i < 32
    ensures Hash1(mask, t, lport)[i] ==
      (mask[i] && (((TupleBit(t, lport, i) != TupleBit(t, lport, i + 8)) != TupleBit(t, lport, i + 16)) !=
                   TupleBit(t, lport, i + 24)))
  {
    MixBits(Raw(t, lport), i);
    RawBitIs(t, lport, i);
    RawBitIs(t, lport, i + 8);
    RawBitIs(t, lport, i + 16);
    RawBitIs(t, lport, i + 24);
  }

  /** Every bit of the secondary hash: the ports are in the opposite halves, and bit 0 is always set. */
  lemma Hash2Bits(t: Tuple, lport: Port, i: nat)
    requires i < 32
    ensures Hash2(t, lport)[i] ==
      (i == 0 || (((t.laddr[i] != t.raddr[i]) != (if i < 16 then t.rport[i] else lport[i - 16])) != t.protocol[i]))
  {}

  /** The word that the control plane's secondary hash mixes. */
  function Folded(laddr: Word, ifindex: Port, raddr: Word, tos: Word, iif: Word): Word {
    Xor(Xor(raddr, Bswap32(Add(laddr, raddr))), Joined(ifindex, Add(iif, tos)))
  }

  lemma FoldedBit(laddr: Word, ifindex: Port, raddr: Word, tos: Word, iif: Word, i: nat)
    ensures Bit(Folded(laddr, ifindex, raddr, tos, iif), i) == KeyBit(laddr, ifindex, raddr, tos, iif, i)
  {
    if i < 32 {
      FoldedAt(raddr, Add(laddr, raddr), Joined(ifindex, Add(iif, tos)), i);
      SumBits(laddr, raddr, 8 * (3 - i / 8) + i % 8);
      SumBits(iif, tos, i);
    }
  }

  lemma SumBits(x: Word, y: Word, i: nat)
    requires i < 32
    ensures Add(x, y)[i] == SumBit(x, y, i)
  {
    BitsAt(Value(x) + Value(y), 32, i);
  }

  lemma FoldedAt(x: Word, y: Word, z: Word, i: nat)
    requires i < 32
    ensures Xor(Xor(x, Bswap32(y)), z)[i] == ((x[i] != y[8 * (3 - i / 8) + i % 8]) != z[i])
  {
    SwappedBit(y, i);
  }

  /** Every bit of the control plane's secondary hash. */
  lemma CplaneHash2Bits(laddr: Word, ifindex: Port, raddr: Word, tos: Word, iif: Word, i: nat)
    requires i < 32
    ensures CplaneHash2(laddr, ifindex, raddr, tos, iif)[i] ==
      (i == 0 || (((KeyBit(laddr, ifindex, raddr, tos, iif, i) != KeyBit(laddr, ifindex, raddr, tos, iif, i + 8)) !=
                   KeyBit(laddr, ifindex, raddr, tos, iif, i + 16)) != KeyBit(laddr, ifindex, raddr, tos, iif, i + 24)))
  {
    MixBits(Folded(laddr, ifindex, raddr, tos, iif), i);
    FoldedBit(laddr, ifindex, raddr, tos, iif, i);
    FoldedBit(laddr, ifindex, raddr, tos, iif, i + 8);
    FoldedBit(laddr, ifindex, raddr, tos, iif, i + 16);
    FoldedBit(laddr, ifindex, raddr, tos, iif, i + 24);
  }
}
