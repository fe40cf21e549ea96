/** The fields that change in prepared Ethernet, IP and TCP headers, and how they are stored. */
module TcpHeaders {

  type Byte = b: int | 0 <= b < 256

  const TWO16: nat := 0x1_0000
  const TWO32: nat := 0x1_0000_0000

  /** Where the prepared headers keep the fields that change. The IP length comes before the TCP
      header; the flags byte is nine bytes after the sequence number. */
  datatype Layout = Layout(size: nat, ipLen: nat, seqNo: nat, ipTcpLen: nat) {
    predicate Valid() {
      ipLen + 2 <= seqNo && seqNo + 10 <= size
    }

    function Flags(): nat {
      seqNo + 9
    }

    predicate Patched(i: int) {
      ipLen <= i < ipLen + 2 || seqNo <= i < seqNo + 4 || i == Flags()
    }
  }

  predicate Shaped(l: Layout, h: seq<Byte>) {
    l.Valid() && |h| == l.size
  }

  function Number(bytes: seq<Byte>): nat {
    if bytes == [] then 0 else Number(bytes[..|bytes| - 1]) * 256 + bytes[|bytes| - 1]
  }

  /** The low `n` bytes of a number, most significant first. */
  function NetworkOrder(v: nat, n: nat): (r: seq<Byte>)
    ensures |r| == n
    decreases n, v
  {
    if n == 0 then [] else NetworkOrder(v / 256, n - 1) + [v % 256]
  }

  function IpLen(l: Layout, h: seq<Byte>): nat
    requires Shaped(l, h)
  {
    Number(h[l.ipLen..l.ipLen + 2])
  }

  function SeqNo(l: Layout, h: seq<Byte>): nat
    requires Shaped(l, h)
  {
    Number(h[l.seqNo..l.seqNo + 4])
  }

  predicate Psh(l: Layout, h: seq<Byte>)
    requires Shaped(l, h)
  {
    h[l.Flags()] / 8 % 2 == 1
  }

  /** The flags other than PSH. */
  function OtherFlags(l: Layout, h: seq<Byte>): nat
    requires Shaped(l, h)
  {
    h[l.Flags()] / 16 * 16 + h[l.Flags()] % 8
  }

  /** Nothing but the length, the sequence number and PSH differs. */
  predicate SameHeader(l: Layout, g: seq<Byte>, h: seq<Byte>)
    requires Shaped(l, g) && Shaped(l, h)
  {
    && OtherFlags(l, g) == OtherFlags(l, h)
    && forall i :: 0 <= i < l.size && !l.Patched(i) ==> g[i] == h[i]
  }

  lemma SameTwice(l: Layout, f: seq<Byte>, g: seq<Byte>, h: seq<Byte>)
    requires Shaped(l, f) && Shaped(l, g) && Shaped(l, h) && SameHeader(l, f, g) && SameHeader(l, g, h)
    ensures SameHeader(l, f, h)
  {}

  function SetPsh(b: Byte, push: bool): (r: Byte)
    ensures r / 8 % 2 == (if push then 1 else 0) && r / 16 == b / 16 && r % 8 == b % 8
  {
    b / 16 * 16 + (if push then 8 else 0) + b % 8
  }

  function Pow256(n: nat): nat {
    if n == 0 then 1 else 256 * Pow256(n - 1)
  }

  lemma {:induction false} NumberOfBytes(v: nat, n: nat)
    requires v < Pow256(n)
    ensures Number(NetworkOrder(v, n)) == v
  {
    if n > 0 {
      NumberOfBytes(v / 256, n - 1);
      assert NetworkOrder(v, n)[..n - 1] == NetworkOrder(v / 256, n - 1);
    }
  }

  lemma {:induction false} NumberBound(bytes: seq<Byte>)
    ensures Number(bytes) < Pow256(|bytes|)
  {
    if bytes != [] {
      NumberBound(bytes[..|bytes| - 1]);
    }
  }

  lemma SeqNoBound(l: Layout, h: seq<Byte>)
    requires Shaped(l, h)
    ensures SeqNo(l, h) < TWO32
  {
    NumberBound(h[l.seqNo..l.seqNo + 4]);
    assert Pow256(4) == TWO32;
  }

  /** The four bytes from `at`, most significant first. */
  function FourBytes(h: seq<Byte>, at: nat): nat
    requires at + 4 <= |h|
  {
    0x100_0000 * (h[at] as int) + 0x1_0000 * (h[at + 1] as int) + 0x100 * (h[at + 2] as int) + h[at + 3] as int
  }

  lemma StoredTwo(v: nat)
    requires v < TWO16
    ensures NetworkOrder(v, 2) == [v / 256, v % 256]
  {
    assert NetworkOrder(v / 256, 1) == NetworkOrder(v / 256 / 256, 0) + [v / 256 % 256];
  }

  lemma StoredFour(v: nat)
    requires v < TWO32
    ensures NetworkOrder(v, 4) == [v / 0x100_0000, v / 0x1_0000 % 256, v / 256 % 256, v % 256]
  {
    var a, b := v / 256, v / 0x1_0000;
    assert a / 256 == b && b / 256 == v / 0x100_0000 < 256;
    StoredTwo(b);
    assert NetworkOrder(a, 3) == NetworkOrder(b, 2) + [a % 256];
    assert NetworkOrder(v, 4) == NetworkOrder(a, 3) + [v % 256];
  }

  lemma NumberOfTwo(b: seq<Byte>)
    requires |b| == 2
    ensures Number(b) == 256 * (b[0] as int) + b[1] as int
  {
    assert Number(b[..1]) == Number(b[..1][..0]) * 256 + b[0] && b[..1][..0] == [];
  }

  lemma NumberOfFour(b: seq<Byte>)
    requires |b| == 4
    ensures Number(b) == FourBytes(b, 0)
  {
    NumberOfTwo(b[..2]);
    assert b[..3][..2] == b[..2];
  }

  /** Where the fields are, byte by byte. */
  lemma FieldsInBytes(l: Layout, h: seq<Byte>)
    requires Shaped(l, h)
    ensures IpLen(l, h) == 256 * (h[l.ipLen] as int) + h[l.ipLen + 1] as int
    ensures SeqNo(l, h) == FourBytes(h, l.seqNo)
    ensures Psh(l, h) <==> h[l.seqNo + 9] / 8 % 2 == 1
    ensures OtherFlags(l, h) == h[l.seqNo + 9] / 16 * 16 + h[l.seqNo + 9] % 8
    ensures forall i :: l.Patched(i) <==>
              i == l.ipLen || i == l.ipLen + 1 || l.seqNo <= i < l.seqNo + 4 || i == l.seqNo + 9
  {
    NumberOfTwo(h[l.ipLen..l.ipLen + 2]);
    NumberOfFour(h[l.seqNo..l.seqNo + 4]);
  }

  /** What `onload_delegated_send_tcp_update` does to the headers, byte by byte: the two length bytes, bit 3 of the
      byte nine after the sequence number, and nothing else. */
  predicate UpdatedBytes(l: Layout, g: seq<Byte>, h: seq<Byte>, bytes: int, push: bool)
    requires Shaped(l, g)
  {
    var v := (bytes + l.ipTcpLen) % 0x1_0000;
    && |h| == |g|
    && h[l.ipLen] == v / 256 && h[l.ipLen + 1] == v % 256
    && h[l.seqNo + 9] / 8 % 2 == (if push then 1 else 0)
    && h[l.seqNo + 9] / 16 == g[l.seqNo + 9] / 16 && h[l.seqNo + 9] % 8 == g[l.seqNo + 9] % 8
    && forall i :: 0 <= i < |g| && i != l.ipLen && i != l.ipLen + 1 && i != l.seqNo + 9 ==> h[i] == g[i]
  }

  /** What `onload_delegated_send_tcp_advance` does to them: the four sequence bytes, and nothing else. */
  predicate AdvancedBytes(l: Layout, g: seq<Byte>, h: seq<Byte>, bytes: int)
    requires Shaped(l, g)
  {
    var v := (FourBytes(g, l.seqNo) + bytes) % 0x1_0000_0000;
    && |h| == |g|
    && h[l.seqNo] == v / 0x100_0000 && h[l.seqNo + 1] == v / 0x1_0000 % 256
    && h[l.seqNo + 2] == v / 256 % 256 && h[l.seqNo + 3] == v % 256
    && forall i :: 0 <= i < |g| && !(l.seqNo <= i < l.seqNo + 4) ==> h[i] == g[i]
  }

  /** The fields after an update. */
  lemma FieldsUpdated(l: Layout, g: seq<Byte>, h: seq<Byte>, bytes: int, push: bool)
    requires Shaped(l, g) && UpdatedBytes(l, g, h, bytes, push)
    ensures IpLen(l, h) == (bytes + l.ipTcpLen) % TWO16 && Psh(l, h) == push
    ensures SeqNo(l, h) == SeqNo(l, g) && SameHeader(l, h, g)
  {
    FieldsInBytes(l, g);
    FieldsInBytes(l, h);
  }

  lemma JoinFour(v: nat)
    requires v < TWO32
    ensures 0x100_0000 * (v / 0x100_0000) + 0x1_0000 * (v / 0x1_0000 % 256) + 0x100 * (v / 256 % 256) + v % 256 == v
  {
    assert v / 256 / 256 == v / 0x1_0000 && v / 0x1_0000 / 256 == v / 0x100_0000;
  }

  /** The fields after an advance. */
  lemma FieldsAdvanced(l: Layout, g: seq<Byte>, h: seq<Byte>, bytes: int)
    requires Shaped(l, g) && AdvancedBytes(l, g, h, bytes)
    ensures SeqNo(l, h) == (SeqNo(l, g) + bytes) % TWO32
    ensures IpLen(l, h) == IpLen(l, g) && Psh(l, h) == Psh(l, g) && SameHeader(l, h, g)
  {
    FieldsInBytes(l, g);
    FieldsInBytes(l, h);
    JoinFour((FourBytes(g, l.seqNo) + bytes) % TWO32);
  }

  /** The length field and the PSH flag. */
  datatype Mark = Mark(ipLen: nat, psh: bool)

  function MarkOf(l: Layout, h: seq<Byte>): Mark
    requires Shaped(l, h)
  {
    Mark(IpLen(l, h), Psh(l, h))
  }
}
