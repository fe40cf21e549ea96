/** Numbers and their binary digits, least significant first. */
module Binary {

  function Pow2(k: nat): (r: nat)
    ensures r > 0
  {
    if k == 0 then 1 else 2 * Pow2(k - 1)
  }

  /** The number a sequence of bits stands for. */
  function Value(bits: seq<bool>): nat {
    if bits == [] then 0 else (if bits[0] then 1 else 0) + 2 * Value(bits[1..])
  }

  /** The low `n` bits of a number. */
  function Bits(v: nat, n: nat): (r: seq<bool>)
    ensures |r| == n
    decreases n, v
  {
    if n == 0 then [] else [v % 2 == 1] + Bits(v / 2, n - 1)
  }

  function Xor(x: seq<bool>, y: seq<bool>): (r: seq<bool>)
    requires |x| == |y|
    ensures |r| == |x| && forall i :: 0 <= i < |x| ==> r[i] == (x[i] != y[i])
  {
    seq(|x|, i requires 0 <= i < |x| && |x| == |y| => x[i] != y[i])
  }

  function And(x: seq<bool>, y: seq<bool>): (r: seq<bool>)
    requires |x| == |y|
    ensures |r| == |x| && forall i :: 0 <= i < |x| ==> r[i] == (x[i] && y[i])
  {
    seq(|x|, i requires 0 <= i < |x| && |x| == |y| => x[i] && y[i])
  }

  /** The four bytes of a word in the opposite order. */
  function Bswap32(x: seq<bool>): (r: seq<bool>)
    requires |x| == 32
    ensures |r| == 32
  {
    x[24..] + x[16..24] + x[8..16] + x[..8]
  }

  lemma Parity(low: nat, rest: nat)
    requires low < 2
    ensures (low + 2 * rest) % 2 == low
  {}

  lemma FirstBitIsParity(bits: seq<bool>)
    requires bits != []
    ensures Value(bits) % 2 == if bits[0] then 1 else 0
  {
    Parity(if bits[0] then 1 else 0, Value(bits[1..]));
  }

  /** Each bit of a number, and of its low bits. */
  lemma {:induction false} BitsAt(v: nat, n: nat, i: nat)
    requires i < n
    ensures Bits(v, n)[i] == (v / Pow2(i) % 2 == 1)
  {
    if i > 0 {
      BitsAt(v / 2, n - 1, i - 1);
      DivideTwice(v, Pow2(i - 1));
    }
  }

  lemma DivideTwice(v: nat, m: nat)
    requires m > 0
    ensures v / 2 / m == v / (2 * m)
  {
    var q, r := v / 2 / m, v / 2 % m;
    assert v / 2 == m * q + r;
    assert v == 2 * (m * q) + (2 * r + v % 2);
    assert 2 * (m * q) == (2 * m) * q;
    Remainder(v, 2 * m, q, 2 * r + v % 2);
  }

  lemma Divided(x: nat, m: nat)
    requires m > 0
    ensures x == m * (x / m) + x % m
  {
  }

  lemma MultipleIsLarge(size: nat, r: int)
    ensures r >= 1 ==> size * r >= size
    ensures r <= -1 ==> size * r + size <= 0
  {
    if r >= 1 {
      assert size * r == size + size * (r - 1);
    } else if r <= -1 {
      assert size * r + size == 0 - size * (-1 - r);
    }
  }

  lemma Remainder(x: nat, m: nat, q: nat, r: nat)
    requires m > 0 && x == m * q + r && r < m
    ensures x / m == q && x % m == r
  {
    Divided(x, m);
    QuotientUnique(m, x / m, x % m, q, r);
  }

  lemma QuotientUnique(m: nat, p: nat, t: nat, q: nat, r: nat)
    requires t < m && r < m && m * p + t == m * q + r
    ensures p == q && t == r
  {
    MultipleIsLarge(m, p - q);
    assert m * (p - q) == m * p - m * q;
  }
}
