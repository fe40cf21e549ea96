/** Unsigned 64-bit words, as the sequences of their bits, least significant first. */
module Word64 {

  type Word = w: seq<bool> | |w| == 64 witness seq(64, _ => false)

  const ZERO: Word := seq(64, _ => false)
  const ONES: Word := seq(64, _ => true)

  function Not(x: Word): (r: Word)
    ensures forall i :: 0 <= i < 64 ==> r[i] == !x[i]
  {
    seq(64, i requires 0 <= i < 64 => !x[i])
  }

  function Or(x: Word, y: Word): (r: Word)
    ensures forall i :: 0 <= i < 64 ==> r[i] == (x[i] || y[i])
  {
    seq(64, i requires 0 <= i < 64 => x[i] || y[i])
  }

  /** `1ull << k`. */
  function One(k: nat): (r: Word)
    ensures forall i :: 0 <= i < 64 ==> r[i] == (i == k)
  {
    seq(64, i => i == k)
  }

  predicate IsZero(x: Word) {
    forall i :: 0 <= i < 64 ==> !x[i]
  }
}
