/** The set of prefix lengths present in the forward table, held as a bitmap of three
    64-bit words, the most significant first.  The operations work on the words in place;
    what they do is said of the set of lengths. */
module PrefixSet {

  import opened Binary
  import opened Word64

  /** Whether the bitmap has bit `s`. */
  predicate Has(x: seq<Word>, s: nat)
    requires |x| == 3 && s < 192
  {
    x[2 - s / 64][s % 64]
  }

  /** The lengths in the bitmap. */
  function Members(x: seq<Word>): set<nat>
    requires |x| == 3
  {
    set s | 0 <= s < 192 && Has(x, s)
  }

  const ALL: set<nat> := set s | 0 <= s < 192 :: s

  /** `bw_not_192`. */
  method Not192(x: array<Word>)
    requires x.Length == 3
    modifies x
    ensures Members(x[..]) == ALL - old(Members(x[..]))
  {
    var i := 0;
    while i < 3
      invariant 0 <= i <= 3
      invariant forall j :: 0 <= j < 3 ==> x[j] == if j < i then Not(old(x[j])) else old(x[j])
    {
      x[i] := Not(x[i]);
      i := i + 1;
    }
    forall s | 0 <= s < 192
      ensures Has(x[..], s) == !Has(old(x[..]), s)
    {
    }
  }

  /** `bw_and_192`; the two bitmaps may be the same one. */
  method And192(x: array<Word>, y: array<Word>)
    requires x.Length == 3 && y.Length == 3
    modifies x
    ensures Members(x[..]) == old(Members(x[..])) * old(Members(y[..]))
  {
    var i := 0;
    while i < 3
      invariant 0 <= i <= 3
      invariant forall j :: 0 <= j < 3 ==> x[j] == if j < i then And(old(x[j]), old(y[j])) else old(x[j])
      invariant x != y ==> y[..] == old(y[..])
    {
      x[i] := And(x[i], y[i]);
      i := i + 1;
    }
    forall s | 0 <= s < 192
      ensures Has(x[..], s) == (Has(old(x[..]), s) && Has(old(y[..]), s))
    {
    }
  }

  /** `bw_or_192`. */
  method Or192(x: array<Word>, y: array<Word>)
    requires x.Length == 3 && y.Length == 3
    modifies x
    ensures Members(x[..]) == old(Members(x[..])) + old(Members(y[..]))
  {
    var i := 0;
    while i < 3
      invariant 0 <= i <= 3
      invariant forall j :: 0 <= j < 3 ==> x[j] == if j < i then Or(old(x[j]), old(y[j])) else old(x[j])
      invariant x != y ==> y[..] == old(y[..])
    {
      x[i] := Or(x[i], y[i]);
      i := i + 1;
    }
    forall s | 0 <= s < 192
      ensures Has(x[..], s) == (Has(old(x[..]), s) || Has(old(y[..]), s))
    {
    }
  }

  /** `bw_shift_bit_192`. */
  method ShiftBit192(x: array<Word>, shift: nat)
    requires x.Length == 3 && shift < 192
    modifies x
    ensures Members(x[..]) == {shift}
  {
    x[0], x[1], x[2] := ZERO, ZERO, ZERO;
    x[2 - shift / 64] := One(shift % 64);
    forall s | 0 <= s < 192
      ensures Has(x[..], s) == (s == shift)
    {
    }
  }

  /** The highest of the low `n` bits that is set. */
  function TopBit(x: Word, n: nat): (r: nat)
    requires n <= 64 && exists i :: 0 <= i < n && x[i]
    ensures r < n && x[r] && forall i :: r < i < n ==> !x[i]
  {
    if x[n - 1] then n - 1 else TopBit(x, n - 1)
  }

  /** `__builtin_clzll`, which is undefined for zero. */
  function Clz(x: Word): nat
    requires !IsZero(x)
  {
    63 - TopBit(x, 64)
  }

  /** `ci_clz192`: the distance of the largest length from 191, or 191 for no length. */
  method Clz192(x: array<Word>) returns (r: nat)
    requires x.Length == 3
    ensures r <= 191
    ensures Members(x[..]) == {} ==> r == 191
    ensures Members(x[..]) != {} ==> IsLargest(Members(x[..]), 191 - r)
  {
    var i, res := 0, 0;
    while i < 3
      invariant 0 <= i <= 3 && res == 64 * i
      invariant forall j :: 0 <= j < i ==> IsZero(x[j])
    {
      var val := x[i];
      if IsZero(val) {
        res := res + 64;
        i := i + 1;
        continue;
      }
      TopOfBitmap(x[..], i);
      return res + Clz(val);
    }
    assert Members(x[..]) == {};
    return 191;
  }

  ghost predicate IsLargest(m: set<nat>, p: int) {
    p in m && forall s :: s in m ==> s <= p
  }

  lemma TopOfBitmap(x: seq<Word>, i: nat)
    requires |x| == 3 && i < 3 && !IsZero(x[i]) && forall j :: 0 <= j < i ==> IsZero(x[j])
    ensures IsLargest(Members(x), 191 - (64 * i + Clz(x[i])))
  {
    var p := 64 * (2 - i) + TopBit(x[i], 64);
    assert Has(x, p);
    forall s | s in Members(x)
      ensures s <= p
    {
      if s / 64 == 2 - i {
        assert x[i][s % 64];
      }
    }
  }

  /** `cp_ip6_get_largest_prefix`: the largest length in the bitmap, or 0 for none. */
  method LargestPrefix(x: array<Word>) returns (p: nat)
    requires x.Length == 3
    ensures Members(x[..]) == {} ==> p == 0
    ensures Members(x[..]) != {} ==> IsLargest(Members(x[..]), p)
  {
    var n := Clz192(x);
    p := 191 - n;
  }

  lemma MembersInAll(x: seq<Word>)
    requires |x| == 3
    ensures Members(x) <= ALL
  {
  }

  /** Taking the largest length and clearing it with the operations above. */
  method TakeLargest(x: array<Word>) returns (p: nat)
    requires x.Length == 3 && Members(x[..]) != {}
    modifies x
    ensures IsLargest(old(Members(x[..])), p) && Members(x[..]) == old(Members(x[..])) - {p}
  {
    p := LargestPrefix(x);
    MembersInAll(x[..]);
    var bit := new Word[3](_ => ZERO);
    ShiftBit192(bit, p);
    Not192(bit);
    And192(x, bit);
  }

  predicate StrictlyDescending(s: seq<nat>) {
    forall i, j :: 0 <= i < j < |s| ==> s[i] > s[j]
  }

  /** The order in which a search probes the prefix lengths: taking the largest until none
      is left ends, and gives every length once, the longest prefix first. */
  method LongestFirst(x: array<Word>) returns (lengths: seq<nat>)
    requires x.Length == 3
    modifies x
    ensures StrictlyDescending(lengths) && Members(x[..]) == {}
    ensures forall s :: s in lengths <==> s in old(Members(x[..]))
  {
    lengths := [];
    ghost var all, left := Members(x[..]), Members(x[..]);
    while !(IsZero(x[0]) && IsZero(x[1]) && IsZero(x[2]))
      invariant left == Members(x[..]) && Enumerated(all, lengths, left)
      decreases left
    {
      NotEmpty(x[..]);
      var p := TakeLargest(x);
      EnumerateNext(all, lengths, left, p);
      left := left - {p};
      lengths := lengths + [p];
    }
    Empty(x[..]);
  }

  /** `done` lists, longest first, the lengths of `all` that are not in `left`, all of them
      longer than those that are. */
  ghost predicate Enumerated(all: set<nat>, done: seq<nat>, left: set<nat>) {
    && StrictlyDescending(done)
    && (forall s, t :: s in done && t in left ==> s > t)
    && (forall s :: s in all <==> s in done || s in left)
  }

  lemma EnumerateNext(all: set<nat>, done: seq<nat>, left: set<nat>, p: nat)
    requires Enumerated(all, done, left) && IsLargest(left, p)
    ensures Enumerated(all, done + [p], left - {p})
  {
    var more := done + [p];
    forall i, j | 0 <= i < j < |more|
      ensures more[i] > more[j]
    {
      assert done[i] in done;
    }
  }

  lemma NotEmpty(x: seq<Word>)
    requires |x| == 3 && !(IsZero(x[0]) && IsZero(x[1]) && IsZero(x[2]))
    ensures Members(x) != {}
  {
    var w := if !IsZero(x[0]) then 0 else if !IsZero(x[1]) then 1 else 2;
    var s := 64 * (2 - w) + TopBit(x[w], 64);
    assert Has(x, s);
    assert s in Members(x);
  }

  lemma Empty(x: seq<Word>)
    requires |x| == 3 && IsZero(x[0]) && IsZero(x[1]) && IsZero(x[2])
    ensures Members(x) == {}
  {
  }
}
