/** Intrusive circular doubly linked lists in a stack's shared state.

    A link is named by its offset into the state; the state maps every offset to the
    link's two fields, which the operations overwrite in place.  A list is a ring of links
    through its head.  The abstraction of a list is the sequence of the links after its
    head, and every operation is specified on that sequence. */
module DlList {
  import opened Sequences

  type Offset = nat

  type Links = map<Offset, Offset>

  ghost predicate Edge(next: Links, prev: Links, x: Offset, y: Offset) {
    x in next && next[x] == y && y in prev && prev[y] == x
  }

  ghost predicate EdgeAt(next: Links, prev: Links, walk: seq<Offset>, i: nat)
    requires i + 1 < |walk|
  {
    Edge(next, prev, walk[i], walk[i + 1])
  }

  /** Each link of `walk` and the one after it point at each other. */
  ghost predicate Walk(next: Links, prev: Links, walk: seq<Offset>) {
    forall i :: 0 <= i < |walk| - 1 ==> EdgeAt(next, prev, walk, i)
  }

  /** The links of `ring`, in order and back to the first, point at one another. */
  ghost predicate Linked(next: Links, prev: Links, ring: seq<Offset>) {
    ring != [] && Distinct(ring) && Walk(next, prev, ring + [ring[0]])
  }

  lemma {:induction false} WalkPart(next: Links, prev: Links, walk: seq<Offset>, i: nat, j: nat)
    requires Walk(next, prev, walk) && i <= j <= |walk|
    ensures Walk(next, prev, walk[i..j])
  {
    var part := walk[i..j];
    forall k | 0 <= k < |part| - 1
      ensures EdgeAt(next, prev, part, k)
    {
      assert EdgeAt(next, prev, walk, i + k);
    }
  }

  lemma WalkJoin(next: Links, prev: Links, a: seq<Offset>, b: seq<Offset>)
    requires Walk(next, prev, a) && Walk(next, prev, b) && a != [] && b != []
    requires Edge(next, prev, a[|a| - 1], b[0])
    ensures Walk(next, prev, a + b)
  {
    var w := a + b;
    forall i | 0 <= i < |w| - 1
      ensures EdgeAt(next, prev, w, i)
    {
      if i < |a| - 1 {
        assert EdgeAt(next, prev, a, i);
      } else if i >= |a| {
        assert EdgeAt(next, prev, b, i - |a|);
      }
    }
  }

  /** A walk depends on the forward fields of all its links but the last and on the
      backward fields of all but the first. */
  lemma WalkFrame(n0: Links, p0: Links, n1: Links, p1: Links, walk: seq<Offset>)
    requires Walk(n0, p0, walk)
    requires forall i :: 0 <= i < |walk| - 1 && walk[i] in n0 ==> walk[i] in n1 && n1[walk[i]] == n0[walk[i]]
    requires forall i :: 0 < i < |walk| && walk[i] in p0 ==> walk[i] in p1 && p1[walk[i]] == p0[walk[i]]
    ensures Walk(n1, p1, walk)
  {
    forall i | 0 <= i < |walk| - 1
      ensures EdgeAt(n1, p1, walk, i)
    {
      assert EdgeAt(n0, p0, walk, i);
    }
  }

  /** A change that stays within `touched` keeps every ring that avoids it. */
  lemma LinkedFrame(n0: Links, p0: Links, n1: Links, p1: Links, touched: set<Offset>, ring: seq<Offset>)
    requires Linked(n0, p0, ring)
    requires forall x :: x in ring ==> x !in touched
    requires forall x :: x in n0 && x !in touched ==> x in n1 && n1[x] == n0[x]
    requires forall x :: x in p0 && x !in touched ==> x in p1 && p1[x] == p0[x]
    ensures Linked(n1, p1, ring)
  {
    var walk := ring + [ring[0]];
    assert forall i :: 0 <= i < |walk| ==> walk[i] in ring;
    WalkFrame(n0, p0, n1, p1, walk);
  }

  ghost predicate Within(next: Links, prev: Links, s: seq<Offset>) {
    forall x :: x in s ==> x in next && x in prev
  }

  lemma InState(next: Links, prev: Links, ring: seq<Offset>)
    requires Linked(next, prev, ring)
    ensures Within(next, prev, ring)
  {
    var walk := ring + [ring[0]];
    forall x | x in ring
      ensures x in next && x in prev
    {
      var i :| 0 <= i < |ring| && ring[i] == x;
      assert EdgeAt(next, prev, walk, i);
      if i == 0 {
        assert EdgeAt(next, prev, walk, |ring| - 1);
      } else {
        assert EdgeAt(next, prev, walk, i - 1);
      }
    }
  }

  /** A closed walk cut before position `k`: the two parts have no forward field and no
      backward field in common with the cut. */
  lemma Cut(next: Links, prev: Links, ring: seq<Offset>, k: nat)
    requires Linked(next, prev, ring) && 0 < k <= |ring|
    ensures var walk := ring + [ring[0]];
      && Walk(next, prev, walk[..k]) && Walk(next, prev, walk[k..])
      && Edge(next, prev, walk[k - 1], walk[k])
      && (forall i :: 0 <= i < k - 1 ==> walk[i] != walk[k - 1])
      && (forall i :: k <= i < |ring| ==> walk[i] != walk[k - 1])
      && (forall i :: 0 < i < k ==> walk[i] != walk[k])
      && (forall i :: k < i <= |ring| ==> walk[i] != walk[k])
  {
    var walk := ring + [ring[0]];
    WalkPart(next, prev, walk, 0, k);
    WalkPart(next, prev, walk, k, |walk|);
    assert walk[..k] == walk[0..k] && walk[k..] == walk[k..|walk|];
    assert EdgeAt(next, prev, walk, k - 1);
  }

  /** Taking out the link at position `k`. */
  lemma Unlink(n0: Links, p0: Links, ring: seq<Offset>, k: nat)
    requires Linked(n0, p0, ring) && 0 < k < |ring|
    ensures var x := ring[k];
      && x in n0 && x in p0 && p0[x] in ring && n0[x] in ring
      && p0[x] != x && n0[x] != x
      && Linked(n0[p0[x] := n0[x]], p0[n0[x] := p0[x]], ring[..k] + ring[k + 1..])
    ensures Within(n0, p0, ring)
  {
    var walk, x := ring + [ring[0]], ring[k];
    InState(n0, p0, ring);
    Cut(n0, p0, ring, k);
    Cut(n0, p0, ring, k + 1);
    var n1, p1 := n0[p0[x] := n0[x]], p0[n0[x] := p0[x]];
    WalkFrame(n0, p0, n1, p1, walk[..k]);
    WalkFrame(n0, p0, n1, p1, walk[k + 1..]);
    WalkJoin(n1, p1, walk[..k], walk[k + 1..]);
    var rest := ring[..k] + ring[k + 1..];
    assert rest + [rest[0]] == walk[..k] + walk[k + 1..];
  }

  /** The links of `ring` with those of `s` put between positions `k - 1` and `k`. */
  ghost function Inserted(ring: seq<Offset>, k: nat, s: seq<Offset>): seq<Offset>
    requires 0 < k <= |ring|
  {
    ring[..k] + s + ring[k..]
  }

  /** Storing the two edges that put `s` between two neighbours leaves the walks on either
      side, and `s` itself, as they were. */
  lemma SpliceStores(n0: Links, p0: Links, ring: seq<Offset>, k: nat, s: seq<Offset>)
    requires Linked(n0, p0, ring) && 0 < k <= |ring|
    requires s != [] && Distinct(s) && Walk(n0, p0, s) && forall x :: x in s ==> x !in ring
    ensures var walk := ring + [ring[0]];
      var n1, p1 := n0[walk[k - 1] := s[0]][s[|s| - 1] := walk[k]], p0[s[0] := walk[k - 1]][walk[k] := s[|s| - 1]];
      Walk(n1, p1, walk[..k]) && Walk(n1, p1, walk[k..]) && Walk(n1, p1, s)
  {
    var walk := ring + [ring[0]];
    Cut(n0, p0, ring, k);
    assert forall i :: 0 <= i < |walk| ==> walk[i] in ring;
    assert forall i :: 0 <= i < |s| ==> s[i] in s;
    assert walk[k] !in s && walk[k - 1] !in s && s[0] !in ring && s[|s| - 1] !in ring;
    var n1, p1 := n0[walk[k - 1] := s[0]][s[|s| - 1] := walk[k]], p0[s[0] := walk[k - 1]][walk[k] := s[|s| - 1]];
    WalkFrame(n0, p0, n1, p1, walk[..k]);
    WalkFrame(n0, p0, n1, p1, walk[k..]);
    WalkFrame(n0, p0, n1, p1, s);
  }

  /** Putting the links of `s`, which already point at one another, between two
      neighbours, which are the same link in a ring of one. */
  lemma Splice(n0: Links, p0: Links, ring: seq<Offset>, k: nat, s: seq<Offset>)
    requires Linked(n0, p0, ring) && 0 < k <= |ring|
    requires s != [] && Distinct(s) && Walk(n0, p0, s) && forall x :: x in s ==> x !in ring
    ensures var left, right := ring[k - 1], (ring + [ring[0]])[k];
      Linked(n0[left := s[0]][s[|s| - 1] := right], p0[s[0] := left][right := s[|s| - 1]], Inserted(ring, k, s))
    ensures Within(n0, p0, ring)
  {
    var walk := ring + [ring[0]];
    InState(n0, p0, ring);
    SpliceStores(n0, p0, ring, k, s);
    assert walk[k] in ring && walk[k - 1] in ring && s[0] in s && s[|s| - 1] in s;
    var n1, p1 := n0[walk[k - 1] := s[0]][s[|s| - 1] := walk[k]], p0[s[0] := walk[k - 1]][walk[k] := s[|s| - 1]];
    WalkJoin(n1, p1, walk[..k], s);
    WalkJoin(n1, p1, walk[..k] + s, walk[k..]);
    var more := Inserted(ring, k, s);
    assert more + [more[0]] == walk[..k] + s + walk[k..];
    InsertedDistinct(ring, k, s);
  }

  lemma InsertedDistinct(ring: seq<Offset>, k: nat, s: seq<Offset>)
    requires Distinct(ring) && Distinct(s) && 0 < k <= |ring| && forall x :: x in s ==> x !in ring
    ensures Distinct(Inserted(ring, k, s))
  {
    assert forall i :: 0 <= i < |ring| ==> ring[i] in ring;
    assert forall i :: 0 <= i < |s| ==> s[i] in s;
  }

  /** What the head's own fields say about its list. */
  lemma Ends(next: Links, prev: Links, head: Offset, items: seq<Offset>)
    requires Linked(next, prev, [head] + items)
    ensures head in next && next[head] == (if items == [] then head else items[0])
    ensures head in prev && prev[head] == (if items == [] then head else items[|items| - 1])
    ensures head !in items && Distinct(items) && Walk(next, prev, items)
  {
    var ring := [head] + items;
    var walk := ring + [ring[0]];
    assert EdgeAt(next, prev, walk, 0);
    assert EdgeAt(next, prev, walk, |ring| - 1);
    WalkPart(next, prev, walk, 1, |ring|);
    assert walk[1..|ring|] == items;
    assert forall i :: 0 <= i < |items| ==> items[i] == ring[i + 1];
  }

  /** The links a traversal leaves in the list. */
  function Kept(s: seq<Offset>, remove: Offset -> bool): seq<Offset> {
    if s == [] then [] else
    Kept(s[..|s| - 1], remove) + if remove(s[|s| - 1]) then [] else [s[|s| - 1]]
  }

  lemma {:induction false} KeptMembers(s: seq<Offset>, remove: Offset -> bool)
    ensures forall x :: x in Kept(s, remove) <==> x in s && !remove(x)
  {
    if s != [] {
      KeptMembers(s[..|s| - 1], remove);
      assert s == s[..|s| - 1] + [s[|s| - 1]];
    }
  }

  /** The link after one in the middle of a list. */
  lemma NextOf(next: Links, prev: Links, head: Offset, front: seq<Offset>, link: Offset, back: seq<Offset>)
    requires Linked(next, prev, [head] + (front + [link] + back))
    ensures link in next && next[link] == if back == [] then head else back[0]
    ensures link != head && link !in front && link !in back
  {
    var ring := [head] + (front + [link] + back);
    Cut(next, prev, ring, |front| + 2);
    assert ring[|front| + 1] == link;
    assert forall i :: 0 <= i < |front| ==> ring[i + 1] == front[i];
    assert forall i :: 0 <= i < |back| ==> ring[i + |front| + 2] == back[i];
  }

  lemma KeptNext(visited: seq<Offset>, link: Offset, remove: Offset -> bool)
    ensures Kept(visited + [link], remove) == Kept(visited, remove) + if remove(link) then [] else [link]
  {
    assert (visited + [link])[..|visited|] == visited;
  }

  lemma Advance(s: seq<Offset>, i: nat)
    requires i < |s|
    ensures s[..i] + s[i..] == s && s[i..][0] == s[i] && s[..i] + [s[i]] == s[..i + 1] && s[i..][1..] == s[i + 1..]
  {
  }

  ghost function Removed(s: seq<Offset>, remove: Offset -> bool): set<Offset> {
    set x | x in s && remove(x)
  }

  /** How the parts of a list relate in one round of a traversal. */
  lemma RoundParts(head: Offset, remove: Offset -> bool, visited: seq<Offset>, rest: seq<Offset>)
    requires rest != [] && Distinct(visited + rest) && head !in visited + rest
    ensures var kept, link, tail := Kept(visited, remove), rest[0], rest[1..];
      && kept + rest == kept + [link] + tail
      && Kept(visited + [link], remove) + tail == (if remove(link) then kept + tail else kept + rest)
      && (forall x :: x in Removed(visited, remove) ==> x != head && x !in kept && x !in tail)
      && Removed(visited + [link], remove) == Removed(visited, remove) + (if remove(link) then {link} else {})
      && {head, link} + Elements(kept + tail) <= {head} + Elements(visited + rest)
  {
    var kept, link, tail := Kept(visited, remove), rest[0], rest[1..];
    KeptNext(visited, link, remove);
    assert kept + rest == kept + [link] + tail;
    RoundMembers(head, remove, visited, link, tail) by {
      assert visited + rest == visited + [link] + tail;
    }
    assert Elements(visited + [link] + tail) == Elements(visited + rest);
  }

  lemma RoundMembers(head: Offset, remove: Offset -> bool, visited: seq<Offset>, link: Offset, tail: seq<Offset>)
    requires Distinct(visited + [link] + tail) && head !in visited + [link] + tail
    ensures forall x :: x in Removed(visited, remove) ==> x != head && x !in Kept(visited, remove) && x !in tail
    ensures Removed(visited + [link], remove) == Removed(visited, remove) + (if remove(link) then {link} else {})
    ensures {head, link} + Elements(Kept(visited, remove) + tail) <= {head} + Elements(visited + [link] + tail)
  {
    DistinctParts(visited, link, tail);
    KeptMembers(visited, remove);
  }

  /** Where the first two steps of a traversal from the end of `kept` lead. */
  lemma FirstTwo(next: Links, prev: Links, head: Offset, kept: seq<Offset>, rest: seq<Offset>)
    requires Linked(next, prev, [head] + (kept + rest))
    ensures Distinct(rest) && head !in rest && head in next && next[head] in next
    ensures kept == [] ==> next[head] == if rest == [] then head else rest[0]
    ensures rest != [] ==> rest[0] in next && next[rest[0]] == if |rest| == 1 then head else rest[1]
  {
    var all := kept + rest;
    Ends(next, prev, head, all);
    DistinctSuffix(kept, rest);
    assert kept == [] ==> all == rest;
    HeadNext(next, prev, head, all);
    if rest != [] {
      assert all == kept + [rest[0]] + rest[1..];
      NextOf(next, prev, head, kept, rest[0], rest[1..]);
    }
  }

  lemma HeadNext(next: Links, prev: Links, head: Offset, all: seq<Offset>)
    requires Linked(next, prev, [head] + all)
    ensures head in next && next[head] in next
  {
    InState(next, prev, [head] + all);
    Ends(next, prev, head, all);
    if all != [] {
      assert all[0] in [head] + all;
    }
  }

  lemma DistinctSuffix(a: seq<Offset>, b: seq<Offset>)
    requires Distinct(a + b)
    ensures Distinct(b) && forall x :: x in b ==> x in a + b
  {
    assert forall i :: 0 <= i < |b| ==> b[i] == (a + b)[|a| + i];
  }

  lemma DistinctParts(front: seq<Offset>, link: Offset, back: seq<Offset>)
    requires Distinct(front + [link] + back)
    ensures link !in front && forall x :: x in front ==> x !in back
  {
    var s := front + [link] + back;
    assert forall i :: 0 <= i < |front| ==> s[i] == front[i];
    assert forall i :: 0 <= i < |back| ==> s[|front| + 1 + i] == back[i];
    assert s[|front|] == link;
  }

  class StackState {
    var next: Links
    var prev: Links

    ghost predicate List(head: Offset, items: seq<Offset>)
      reads this
    {
      Linked(next, prev, [head] + items)
    }

    /** Only the links of `touched` may differ from what they were. */
    ghost predicate Framed(n0: Links, p0: Links, touched: set<Offset>)
      reads this
    {
      && next.Keys == n0.Keys && prev.Keys == p0.Keys
      && (forall x :: x in n0 && x !in touched ==> next[x] == n0[x])
      && (forall x :: x in p0 && x !in touched ==> prev[x] == p0[x])
    }

    /** `oo_p_dllink_init`. */
    method Init(link: Offset)
      requires link in next && link in prev
      modifies this
      ensures next == old(next)[link := link] && prev == old(prev)[link := link]
      ensures List(link, [])
    {
      next := next[link := link];
      prev := prev[link := link];
    }

    /** `oo_p_dllink_is_empty`. */
    method IsEmpty(head: Offset, ghost items: seq<Offset>) returns (empty: bool)
      requires List(head, items)
      ensures empty <==> items == []
    {
      Ends(next, prev, head, items);
      empty := next[head] == head;
    }

    /** `oo_p_dllink_del` of an element: it leaves the list, the others keep their order,
        and its own fields are left as they were. */
    method Del(link: Offset, ghost head: Offset, ghost front: seq<Offset>, ghost back: seq<Offset>)
      requires List(head, front + [link] + back)
      modifies this
      ensures List(head, front + back)
      ensures Framed(old(next), old(prev), {head} + Elements(front + back))
    {
      ghost var ring := [head] + (front + [link] + back);
      ghost var k := |front| + 1;
      Unlink(next, prev, ring, k);
      assert ring[..k] + ring[k + 1..] == [head] + (front + back);
      next := next[prev[link] := next[link]];
      prev := prev[next[link] := prev[link]];
    }

    /** `oo_p_dllink_del` of a self-linked link changes nothing. */
    method DelUnlinked(link: Offset)
      requires List(link, [])
      modifies this
      ensures next == old(next) && prev == old(prev)
    {
      Ends(next, prev, link, []);
      next := next[prev[link] := next[link]];
      prev := prev[next[link] := prev[link]];
    }

    /** `oo_p_dllink_del_init`. */
    method DelInit(link: Offset, ghost head: Offset, ghost front: seq<Offset>, ghost back: seq<Offset>)
      requires List(head, front + [link] + back)
      modifies this
      ensures List(head, front + back) && List(link, [])
      ensures Framed(old(next), old(prev), {head, link} + Elements(front + back))
    {
      ghost var ring := [head] + (front + [link] + back);
      InState(next, prev, ring);
      assert ring[|front| + 1] == link;
      assert forall i :: 0 <= i < |ring| && i != |front| + 1 ==> ring[i] != link;
      assert [head] + (front + back) == ring[..|front| + 1] + ring[|front| + 2..];
      assert link !in [head] + (front + back);
      Del(link, head, front, back);
      ghost var n1, p1 := next, prev;
      Init(link);
      LinkedFrame(n1, p1, next, prev, {link}, [head] + (front + back));
    }

    /** `__oo_p_dllink_add`, in the source's order of stores. */
    method AddBetween(left: Offset, right: Offset, link: Offset)
      modifies this
      ensures next == old(next)[link := right][left := link]
      ensures prev == old(prev)[right := link][link := left]
    {
      prev := prev[right := link];
      next := next[link := right];
      prev := prev[link := left];
      next := next[left := link];
    }

    /** `oo_p_dllink_add`: prepends. */
    method Add(head: Offset, link: Offset, ghost items: seq<Offset>)
      requires List(head, items) && link !in [head] + items && link in next && link in prev
      modifies this
      ensures List(head, [link] + items)
      ensures Framed(old(next), old(prev), {head, link} + Elements(items))
    {
      ghost var ring := [head] + items;
      Ends(next, prev, head, items);
      Splice(next, prev, ring, 1, [link]);
      assert Inserted(ring, 1, [link]) == [head] + ([link] + items);
      ghost var right := next[head];
      assert next[link := right][head := link] == next[head := link][link := right];
      assert prev[right := link][link := head] == prev[link := head][right := link];
      AddBetween(head, next[head], link);
    }

    /** `oo_p_dllink_add_tail`: appends. */
    method AddTail(head: Offset, link: Offset, ghost items: seq<Offset>)
      requires List(head, items) && link !in [head] + items && link in next && link in prev
      modifies this
      ensures List(head, items + [link])
      ensures Framed(old(next), old(prev), {head, link} + Elements(items))
    {
      ghost var ring := [head] + items;
      Ends(next, prev, head, items);
      Splice(next, prev, ring, |ring|, [link]);
      assert Inserted(ring, |ring|, [link]) == [head] + (items + [link]);
      ghost var left := prev[head];
      assert next[link := head][left := link] == next[left := link][link := head];
      assert prev[head := link][link := left] == prev[link := left][head := link];
      AddBetween(prev[head], head, link);
    }

    /** `__oo_p_dllink_splice`. */
    method SpliceBetween(list: Offset, left: Offset, right: Offset)
      requires list in next && list in prev
      modifies this
      ensures var first, last := old(next[list]), old(prev[list]);
        && next == old(next)[left := first][last := right]
        && prev == old(prev)[first := left][right := last]
    {
      var first, last := next[list], prev[list];
      prev := prev[first := left];
      next := next[left := first];
      next := next[last := right];
      prev := prev[right := last];
    }

    /** `oo_p_dllink_splice`: the whole of `list` goes to the front of `into`. */
    method SpliceFront(list: Offset, into: Offset, ghost s: seq<Offset>, ghost t: seq<Offset>)
      requires List(list, s) && List(into, t)
      requires forall x :: x in [list] + s ==> x !in [into] + t
      modifies this
      ensures List(into, s + t)
      ensures Framed(old(next), old(prev), {into} + Elements(s + t))
    {
      var empty := IsEmpty(list, s);
      if !empty {
        ghost var ring := [into] + t;
        Ends(next, prev, into, t);
        Ends(next, prev, list, s);
        InState(next, prev, [list] + s);
        assert forall x :: x in s ==> x in [list] + s;
        Splice(next, prev, ring, 1, s);
        assert Inserted(ring, 1, s) == [into] + (s + t);
        SpliceBetween(list, into, next[into]);
      } else {
        assert s + t == t;
      }
    }

    /** `oo_p_dllink_splice_tail`: the whole of `list` goes to the back of `into`. */
    method SpliceTail(list: Offset, into: Offset, ghost s: seq<Offset>, ghost t: seq<Offset>)
      requires List(list, s) && List(into, t)
      requires forall x :: x in [list] + s ==> x !in [into] + t
      modifies this
      ensures List(into, t + s)
      ensures Framed(old(next), old(prev), {into} + Elements(s + t))
    {
      var empty := IsEmpty(list, s);
      if !empty {
        ghost var ring := [into] + t;
        Ends(next, prev, into, t);
        Ends(next, prev, list, s);
        InState(next, prev, [list] + s);
        assert forall x :: x in s ==> x in [list] + s;
        Splice(next, prev, ring, |ring|, s);
        assert Inserted(ring, |ring|, s) == [into] + (t + s);
        SpliceBetween(list, prev[into], into);
      } else {
        assert t + s == t;
      }
    }

    ghost predicate SelfLinked(link: Offset)
      reads this
    {
      link in next && next[link] == link && link in prev && prev[link] == link
    }

    /** The links that a traversal has removed are unused again. */
    ghost predicate Detached(visited: seq<Offset>, remove: Offset -> bool)
      reads this
    {
      forall x :: x in Removed(visited, remove) ==> SelfLinked(x)
    }

    /** The body of a traversal removes the link it is at; links removed before are not
        disturbed. */
    method RemoveCurrent(link: Offset, head: Offset, ghost kept: seq<Offset>, ghost tail: seq<Offset>,
                         ghost gone: set<Offset>)
      requires List(head, kept + [link] + tail)
      requires forall x :: x in gone ==> SelfLinked(x) && x != head && x !in kept && x !in tail
      modifies this
      ensures List(head, kept + tail)
      ensures SelfLinked(link) && forall x :: x in gone ==> SelfLinked(x)
      ensures Framed(old(next), old(prev), {head, link} + Elements(kept + tail))
    {
      DelInit(link, head, kept, tail);
      Ends(next, prev, link, []);
    }

    /** A traversal that has visited `visited` and removed the links it chose, and is at
        `link` with `n` to follow. */
    ghost predicate Traversing(head: Offset, remove: Offset -> bool, visited: seq<Offset>, rest: seq<Offset>,
                               link: Offset, n: Offset)
      reads this
    {
      && List(head, Kept(visited, remove) + rest)
      && (rest == [] ==> link == head)
      && (rest != [] ==> link == rest[0] && n == if |rest| == 1 then head else rest[1])
      && Detached(visited, remove)
    }

    /** One round of the loop: the body at `link`, then the step to the next link. */
    method Round(head: Offset, remove: Offset -> bool, link: Offset, n: Offset,
                 ghost visited: seq<Offset>, ghost rest: seq<Offset>)
      returns (link': Offset, n': Offset)
      requires rest != [] && Distinct(visited + rest) && head !in visited + rest
      requires Traversing(head, remove, visited, rest, link, n)
      modifies this
      ensures Traversing(head, remove, visited + [link], rest[1..], link', n')
      ensures Framed(old(next), old(prev), {head} + Elements(visited + rest))
    {
      ghost var kept, tail := Kept(visited, remove), rest[1..];
      RoundParts(head, remove, visited, rest);
      if remove(link) {
        RemoveCurrent(link, head, kept, tail, Removed(visited, remove));
      }
      FirstTwo(next, prev, head, Kept(visited + [link], remove), tail);
      link' := n;
      n' := next[link'];
    }

    /** A loop under `oo_p_dllink_for_each_safe` whose body may delete the link it is at:
        every link is visited once, in order, and the list keeps the others. */
    method ForEachSafe(head: Offset, remove: Offset -> bool, ghost items: seq<Offset>) returns (visited: seq<Offset>)
      requires List(head, items)
      modifies this
      ensures visited == items
      ensures List(head, Kept(items, remove)) && Detached(items, remove)
      ensures Framed(old(next), old(prev), {head} + Elements(items))
    {
      StartTraversal(head, remove, items);
      ghost var touched := {head} + Elements(items);
      visited := [];
      var link := next[head];
      var n := next[link];
      while link != head
        invariant visited <= items
        invariant Traversing(head, remove, visited, items[|visited|..], link, n)
        invariant Framed(old(next), old(prev), touched)
        decreases |items| - |visited|
      {
        var at := link;
        Advance(items, |visited|);
        link, n := Round(head, remove, link, n, visited, items[|visited|..]);
        visited := visited + [at];
      }
      assert visited == items;
      assert Kept(items, remove) + [] == Kept(items, remove);
    }

    lemma StartTraversal(head: Offset, remove: Offset -> bool, items: seq<Offset>)
      requires List(head, items)
      ensures head in next && next[head] in next && Distinct(items) && head !in items
      ensures Traversing(head, remove, [], items[0..], next[head], next[next[head]])
    {
      assert [] + items == items && items[0..] == items;
      FirstTwo(next, prev, head, [], items);
    }
  }
}
