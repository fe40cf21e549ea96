/** Reading a row of the forward table while the control plane server rewrites it.

    A row holds two copies of its data and a 32-bit version whose parity says which copy
    is to be read.  The server fills the other copy, bumps the version and then brings the
    first copy up to date; it may also bump the version alone.  The client's fast path
    checks the version, copies the data and checks the version again.  Neither side
    copies atomically: each word is a step of its own, in any order. */
module FwdVersion {

  /** The version is the number of bumps, modulo this. */
  const VERSIONS: nat := 0x1_0000_0000

  type Data = seq<int>

  datatype Writer =
    | Quiet
    | Filling(value: Data, done: set<nat>)   // words of the unread copy written so far
    | Mirroring(done: set<nat>)              // after the bump, words of the other copy

  /** `began` is the number of bumps when the first check passed, `got` the words copied. */
  datatype Reader =
    | Outside
    | Copying(version: nat, began: nat, got: map<nat, int>)
    | Fast(began: nat, got: map<nat, int>)
    | Slow

  /** `published[c]` is the data that was current after `c` bumps. */
  datatype State = State(copies: seq<Data>, published: seq<Data>, writer: Writer, reader: Reader)

  datatype Move =
    | Begin(value: Data)
    | WriteWord(j: nat)
    | Publish
    | Finish
    | BumpOnly
    | FirstCheck(version: nat)
    | ReadWord(j: nat)
    | SecondCheck

  function Bumps(s: State): int { |s.published| - 1 }

  function Version(s: State): int { Bumps(s) % VERSIONS }

  predicate Whole(words: set<nat>, size: nat) {
    forall j :: 0 <= j < size ==> j in words
  }

  /** Rows of `size` words. */
  ghost predicate Shape(s: State, size: nat) {
    && |s.copies| == 2 && |s.copies[0]| == |s.copies[1]| == size
    && s.published != [] && forall c :: 0 <= c < |s.published| ==> |s.published[c]| == size
  }

  function Current(s: State): Data
    requires s.published != []
  {
    s.published[|s.published| - 1]
  }

  function WriteCopy(s: State, copy: nat, j: nat, word: int): State
    requires copy < |s.copies| && j < |s.copies[copy]|
  {
    s.(copies := s.copies[copy := s.copies[copy][j := word]])
  }

  /** One step of the interleaving; a move that does not apply changes nothing. */
  ghost function Step(s: State, size: nat, m: Move): (r: State)
    requires Shape(s, size)
    ensures Shape(r, size)
  {
    match m
    case FirstCheck(_) => ReaderStep(s, size, m)
    case ReadWord(_) => ReaderStep(s, size, m)
    case SecondCheck => ReaderStep(s, size, m)
    case _ => WriterStep(s, size, m)
  }

  /** The control plane server. */
  ghost function WriterStep(s: State, size: nat, m: Move): (r: State)
    requires Shape(s, size)
    ensures Shape(r, size)
  {
    match (m, s.writer)
    case (Begin(value), Quiet) =>
      if |value| == size then s.(writer := Filling(value, {})) else s
    case (WriteWord(j), Filling(value, done)) =>
      if j < size && |value| == size
      then WriteCopy(s, (Bumps(s) + 1) % 2, j, value[j]).(writer := Filling(value, done + {j})) else s
    case (Publish, Filling(value, done)) =>
      if Whole(done, size) && |value| == size
      then s.(published := s.published + [value], writer := Mirroring({})) else s
    case (WriteWord(j), Mirroring(done)) =>
      if j < size
      then WriteCopy(s, (Bumps(s) + 1) % 2, j, Current(s)[j]).(writer := Mirroring(done + {j})) else s
    case (Finish, Mirroring(done)) => if Whole(done, size) then s.(writer := Quiet) else s
    case (BumpOnly, Quiet) => s.(published := s.published + [Current(s)])
    case _ => s
  }

  /** The fast path of `oo_cp_route_resolve`. */
  ghost function ReaderStep(s: State, size: nat, m: Move): (r: State)
    requires Shape(s, size)
    ensures Shape(r, size)
  {
    match (m, s.reader)
    case (FirstCheck(version), Outside) =>
      s.(reader := if version == Version(s) then Copying(version, Bumps(s), map[]) else Slow)
    case (ReadWord(j), Copying(version, began, got)) =>
      if j < size then s.(reader := Copying(version, began, got[j := s.copies[version % 2][j]])) else s
    case (SecondCheck, Copying(version, began, got)) =>
      if !Whole(got.Keys, size) then s
      else s.(reader := if version == Version(s) then Fast(began, got) else Slow)
    case _ => s
  }

  /** The copy of the present parity is the current data, and the other is on its way. */
  ghost predicate WriterOk(s: State, size: nat)
    requires Shape(s, size)
  {
    var shown, other := s.copies[Bumps(s) % 2], s.copies[(Bumps(s) + 1) % 2];
    && shown == Current(s)
    && match s.writer
       case Quiet => other == Current(s)
       case Filling(value, done) =>
         |value| == size && forall j :: 0 <= j < size && j in done ==> other[j] == value[j]
       case Mirroring(done) =>
         forall j :: 0 <= j < size && j in done ==> other[j] == Current(s)[j]
  }

  /** Words copied while the version has not moved are words of the current data. */
  ghost predicate ReaderOk(s: State, size: nat)
    requires Shape(s, size)
  {
    match s.reader
    case Outside => true
    case Slow => true
    case Copying(version, began, got) =>
      && version == began % VERSIONS && began <= Bumps(s)
      && (began == Bumps(s) ==> Matches(got, Current(s)))
    case Fast(began, got) => true
  }

  ghost predicate Matches(got: map<nat, int>, data: Data) {
    forall j :: j in got ==> j < |data| && got[j] == data[j]
  }

  ghost predicate Invariant(s: State, size: nat) {
    Shape(s, size) && WriterOk(s, size) && ReaderOk(s, size)
  }

  /** A word stored in the copy that is not shown. */
  lemma WriteWordInvariant(s: State, size: nat, j: nat)
    requires Invariant(s, size)
    ensures Invariant(WriterStep(s, size, WriteWord(j)), size)
  {
    assert (Bumps(s) + 1) % 2 != Bumps(s) % 2;
  }

  lemma PublishInvariant(s: State, size: nat)
    requires Invariant(s, size)
    ensures Invariant(WriterStep(s, size, Publish), size)
  {
    if s.writer.Filling? && Whole(s.writer.done, size) {
      assert s.copies[(Bumps(s) + 1) % 2] == s.writer.value;
    }
  }

  lemma WriterInvariant(s: State, size: nat, m: Move)
    requires Invariant(s, size)
    ensures Invariant(WriterStep(s, size, m), size)
  {
    match m
    case WriteWord(j) => WriteWordInvariant(s, size, j);
    case Publish => PublishInvariant(s, size);
    case Finish =>
      if s.writer.Mirroring? && Whole(s.writer.done, size) {
        assert s.copies[(Bumps(s) + 1) % 2] == Current(s);
      }
    case _ =>
  }

  lemma ReaderInvariant(s: State, size: nat, m: Move)
    requires Invariant(s, size)
    ensures Invariant(ReaderStep(s, size, m), size)
  {
  }

  lemma StepInvariant(s: State, size: nat, m: Move)
    requires Invariant(s, size)
    ensures Invariant(Step(s, size, m), size)
  {
    WriterInvariant(s, size, m);
    ReaderInvariant(s, size, m);
  }

  /** A row just filled with `first`. */
  function Initial(first: Data): State {
    State([first, first], [first], Quiet, Outside)
  }

  ghost function Exec(s: State, size: nat, moves: seq<Move>): (r: State)
    requires Shape(s, size)
    ensures Shape(r, size)
  {
    if moves == [] then s else Step(Exec(s, size, moves[..|moves| - 1]), size, moves[|moves| - 1])
  }

  lemma {:induction false} RunInvariant(first: Data, moves: seq<Move>)
    ensures Invariant(Exec(Initial(first), |first|, moves), |first|)
  {
    if moves != [] {
      var before := moves[..|moves| - 1];
      RunInvariant(first, before);
      StepInvariant(Exec(Initial(first), |first|, before), |first|, moves[|moves| - 1]);
    }
  }

  /** The second check passes at the end of the run `moves`, after a read that began when
      `began` bumps had been made. */
  ghost predicate Returns(first: Data, moves: seq<Move>, began: nat, got: map<nat, int>) {
    var q := Exec(Initial(first), |first|, moves);
    q.reader.Copying? && ReaderStep(q, |first|, SecondCheck).reader == Fast(began, got)
  }

  /** When the fast path returns 1, and fewer than 2^32 bumps were made since its first
      check, none was: what it copied is, word for word, the data published for that
      version, and was current during the whole of the call. */
  lemma FastReadIsCurrent(first: Data, moves: seq<Move>, began: nat, got: map<nat, int>)
    requires Returns(first, moves, began, got)
    requires Bumps(Exec(Initial(first), |first|, moves)) - began < 0x1_0000_0000
    ensures var q := Exec(Initial(first), |first|, moves);
      && Bumps(q) == began && Current(q) == q.published[began]
      && forall j :: 0 <= j < |first| ==> j in got && got[j] == q.published[began][j]
  {
    RunInvariant(first, moves);
    var q := Exec(Initial(first), |first|, moves);
    SameVersion(began, Bumps(q));
  }

  /** And it does return 1 when nothing has changed: a reader that has copied everything passes the second check,
      with fewer than 2^32 bumps since the first, exactly if there was none. */
  lemma FastExactly(first: Data, moves: seq<Move>, q: State)
    requires q == Exec(Initial(first), |first|, moves) && q.reader.Copying? && Whole(q.reader.got.Keys, |first|)
    requires Bumps(q) - q.reader.began < 0x1_0000_0000
    ensures ReaderStep(q, |first|, SecondCheck).reader ==
      if Bumps(q) == q.reader.began then Fast(q.reader.began, q.reader.got) else Slow
  {
    RunInvariant(first, moves);
    if Version(q) == q.reader.version {
      SameVersion(q.reader.began, Bumps(q));
    }
  }

  lemma SameVersion(x: nat, y: nat)
    requires x <= y < x + VERSIONS && x % VERSIONS == y % VERSIONS
    ensures x == y
  {
    var p, q := x / VERSIONS, y / VERSIONS;
    assert y - x == VERSIONS * (q - p);
  }

  lemma ExecPrefix(s: State, size: nat, moves: seq<Move>, k: nat)
    requires Shape(s, size) && k < |moves|
    ensures Exec(s, size, moves[..k + 1]) == Step(Exec(s, size, moves[..k]), size, moves[k])
  {
    assert moves[..k + 1][..k] == moves[..k];
  }

  function Bumping(k: nat): seq<Move> {
    if k == 0 then [] else Bumping(k - 1) + [BumpOnly]
  }

  /** `t` is `r` after `k` bumps of the version alone. */
  ghost predicate BumpedBy(r: State, t: State, k: nat)
    requires r.published != []
  {
    && t == r.(published := t.published) && |t.published| == |r.published| + k
    && forall c :: 0 <= c < |t.published| ==>
      t.published[c] == (if c < |r.published| then r.published[c] else Current(r))
  }

  lemma OneMoreBump(r: State, t: State, size: nat, k: nat)
    requires r.published != [] && r.writer == Quiet && BumpedBy(r, t, k) && Shape(t, size)
    ensures BumpedBy(r, Step(t, size, BumpOnly), k + 1)
  {
    assert Step(t, size, BumpOnly) == t.(published := t.published + [Current(t)]);
    assert Current(t) == Current(r);
  }

  lemma ExecAppend(s: State, size: nat, moves: seq<Move>, m: Move)
    requires Shape(s, size)
    ensures Exec(s, size, moves + [m]) == Step(Exec(s, size, moves), size, m)
  {
    assert (moves + [m])[..|moves|] == moves;
  }

  lemma {:induction false} ManyBumps(s: State, size: nat, moves: seq<Move>, r: State, k: nat)
    requires Shape(s, size) && r == Exec(s, size, moves) && r.writer == Quiet
    ensures BumpedBy(r, Exec(s, size, moves + Bumping(k)), k)
  {
    if k == 0 {
      assert moves + Bumping(0) == moves;
    } else {
      ManyBumps(s, size, moves, r, k - 1);
      OneMoreBump(r, Exec(s, size, moves + Bumping(k - 1)), size, k - 1);
      ExecAppend(s, size, moves + Bumping(k - 1), BumpOnly);
      assert moves + Bumping(k) == moves + Bumping(k - 1) + [BumpOnly];
    }
  }

  /** Reading the first word of `[0, 0]`, and then the publication of `[1, 1]`. */
  const HALF_READ: seq<Move> := [
    FirstCheck(0), ReadWord(0),
    Begin([1, 1]), WriteWord(0), WriteWord(1), Publish, WriteWord(0), WriteWord(1), Finish]

  const HALF: Reader := Copying(0, 0, map[0 := 0])

  /** The state after `k` of these moves. */
  function HalfReadState(k: nat): State {
    if k == 0 then Initial([0, 0])
    else if k == 1 then State([[0, 0], [0, 0]], [[0, 0]], Quiet, Copying(0, 0, map[]))
    else if k == 2 then State([[0, 0], [0, 0]], [[0, 0]], Quiet, HALF)
    else if k == 3 then State([[0, 0], [0, 0]], [[0, 0]], Filling([1, 1], {}), HALF)
    else if k == 4 then State([[0, 0], [1, 0]], [[0, 0]], Filling([1, 1], {0}), HALF)
    else if k == 5 then State([[0, 0], [1, 1]], [[0, 0]], Filling([1, 1], {0, 1}), HALF)
    else if k == 6 then State([[0, 0], [1, 1]], [[0, 0], [1, 1]], Mirroring({}), HALF)
    else if k == 7 then State([[1, 0], [1, 1]], [[0, 0], [1, 1]], Mirroring({0}), HALF)
    else if k == 8 then State([[1, 1], [1, 1]], [[0, 0], [1, 1]], Mirroring({0, 1}), HALF)
    else State([[1, 1], [1, 1]], [[0, 0], [1, 1]], Quiet, HALF)
  }

  lemma HalfReadRead(k: nat)
    requires k < 2
    ensures Shape(HalfReadState(k), 2) && Step(HalfReadState(k), 2, HALF_READ[k]) == HalfReadState(k + 1)
  {
  }

  lemma HalfReadFill(k: nat)
    requires 2 <= k < 5
    ensures Shape(HalfReadState(k), 2) && Step(HalfReadState(k), 2, HALF_READ[k]) == HalfReadState(k + 1)
  {
    assert [0, 0][0 := 1] == [1, 0] && [1, 0][1 := 1] == [1, 1];
    assert [[0, 0], [0, 0]][1 := [1, 0]] == [[0, 0], [1, 0]] && [[0, 0], [1, 0]][1 := [1, 1]] == [[0, 0], [1, 1]];
    var none: set<nat> := {};
    assert none + {0} == {0} && {0} + {1} == {0, 1};
  }

  lemma HalfReadMirror(k: nat)
    requires 5 <= k < 9
    ensures Shape(HalfReadState(k), 2) && Step(HalfReadState(k), 2, HALF_READ[k]) == HalfReadState(k + 1)
  {
    assert [0, 0][0 := 1] == [1, 0] && [1, 0][1 := 1] == [1, 1];
    assert [[0, 0], [1, 1]][0 := [1, 0]] == [[1, 0], [1, 1]] && [[1, 0], [1, 1]][0 := [1, 1]] == [[1, 1], [1, 1]];
    assert [[0, 0]] + [[1, 1]] == [[0, 0], [1, 1]];
    var none: set<nat> := {};
    assert none + {0} == {0} && {0} + {1} == {0, 1};
  }

  lemma {:induction false} HalfReadRun(k: nat)
    requires k <= 9
    ensures Shape(Initial([0, 0]), 2) && Exec(Initial([0, 0]), 2, HALF_READ[..k]) == HalfReadState(k)
  {
    if k > 0 {
      HalfReadRun(k - 1);
      ExecPrefix(Initial([0, 0]), 2, HALF_READ, k - 1);
      if k <= 2 {
        HalfReadRead(k - 1);
      } else if k <= 5 {
        HalfReadFill(k - 1);
      } else {
        HalfReadMirror(k - 1);
      }
    }
  }

  lemma HalfRead(r: State)
    requires r == Exec(Initial([0, 0]), 2, HALF_READ)
    ensures r == State([[1, 1], [1, 1]], [[0, 0], [1, 1]], Quiet, HALF)
  {
    HalfReadRun(9);
    assert HALF_READ[..9] == HALF_READ;
  }

  /** The state just before the second check of a read that spans 2^32 bumps. */
  lemma WrapRead(bumps: seq<Move>, t: State)
    requires bumps == HALF_READ + Bumping(VERSIONS - 1) && t == Exec(Initial([0, 0]), 2, bumps)
    ensures t.reader == HALF && t.copies == [[1, 1], [1, 1]] && |t.published| == VERSIONS + 1
    ensures forall c :: 0 <= c < |t.published| ==> t.published[c] == [0, 0] || t.published[c] == [1, 1]
  {
    var r := Exec(Initial([0, 0]), 2, HALF_READ);
    HalfRead(r);
    ManyBumps(Initial([0, 0]), 2, HALF_READ, r, VERSIONS - 1);
    assert r.published[0] == [0, 0] && r.published[1] == [1, 1];
  }

  lemma ReadSecondWord(t: State)
    requires Shape(t, 2) && t.reader == HALF && t.copies == [[1, 1], [1, 1]]
    ensures Step(t, 2, ReadWord(1)) == t.(reader := Copying(0, 0, map[0 := 0, 1 := 1]))
  {
    assert map[0 := 0][1 := 1] == map[0 := 0, 1 := 1];
  }

  lemma SecondCheckPasses(q: State)
    requires Shape(q, 2) && q.reader == Copying(0, 0, map[0 := 0, 1 := 1]) && |q.published| == VERSIONS + 1
    ensures ReaderStep(q, 2, SecondCheck).reader == Fast(0, map[0 := 0, 1 := 1])
  {
    assert Whole(map[0 := 0, 1 := 1].Keys, 2);
  }

  /** The bound is exact: after 2^32 bumps the version is back where it was, and the fast
      path can return a mixture that was never published. */
  lemma TornAfterWrap() returns (moves: seq<Move>, got: map<nat, int>)
    ensures Returns([0, 0], moves, 0, got)
    ensures Bumps(Exec(Initial([0, 0]), 2, moves)) == VERSIONS
    ensures forall c :: 0 <= c < |Exec(Initial([0, 0]), 2, moves).published| ==>
      !Matches(got, Exec(Initial([0, 0]), 2, moves).published[c])
  {
    var bumps := HALF_READ + Bumping(VERSIONS - 1);
    var t := Exec(Initial([0, 0]), 2, bumps);
    moves := bumps + [ReadWord(1)];
    got := map[0 := 0, 1 := 1];
    WrapRead(bumps, t);
    ReadSecondWord(t);
    ExecAppend(Initial([0, 0]), 2, bumps, ReadWord(1));
    SecondCheckPasses(Exec(Initial([0, 0]), 2, moves));
    assert 0 in got && 1 in got;
  }
}
