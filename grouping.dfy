/** The grouping engine (plan_parties.js:133-201): `initializeGroups` cuts the
    roster into tables of six, and `arrangeForGroups` walks over all pairs of
    members and exchanges the two when its acceptance test says so.

    Members live in an arena (the roster, indexed from 0). A table is the
    sequence of the roster indices at its slots, and the member objects' `.group`
    back-references become one array `groupOf` from roster index to table index.
    The methods work on two arrays, `groups` and `groupOf`; the functions below
    say, on plain values (a `Seating`), what those methods compute. */
module Grouping {
  import opened Roster
  import opened Collections
  import opened Themes

  /** Members per table in `initializeGroups`. */
  const TableSize := 6

  /** `MINSCORE` (`10 ** 8`): a table scoring at least this much is saturated. */
  const MinScore: real := 100000000.0

  /** How many times `plan_parties` runs `arrangeForGroups`. */
  const Passes := 10

  /** A seating as a value: `groups[g]` lists the roster indices at table `g`, in
      slot order, and `groupOf[k]` is the table member `k` points back to. */
  datatype Seating = Seating(groups: seq<seq<nat>>, groupOf: seq<nat>)

  /** All indices lie in the roster. */
  predicate InRange(n: nat, idx: seq<nat>) {
    forall p | 0 <= p < |idx| :: idx[p] < n
  }

  /** Every reference is valid: each of the `n` members points back to an existing
      table, and every table holds roster members. */
  ghost predicate Indexed(n: nat, st: Seating) {
    && |st.groupOf| == n
    && (forall k | 0 <= k < n :: st.groupOf[k] < |st.groups|)
    && (forall g | 0 <= g < |st.groups| :: InRange(n, st.groups[g]))
  }

  /** Member `k` sits at the table its back-reference names. */
  ghost predicate Seated(st: Seating, k: nat) {
    k < |st.groupOf| && st.groupOf[k] < |st.groups| && k in st.groups[st.groupOf[k]]
  }

  /** The member at slot `p` of table `g` points back to table `g`. */
  ghost predicate Placed(st: Seating, g: nat, p: nat) {
    g < |st.groups| && p < |st.groups[g]| && st.groups[g][p] < |st.groupOf|
    && st.groupOf[st.groups[g][p]] == g
  }

  /** Table `g` holds no member twice. */
  ghost predicate DistinctSeats(st: Seating, g: nat) {
    g < |st.groups| && NoDup(st.groups[g])
  }

  /** Every one of the `n` members sits at exactly one table, at one slot only,
      and its back-reference names that table. */
  ghost predicate Partitioned(n: nat, st: Seating) {
    && Indexed(n, st)
    && (forall k | 0 <= k < n :: Seated(st, k))
    && (forall g, p | 0 <= g < |st.groups| && 0 <= p < |st.groups[g]| :: Placed(st, g, p))
    && (forall g | 0 <= g < |st.groups| :: DistinctSeats(st, g))
  }

  /** Same number of tables, and each table keeps its size. */
  predicate SameShape(a: Seating, b: Seating) {
    |a.groups| == |b.groups| && forall g | 0 <= g < |a.groups| :: |a.groups[g]| == |b.groups[g]|
  }

  /** In a partitioned seating a member is found at a table exactly when its
      back-reference names that table: it sits at one table and no other. */
  lemma ExactlyOneTable(n: nat, st: Seating, k: nat, g: nat)
    requires Partitioned(n, st) && k < n && g < |st.groups|
    ensures k in st.groups[g] <==> g == st.groupOf[k]
  {
    assert Seated(st, k);
    if k in st.groups[g] {
      var p :| 0 <= p < |st.groups[g]| && st.groups[g][p] == k;
      assert Placed(st, g, p);
    }
  }

  /** A table of a partitioned seating holds roster members only, each once. */
  lemma TableFacts(n: nat, st: Seating, g: nat)
    requires Partitioned(n, st) && g < |st.groups|
    ensures InRange(n, st.groups[g]) && NoDup(st.groups[g])
  {
    assert DistinctSeats(st, g);
  }

  // ------------------------------------------------------- initializeGroups

  /** The seating `initializeGroups` builds for `n` members: table `g` holds
      members `6g .. 6g+5` in that order, and member `k` points back to table `k / 6`. */
  function InitialSeating(n: nat): (r: Seating)
    ensures |r.groups| == n / TableSize && |r.groupOf| == n
    ensures forall g | 0 <= g < |r.groups| :: |r.groups[g]| == TableSize
  {
    Seating(seq(n / TableSize, g requires 0 <= g => seq(TableSize, p requires 0 <= p => TableSize * g + p)),
            seq(n, k requires 0 <= k => k / TableSize))
  }

  /** For a roster whose length is a multiple of six the initial seating is a
      partition into `n / 6` tables of six. */
  lemma {:induction false} InitialPartitioned(n: nat)
    requires n % TableSize == 0
    ensures Partitioned(n, InitialSeating(n))
    ensures |InitialSeating(n).groups| == n / TableSize
    ensures forall g | 0 <= g < n / TableSize :: |InitialSeating(n).groups[g]| == TableSize
  {
    var st := InitialSeating(n);
    forall k | 0 <= k < n
      ensures st.groupOf[k] < |st.groups| && Seated(st, k)
    {
      assert st.groups[k / TableSize][k % TableSize] == k;
    }
    forall g | 0 <= g < |st.groups| ensures InRange(n, st.groups[g]) {
      assert forall p | 0 <= p < TableSize :: st.groups[g][p] == TableSize * g + p;
    }
    forall g, p | 0 <= g < |st.groups| && 0 <= p < |st.groups[g]|
      ensures Placed(st, g, p)
    {
      assert st.groups[g][p] == TableSize * g + p;
      assert (TableSize * g + p) / TableSize == g;
    }
    forall g | 0 <= g < |st.groups| ensures DistinctSeats(st, g) {
      assert forall p | 0 <= p < TableSize :: st.groups[g][p] == TableSize * g + p;
    }
  }

  /** `initializeGroups()` for a roster of `n` members. The fill loop reads
      `members[i * 6 + j]` for every `j < 6` while `i < n / 6`; when `n` is not a
      multiple of six it reaches past the end and throws, which is `ok == false`.
      Otherwise it builds `InitialSeating(n)`. */
  method InitializeGroups(n: nat) returns (ok: bool, groups: array<seq<nat>>, groupOf: array<nat>)
    ensures fresh(groups) && fresh(groupOf)
    ensures ok <==> n % TableSize == 0
    ensures ok ==> Seating(groups[..], groupOf[..]) == InitialSeating(n)
  {
    groupOf := new nat[n];
    var built: seq<seq<nat>> := [];
    var i := 0;
    while TableSize * i < n
      invariant TableSize * i <= n
      invariant |built| == i
      invariant forall g | 0 <= g < i :: built[g] == InitialSeating(n).groups[g]
      invariant forall k | 0 <= k < TableSize * i :: groupOf[k] == k / TableSize
    {
      var group: seq<nat> := [];
      var j := 0;
      while j < TableSize
        invariant 0 <= j <= TableSize && TableSize * i < n
        invariant TableSize * i + j <= n
        invariant group == seq(j, p requires 0 <= p => TableSize * i + p)
        invariant forall k | 0 <= k < TableSize * i + j :: groupOf[k] == k / TableSize
      {
        if TableSize * i + j >= n {
          // `members[i * 6 + j]` is undefined: setting its `group` throws
          ok, groups := false, new seq<nat>[0];
          return;
        }
        groupOf[TableSize * i + j] := i;
        group := group + [TableSize * i + j];
        j := j + 1;
      }
      assert group == InitialSeating(n).groups[i];
      built := built + [group];
      i := i + 1;
    }
    groups := new seq<nat>[|built|](g requires 0 <= g < |built| => built[g]);
    ok := true;
    assert groups[..] == InitialSeating(n).groups;
    assert groupOf[..] == InitialSeating(n).groupOf;
  }

  // ------------------------------------------------------- arrangeForGroups

  /** The member records at the given roster indices. */
  function Members(roster: seq<Member>, idx: seq<nat>): seq<Member>
    requires InRange(|roster|, idx)
  {
    seq(|idx|, p requires 0 <= p < |idx| => roster[idx[p]])
  }

  /** Tables holding the same members, in any order, hold the same member records. */
  lemma MembersPerm(roster: seq<Member>, x: seq<nat>, y: seq<nat>)
    requires InRange(|roster|, x) && InRange(|roster|, y)
    requires multiset(x) == multiset(y)
    ensures multiset(Members(roster, x)) == multiset(Members(roster, y))
  {
    PermImage(x, y, Members(roster, x), Members(roster, y));
  }

  /** `s.filter(m => m !== a)`: every copy of `a` dropped, everything else kept. */
  function FilterOut(s: seq<nat>, a: nat): (r: seq<nat>)
    ensures forall x :: multiset(r)[x] == if x == a then 0 else multiset(s)[x]
  {
    if |s| == 0 then []
    else
      assert s == [s[0]] + s[1..];
      (if s[0] == a then [] else [s[0]]) + FilterOut(s[1..], a)
  }

  /** The hypothetical table holds roster members only. */
  lemma FilterAppendInRange(n: nat, s: seq<nat>, a: nat, b: nat)
    requires InRange(n, s) && b < n
    ensures InRange(n, FilterOut(s, a) + [b])
  {
    var r := FilterOut(s, a);
    forall p | 0 <= p < |r| ensures r[p] < n {
      assert multiset(r)[r[p]] > 0;
      assert r[p] in s;
    }
  }

  /** How many of two scores reach `MINSCORE`. */
  function SaturatedCount(s1: real, s2: real): (r: int)
    ensures 0 <= r <= 2
    ensures r == 0 <==> s1 < MinScore && s2 < MinScore
    ensures r == 2 <==> s1 >= MinScore && s2 >= MinScore
  {
    (if s1 >= MinScore then 1 else 0) + (if s2 >= MinScore then 1 else 0)
  }

  /** The test on the pair (i, j): score both tables as they are and as they would
      be after the exchange (the old table without its member, the other member
      appended), and accept when more of the two tables would be saturated or their
      combined score would rise. */
  function Accepts(roster: seq<Member>, score: seq<Member> -> real, st: Seating, i: nat, j: nat): bool
    requires Indexed(|roster|, st) && i < |roster| && j < |roster|
  {
    var group1, group2 := st.groups[st.groupOf[i]], st.groups[st.groupOf[j]];
    var originalScore1 := score(Members(roster, group1));
    var originalScore2 := score(Members(roster, group2));
    FilterAppendInRange(|roster|, group1, i, j);
    FilterAppendInRange(|roster|, group2, j, i);
    var newScore1 := score(Members(roster, FilterOut(group1, i) + [j]));
    var newScore2 := score(Members(roster, FilterOut(group2, j) + [i]));
    SaturatedCount(newScore1, newScore2) > SaturatedCount(originalScore1, originalScore2)
    || newScore1 + newScore2 > originalScore1 + originalScore2
  }

  /** Every slot holding `a` now holds `b`. */
  function ReplaceAll(s: seq<nat>, a: nat, b: nat): seq<nat> {
    seq(|s|, p requires 0 <= p < |s| => if s[p] == a then b else s[p])
  }

  /** One replacement loop on table `g`: every slot holding `a` gets `b`, and if a
      slot was replaced, `b` points back to table `g`. */
  function ReplaceStep(st: Seating, g: nat, a: nat, b: nat): (r: Seating)
    requires g < |st.groups| && b < |st.groupOf|
    ensures Indexed(|st.groupOf|, st) ==> Indexed(|st.groupOf|, r)
  {
    Seating(st.groups[g := ReplaceAll(st.groups[g], a, b)],
            if a in st.groups[g] then st.groupOf[b := g] else st.groupOf)
  }

  /** In a duplicate-free table, replacing `a` everywhere is replacing it at its one slot. */
  lemma ReplaceAllAt(s: seq<nat>, p: nat, a: nat, b: nat)
    requires NoDup(s) && p < |s| && s[p] == a
    ensures ReplaceAll(s, a, b) == s[p := b]
  {
  }

  /** The committed exchange of members `i` and `j`: both tables are read first,
      then the replacement loop runs on `i`'s table and then on `j`'s. */
  function Exchange(st: Seating, i: nat, j: nat): (r: Seating)
    requires Indexed(|st.groupOf|, st) && i < |st.groupOf| && j < |st.groupOf|
    ensures Indexed(|st.groupOf|, r)
  {
    var g1, g2 := st.groupOf[i], st.groupOf[j];
    ReplaceStep(ReplaceStep(st, g1, i, j), g2, j, i)
  }

  /** On a partition the exchange of two members at different tables does
      exactly this: with `p` and `q` the slots of `i` and `j`, `j` now sits at slot
      `p`, `i` at slot `q`, the back-references of the two are swapped, and every
      other table is unchanged. */
  lemma ExchangeSlots(st: Seating, i: nat, j: nat) returns (p: nat, q: nat)
    requires Partitioned(|st.groupOf|, st) && i < |st.groupOf| && j < |st.groupOf|
    requires st.groupOf[i] != st.groupOf[j]
    ensures p < |st.groups[st.groupOf[i]]| && st.groups[st.groupOf[i]][p] == i
    ensures q < |st.groups[st.groupOf[j]]| && st.groups[st.groupOf[j]][q] == j
    ensures |Exchange(st, i, j).groups| == |st.groups|
    ensures Exchange(st, i, j).groups[st.groupOf[i]] == st.groups[st.groupOf[i]][p := j]
    ensures Exchange(st, i, j).groups[st.groupOf[j]] == st.groups[st.groupOf[j]][q := i]
    ensures forall g | 0 <= g < |st.groups| && g != st.groupOf[i] && g != st.groupOf[j] ::
      Exchange(st, i, j).groups[g] == st.groups[g]
    ensures Exchange(st, i, j).groupOf == st.groupOf[i := st.groupOf[j]][j := st.groupOf[i]]
  {
    var g1, g2 := st.groupOf[i], st.groupOf[j];
    var s1, s2 := st.groups[g1], st.groups[g2];
    assert Seated(st, i) && Seated(st, j);
    assert DistinctSeats(st, g1) && DistinctSeats(st, g2);
    p :| 0 <= p < |s1| && s1[p] == i;
    q :| 0 <= q < |s2| && s2[q] == j;
    ReplaceAllAt(s1, p, i, j);
    ReplaceAllAt(s2, q, j, i);
    var mid := ReplaceStep(st, g1, i, j);
    assert mid.groups[g2] == s2;
  }

  /** The exchange of two members at different tables keeps the seating a
      partition, with every table keeping its size. */
  lemma ExchangeKeepsPartition(st: Seating, i: nat, j: nat)
    requires Partitioned(|st.groupOf|, st) && i < |st.groupOf| && j < |st.groupOf|
    requires st.groupOf[i] != st.groupOf[j]
    ensures Partitioned(|st.groupOf|, Exchange(st, i, j)) && SameShape(st, Exchange(st, i, j))
  {
    var n := |st.groupOf|;
    var r := Exchange(st, i, j);
    var g1, g2 := st.groupOf[i], st.groupOf[j];
    var s1, s2 := st.groups[g1], st.groups[g2];
    var p, q := ExchangeSlots(st, i, j);
    assert r.groups[g1] == s1[p := j];
    assert r.groups[g2] == s2[q := i];
    ExactlyOneTable(n, st, j, g1);
    ExactlyOneTable(n, st, i, g2);
    forall k | 0 <= k < n
      ensures Seated(r, k)
    {
      if k == i {
        assert r.groups[g2][q] == i;
      } else if k == j {
        assert r.groups[g1][p] == j;
      } else {
        assert Seated(st, k);
        var h := st.groupOf[k];
        var x :| 0 <= x < |st.groups[h]| && st.groups[h][x] == k;
        assert r.groups[h][x] == k;
      }
    }
    forall g, x | 0 <= g < |r.groups| && 0 <= x < |r.groups[g]|
      ensures Placed(r, g, x)
    {
      if g == g1 && x == p {
      } else if g == g2 && x == q {
      } else {
        assert r.groups[g][x] == st.groups[g][x];
        assert Placed(st, g, x);
      }
    }
    forall g | 0 <= g < |r.groups| ensures DistinctSeats(r, g) {
      assert DistinctSeats(st, g);
      if g == g1 {
        NoDupUpdate(s1, p, j);
      } else if g == g2 {
        NoDupUpdate(s2, q, i);
      }
    }
  }

  /** The body of the inner loop for the pair (i, j): members already at the same
      table are skipped; otherwise they are exchanged when `Accepts` says so. */
  function Step(roster: seq<Member>, score: seq<Member> -> real, st: Seating, i: nat, j: nat): (r: Seating)
    requires Indexed(|roster|, st) && i < |roster| && j < |roster|
    ensures Indexed(|roster|, r)
  {
    if st.groupOf[i] == st.groupOf[j] then st
    else if Accepts(roster, score, st, i, j) then Exchange(st, i, j)
    else st
  }

  /** `f(_, k)` applied for `k = lo .. hi-1` in turn: the shape shared by the
      inner loop, the outer loop and the repeated passes. */
  ghost function Fold(f: (Seating, nat) -> Seating, st: Seating, lo: nat, hi: nat): Seating
    requires lo <= hi
    decreases hi - lo
  {
    if hi == lo then st else f(Fold(f, st, lo, hi - 1), hi - 1)
  }

  /** Every application of `f` keeps the references of a seating in range. */
  ghost predicate KeepsIndexed(n: nat, f: (Seating, nat) -> Seating) {
    forall s, k: nat :: Indexed(n, s) ==> Indexed(n, f(s, k))
  }

  lemma {:induction false} FoldKeepsIndexed(n: nat, f: (Seating, nat) -> Seating, st: Seating, lo: nat, hi: nat)
    requires KeepsIndexed(n, f) && Indexed(n, st) && lo <= hi
    ensures Indexed(n, Fold(f, st, lo, hi))
    decreases hi - lo
  {
    if hi > lo {
      FoldKeepsIndexed(n, f, st, lo, hi - 1);
    }
  }

  /** Every application of `f` keeps a partition a partition, table sizes unchanged. */
  ghost predicate KeepsPartition(n: nat, f: (Seating, nat) -> Seating) {
    forall s, k: nat :: Partitioned(n, s) ==> Partitioned(n, f(s, k)) && SameShape(s, f(s, k))
  }

  lemma {:induction false} FoldKeepsPartition(n: nat, f: (Seating, nat) -> Seating, st: Seating, lo: nat, hi: nat)
    requires KeepsPartition(n, f) && Partitioned(n, st) && lo <= hi
    ensures Partitioned(n, Fold(f, st, lo, hi)) && SameShape(st, Fold(f, st, lo, hi))
    decreases hi - lo
  {
    if hi > lo {
      FoldKeepsPartition(n, f, st, lo, hi - 1);
    }
  }

  /** The inner loop body for member `i`, as a step of `Fold`. */
  ghost function RowStep(roster: seq<Member>, score: seq<Member> -> real, i: nat): (Seating, nat) -> Seating {
    (s: Seating, k: nat) => if Indexed(|roster|, s) && i < |roster| && k < |roster| then Step(roster, score, s, i, k) else s
  }

  /** The inner loop for member `i` after its partners `i+1 .. j-1`; later pairs
      see the exchanges made for earlier ones. */
  ghost function RowUpTo(roster: seq<Member>, score: seq<Member> -> real, st: Seating, i: nat, j: nat): (r: Seating)
    requires Indexed(|roster|, st) && i < j <= |roster|
    ensures Indexed(|roster|, r)
  {
    assert KeepsIndexed(|roster|, RowStep(roster, score, i));
    FoldKeepsIndexed(|roster|, RowStep(roster, score, i), st, i + 1, j);
    Fold(RowStep(roster, score, i), st, i + 1, j)
  }

  /** One more partner: the inner loop's state after `j` is the body applied to
      its state after `j - 1`. */
  lemma RowUpToNext(roster: seq<Member>, score: seq<Member> -> real, st: Seating, i: nat, j: nat)
    requires Indexed(|roster|, st) && i < j < |roster|
    ensures RowUpTo(roster, score, st, i, j + 1) == Step(roster, score, RowUpTo(roster, score, st, i, j), i, j)
  {
  }

  /** The whole inner loop for member `i`. */
  ghost function Row(roster: seq<Member>, score: seq<Member> -> real, st: Seating, i: nat): (r: Seating)
    requires Indexed(|roster|, st) && i < |roster|
    ensures Indexed(|roster|, r)
  {
    RowUpTo(roster, score, st, i, |roster|)
  }

  /** The outer loop body, as a step of `Fold`. */
  ghost function PassStep(roster: seq<Member>, score: seq<Member> -> real): (Seating, nat) -> Seating {
    (s: Seating, k: nat) => if Indexed(|roster|, s) && k < |roster| then Row(roster, score, s, k) else s
  }

  /** The outer loop after its first `i` members. */
  ghost function PassUpTo(roster: seq<Member>, score: seq<Member> -> real, st: Seating, i: nat): (r: Seating)
    requires Indexed(|roster|, st)
    ensures Indexed(|roster|, r)
  {
    assert KeepsIndexed(|roster|, PassStep(roster, score));
    FoldKeepsIndexed(|roster|, PassStep(roster, score), st, 0, i);
    Fold(PassStep(roster, score), st, 0, i)
  }

  /** One call of `arrangeForGroups(members, THEMES)`: the outer loop runs over
      every member but the last. */
  ghost function Pass(roster: seq<Member>, score: seq<Member> -> real, st: Seating): (r: Seating)
    requires Indexed(|roster|, st)
    ensures Indexed(|roster|, r)
  {
    PassUpTo(roster, score, st, if |roster| == 0 then 0 else |roster| - 1)
  }

  /** A call of `arrangeForGroups`, as a step of `Fold`. */
  ghost function RoundStep(roster: seq<Member>, score: seq<Member> -> real): (Seating, nat) -> Seating {
    (s: Seating, k: nat) => if Indexed(|roster|, s) then Pass(roster, score, s) else s
  }

  /** `count` passes in a row. */
  ghost function Rounds(roster: seq<Member>, score: seq<Member> -> real, st: Seating, count: nat): (r: Seating)
    requires Indexed(|roster|, st)
    ensures Indexed(|roster|, r)
  {
    assert KeepsIndexed(|roster|, RoundStep(roster, score));
    FoldKeepsIndexed(|roster|, RoundStep(roster, score), st, 0, count);
    Fold(RoundStep(roster, score), st, 0, count)
  }

  /** One more call of `arrangeForGroups` after `count` of them. */
  lemma RoundsNext(roster: seq<Member>, score: seq<Member> -> real, st: Seating, count: nat)
    requires Indexed(|roster|, st)
    ensures Rounds(roster, score, st, count + 1) == Pass(roster, score, Rounds(roster, score, st, count))
  {
  }

  /** Considering one pair keeps a partition a partition, with table sizes unchanged. */
  lemma StepKeepsPartition(roster: seq<Member>, score: seq<Member> -> real, st: Seating, i: nat, j: nat)
    requires Partitioned(|roster|, st) && i < |roster| && j < |roster|
    ensures Partitioned(|roster|, Step(roster, score, st, i, j)) && SameShape(st, Step(roster, score, st, i, j))
  {
    if st.groupOf[i] != st.groupOf[j] && Accepts(roster, score, st, i, j) {
      ExchangeKeepsPartition(st, i, j);
    }
  }

  /** The inner loop for one member keeps every member at exactly one table, with
      its back-reference right, and keeps every table's size. */
  lemma RowKeepsPartition(roster: seq<Member>, score: seq<Member> -> real, st: Seating, i: nat)
    requires Partitioned(|roster|, st) && i < |roster|
    ensures Partitioned(|roster|, Row(roster, score, st, i)) && SameShape(st, Row(roster, score, st, i))
  {
    forall s, k: nat | Partitioned(|roster|, s)
      ensures Partitioned(|roster|, RowStep(roster, score, i)(s, k)) && SameShape(s, RowStep(roster, score, i)(s, k))
    {
      if k < |roster| {
        StepKeepsPartition(roster, score, s, i, k);
      }
    }
    FoldKeepsPartition(|roster|, RowStep(roster, score, i), st, i + 1, |roster|);
  }

  /** A pass of `arrangeForGroups` keeps every member at exactly one table, with
      its back-reference right, and keeps every table's size. */
  lemma PassKeepsPartition(roster: seq<Member>, score: seq<Member> -> real, st: Seating)
    requires Partitioned(|roster|, st)
    ensures Partitioned(|roster|, Pass(roster, score, st)) && SameShape(st, Pass(roster, score, st))
  {
    forall s, k: nat | Partitioned(|roster|, s)
      ensures Partitioned(|roster|, PassStep(roster, score)(s, k)) && SameShape(s, PassStep(roster, score)(s, k))
    {
      if k < |roster| {
        RowKeepsPartition(roster, score, s, k);
      }
    }
    FoldKeepsPartition(|roster|, PassStep(roster, score), st, 0, if |roster| == 0 then 0 else |roster| - 1);
  }

  /** So do any number of passes. */
  lemma RoundsKeepPartition(roster: seq<Member>, score: seq<Member> -> real, st: Seating, count: nat)
    requires Partitioned(|roster|, st)
    ensures Partitioned(|roster|, Rounds(roster, score, st, count)) && SameShape(st, Rounds(roster, score, st, count))
  {
    forall s, k: nat | Partitioned(|roster|, s)
      ensures Partitioned(|roster|, RoundStep(roster, score)(s, k)) && SameShape(s, RoundStep(roster, score)(s, k))
    {
      PassKeepsPartition(roster, score, s);
    }
    FoldKeepsPartition(|roster|, RoundStep(roster, score), st, 0, count);
  }

  /** A table with member `a` at a slot, once, has after the exchange the members
      of the hypothetical table `filter(m => m !== a)` plus `b`. */
  lemma FilterAppendPerm(s: seq<nat>, p: nat, a: nat, b: nat)
    requires NoDup(s) && p < |s| && s[p] == a
    ensures multiset(FilterOut(s, a) + [b]) == multiset(s[p := b])
  {
    NoDupCount(s, a);
    assert s == s[..p] + [a] + s[p + 1..];
    assert s[p := b] == s[..p] + [b] + s[p + 1..];
    forall x ensures multiset(FilterOut(s, a) + [b])[x] == multiset(s[p := b])[x] {
    }
  }

  /** A table score that depends only on who sits at the table, not on the
      order of its seats. */
  ghost predicate IgnoresOrder(score: seq<Member> -> real) {
    forall a: seq<Member>, b: seq<Member> | multiset(a) == multiset(b) :: score(a) == score(b)
  }

  /** `getGroupScore(group, THEMES)` is such a score. */
  lemma GroupScoreIgnoresOrder()
    ensures IgnoresOrder(GroupScore)
  {
    forall a: seq<Member>, b: seq<Member> | multiset(a) == multiset(b) ensures GroupScore(a) == GroupScore(b) {
      GroupScorePerm(a, b);
    }
  }

  /** The hypothetical table the acceptance test scores, for a member `a` sitting
      at slot `p`, scores what the table really scores once `b` takes that slot. */
  lemma HypotheticalScore(roster: seq<Member>, score: seq<Member> -> real, s: seq<nat>, p: nat, a: nat, b: nat)
    requires IgnoresOrder(score)
    requires InRange(|roster|, s) && NoDup(s) && p < |s| && s[p] == a && b < |roster|
    ensures InRange(|roster|, FilterOut(s, a) + [b]) && InRange(|roster|, s[p := b])
    ensures score(Members(roster, FilterOut(s, a) + [b])) == score(Members(roster, s[p := b]))
  {
    FilterAppendInRange(|roster|, s, a, b);
    FilterAppendPerm(s, p, a, b);
    MembersPerm(roster, FilterOut(s, a) + [b], s[p := b]);
  }

  /** The scores the acceptance test computes for the hypothetical tables are the
      scores the two tables really have after the exchange: a pair is exchanged
      exactly when exchanging it raises the number of saturated tables among the
      two, or raises their combined score. */
  lemma AcceptsIffExchangeRaises(roster: seq<Member>, score: seq<Member> -> real, st: Seating, i: nat, j: nat)
    requires IgnoresOrder(score) && Partitioned(|roster|, st) && i < |roster| && j < |roster|
    requires st.groupOf[i] != st.groupOf[j]
    ensures
      var g1, g2 := st.groupOf[i], st.groupOf[j];
      var after := Exchange(st, i, j);
      var before1 := score(Members(roster, st.groups[g1]));
      var before2 := score(Members(roster, st.groups[g2]));
      var after1 := score(Members(roster, after.groups[g1]));
      var after2 := score(Members(roster, after.groups[g2]));
      Accepts(roster, score, st, i, j) <==>
        SaturatedCount(after1, after2) > SaturatedCount(before1, before2) || after1 + after2 > before1 + before2
  {
    var g1, g2 := st.groupOf[i], st.groupOf[j];
    var s1, s2 := st.groups[g1], st.groups[g2];
    var after := Exchange(st, i, j);
    var p, q := ExchangeSlots(st, i, j);
    TableFacts(|roster|, st, g1);
    TableFacts(|roster|, st, g2);
    HypotheticalScore(roster, score, s1, p, i, j);
    HypotheticalScore(roster, score, s2, q, j, i);
    assert after.groups[g1] == s1[p := j];
    assert after.groups[g2] == s2[q := i];
  }

  /** One replacement loop of an accepted exchange, on table `g`: every slot of
      the table that holds `a` is given to `b`, and `b` then points back to `g`. */
  method ReplaceInGroup(groups: array<seq<nat>>, groupOf: array<nat>, g: nat, a: nat, b: nat)
    requires g < groups.Length && b < groupOf.Length
    modifies groups, groupOf
    ensures Seating(groups[..], groupOf[..]) == ReplaceStep(old(Seating(groups[..], groupOf[..])), g, a, b)
  {
    var group := groups[g];
    var index := 0;
    while index < |group|
      modifies groupOf
      invariant 0 <= index <= |group| == |old(groups[g])|
      invariant forall p | 0 <= p < |group| ::
        group[p] == if p < index && old(groups[g])[p] == a then b else old(groups[g])[p]
      invariant groupOf[..] == if a in old(groups[g])[..index] then old(groupOf[..])[b := g] else old(groupOf[..])
    {
      assert old(groups[g])[..index + 1] == old(groups[g])[..index] + [old(groups[g])[index]];
      if group[index] == a {
        groupOf[b] := g;
        group := group[index := b];
      }
      index := index + 1;
    }
    assert old(groups[g])[..index] == old(groups[g]);
    assert group == ReplaceAll(old(groups[g]), a, b);
    groups[g] := group;
    assert groups[..] == old(groups[..])[g := group];
  }

  /** The two replacement loops that commit an accepted exchange of `i` and `j`. */
  method ExchangeInPlace(groups: array<seq<nat>>, groupOf: array<nat>, i: nat, j: nat)
    requires Indexed(groupOf.Length, Seating(groups[..], groupOf[..]))
    requires i < groupOf.Length && j < groupOf.Length
    modifies groups, groupOf
    ensures Seating(groups[..], groupOf[..]) == Exchange(old(Seating(groups[..], groupOf[..])), i, j)
  {
    var group1, group2 := groupOf[i], groupOf[j];
    ReplaceInGroup(groups, groupOf, group1, i, j);
    ReplaceInGroup(groups, groupOf, group2, j, i);
  }

  /** The body of the inner loop for the pair (i, j): it takes the inner loop for
      member `i` from partner `j` to partner `j + 1`. */
  method ConsiderPair(roster: seq<Member>, score: seq<Member> -> real, groups: array<seq<nat>>, groupOf: array<nat>,
                      ghost start: Seating, i: nat, j: nat)
    requires Indexed(|roster|, start) && i < j < |roster|
    requires Seating(groups[..], groupOf[..]) == RowUpTo(roster, score, start, i, j)
    modifies groups, groupOf
    ensures Seating(groups[..], groupOf[..]) == RowUpTo(roster, score, start, i, j + 1)
  {
    RowUpToNext(roster, score, start, i, j);
    if groupOf[i] != groupOf[j] && Accepts(roster, score, Seating(groups[..], groupOf[..]), i, j) {
      ExchangeInPlace(groups, groupOf, i, j);
    }
  }

  /** The inner loop of `arrangeForGroups` for member `i`: its partners `j > i`
      in roster order, each accepted exchange committed before the next partner
      is looked at. */
  method ArrangeRow(roster: seq<Member>, score: seq<Member> -> real, groups: array<seq<nat>>, groupOf: array<nat>, i: nat)
    requires Indexed(|roster|, Seating(groups[..], groupOf[..])) && i < |roster|
    modifies groups, groupOf
    ensures Seating(groups[..], groupOf[..]) == Row(roster, score, old(Seating(groups[..], groupOf[..])), i)
  {
    ghost var start := Seating(groups[..], groupOf[..]);
    var j := i + 1;
    while j < |roster|
      invariant i < j <= |roster|
      invariant Seating(groups[..], groupOf[..]) == RowUpTo(roster, score, start, i, j)
    {
      ConsiderPair(roster, score, groups, groupOf, start, i, j);
      j := j + 1;
    }
  }

  /** `arrangeForGroups(members, THEMES)`: one pass over all pairs `i < j`. */
  method ArrangeForGroups(roster: seq<Member>, score: seq<Member> -> real, groups: array<seq<nat>>, groupOf: array<nat>)
    requires Indexed(|roster|, Seating(groups[..], groupOf[..]))
    modifies groups, groupOf
    ensures Seating(groups[..], groupOf[..]) == Pass(roster, score, old(Seating(groups[..], groupOf[..])))
  {
    ghost var start := Seating(groups[..], groupOf[..]);
    var i := 0;
    while i + 1 < |roster|
      invariant i < |roster| || i == 0
      invariant Seating(groups[..], groupOf[..]) == PassUpTo(roster, score, start, i)
    {
      ArrangeRow(roster, score, groups, groupOf, i);
      i := i + 1;
    }
  }
}
