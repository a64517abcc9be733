/** The four themes of the planner (plan_parties.js:5-131): for each attribute a
    `check` that labels a table whose members all share a value, and a `score`
    that penalises values held by several members; `GroupScore` adds the four
    scores up. Tables are given as the sequence of their members. */
module Themes {
  import opened Roster
  import opened Collections

  // ---------------------------------------------------------------- checks

  /** The JavaScript value a `check` returns: `false`, `undefined` (the shared
      value of an attribute nobody has) or a string. */
  datatype Label = False | Undefined | Text(text: string)

  /** Whether `if (title)` keeps a label: only a non-empty string does. */
  predicate Truthy(l: Label) {
    l.Text? && l.text != ""
  }

  /** All elements are equal. */
  predicate Uniform<T(==)>(s: seq<T>) {
    forall p, q | 0 <= p < |s| && 0 <= q < |s| :: s[p] == s[q]
  }

  function ValueLabel(v: Option<string>): Label {
    match v
    case None => Undefined
    case Some(s) => Text(s)
  }

  /** `getThemeInGroup(theme)(group)`: the value every member shares, else `false`. */
  function ThemeLabel(ms: seq<Member>, a: Attr): (r: Label)
    requires |ms| > 0
    ensures r != False <==> Uniform(Project(ms, a))
    ensures r != False ==> forall k | 0 <= k < |ms| :: r == ValueLabel(AttrValue(ms[k], a))
  {
    var first := AttrValue(ms[0], a);
    if exists k | 0 <= k < |ms| :: AttrValue(ms[k], a) != first then
      var k :| 0 <= k < |ms| && AttrValue(ms[k], a) != first;
      assert Project(ms, a)[k] != Project(ms, a)[0];
      False
    else ValueLabel(first)
  }

  /** How a template literal shows an optional value. */
  function ShowValue(v: Option<string>): string {
    match v
    case None => "undefined"
    case Some(s) => s
  }

  /** `getLevelInGroup(group)`: "Level <value>" when every member shares the level,
      else `false`; a level nobody has still gives the truthy "Level undefined". */
  function LevelLabel(ms: seq<Member>): (r: Label)
    requires |ms| > 0
    ensures r != False <==> Uniform(Project(ms, Level))
    ensures r != False ==> Truthy(r)
    ensures r != False ==> forall k | 0 <= k < |ms| :: r.text == "Level " + ShowValue(ms[k].level)
  {
    var first := ms[0].level;
    if exists k | 0 <= k < |ms| :: ms[k].level != first then
      var k :| 0 <= k < |ms| && ms[k].level != first;
      assert Project(ms, Level)[k] != Project(ms, Level)[0];
      False
    else Text("Level " + ShowValue(first))
  }

  /** The positive topics of all members, member by member. */
  function AllPositiveTopics(ms: seq<Member>): (ts: seq<string>)
    ensures forall t :: t in ts <==> exists k :: 0 <= k < |ms| && t in PositiveTopics(ms[k].interests)
  {
    if |ms| == 0 then []
    else
      assert forall k :: 0 <= k < |ms[1..]| ==> ms[1..][k] == ms[k + 1];
      PositiveTopics(ms[0].interests) + AllPositiveTopics(ms[1..])
  }

  /** Every member holds `t` with positive strength. */
  predicate HeldByAll(ms: seq<Member>, t: string) {
    forall k | 0 <= k < |ms| :: t in PositiveTopics(ms[k].interests)
  }

  /** The candidates every member holds positively, in candidate order. */
  function KeepHeldByAll(cands: seq<string>, ms: seq<Member>): (r: seq<string>)
    ensures forall t :: t in r <==> t in cands && HeldByAll(ms, t)
    ensures NoDup(cands) ==> NoDup(r)
  {
    if |cands| == 0 then []
    else
      assert cands == [cands[0]] + cands[1..];
      assert NoDup(cands) ==> cands[0] !in cands[1..];
      (if HeldByAll(ms, cands[0]) then [cands[0]] else []) + KeepHeldByAll(cands[1..], ms)
  }

  /** The topics that `getInterestsInGroup` lists: every topic all members hold
      with positive strength, once each, in sorted order. */
  function SharedTopics(ms: seq<Member>): (r: seq<string>)
    ensures SortedLex(r) && NoDup(r)
    ensures forall t :: t in r <==> |ms| > 0 && HeldByAll(ms, t)
  {
    var kept := KeepHeldByAll(Distinct(AllPositiveTopics(ms)), ms);
    var sorted := SortStrings(kept);
    NoDupPerm(kept, sorted);
    assert forall t :: t in sorted <==> t in kept by {
      forall t ensures t in sorted <==> t in kept {
        assert t in multiset(sorted) <==> t in multiset(kept);
      }
    }
    assert forall t :: |ms| > 0 && HeldByAll(ms, t) ==> t in AllPositiveTopics(ms) by {
      forall t | |ms| > 0 && HeldByAll(ms, t) ensures t in AllPositiveTopics(ms) {
        assert t in PositiveTopics(ms[0].interests);
      }
    }
    sorted
  }

  /** A join is empty exactly when there is nothing to join but empty strings,
      for a duplicate-free list of parts and a non-empty separator. */
  lemma JoinEmpty(parts: seq<string>, sep: string)
    requires sep != "" && NoDup(parts)
    ensures Join(parts, sep) == "" <==> forall t :: t in parts ==> t == ""
  {
    if |parts| == 1 {
      assert Join(parts, sep) == parts[0] && parts[0] in parts;
      assert forall t :: t in parts ==> t == parts[0];
    } else if |parts| >= 2 {
      var joined := Join(parts, sep);
      assert joined == parts[0] + sep + Join(parts[1..], sep);
      assert |joined| >= |sep| > 0;
      assert parts[0] != parts[1];
      var t := if parts[0] != "" then parts[0] else parts[1];
      assert t in parts && t != "";
    }
  }

  /** `getInterestsInGroup(group)`: the shared topics joined by ", "; the label
      shows in a heading exactly when a non-empty topic is shared by all. */
  function InterestsLabel(ms: seq<Member>): (r: Label)
    ensures r.Text?
    ensures Truthy(r) <==> exists t :: t in SharedTopics(ms) && t != ""
  {
    JoinEmpty(SharedTopics(ms), ", ");
    Text(Join(SharedTopics(ms), ", "))
  }

  // ---------------------------------------------------------------- scores

  /** `10 ** e`, exactly. */
  function Pow10(e: int): (r: real)
    ensures r > 0.0
    decreases if e < 0 then -e else e
  {
    if e == 0 then 1.0
    else if e > 0 then 10.0 * Pow10(e - 1)
    else Pow10(e + 1) / 10.0
  }

  /** What a value or topic whose counter is `c` adds to the score of a table of
      `n` members: `10 ** ((c - n) + 8)` when `c > 1`, else nothing. */
  function Penalty(c: int, n: int): (r: real)
    ensures r >= 0.0
    ensures r > 0.0 <==> c > 1
  {
    if c > 1 then Pow10(c - n + 8) else 0.0
  }

  /** The terms `for (let k in counts)` adds, one per key. */
  function Penalties<K>(keys: seq<K>, counts: map<K, int>, n: int): (ps: seq<real>)
    requires forall i | 0 <= i < |keys| :: keys[i] in counts
    ensures |ps| == |keys|
    ensures forall i | 0 <= i < |ps| :: ps[i] >= 0.0
  {
    seq(|keys|, i requires 0 <= i < |keys| => Penalty(counts[keys[i]], n))
  }

  /** Summing the penalties over two orderings of the same keys gives the same total. */
  lemma PenaltySumSameKeys<K>(a: seq<K>, b: seq<K>, counts: map<K, int>, n: int)
    requires NoDup(a) && NoDup(b)
    requires forall x :: x in a <==> x in b
    requires forall i | 0 <= i < |a| :: a[i] in counts
    requires forall i | 0 <= i < |b| :: b[i] in counts
    ensures SumReal(Penalties(a, counts, n)) == SumReal(Penalties(b, counts, n))
  {
    NoDupSameElements(a, b);
    PermImage(a, b, Penalties(a, counts, n), Penalties(b, counts, n));
    SumRealPerm(Penalties(a, counts, n), Penalties(b, counts, n));
  }

  /** `counts[m[theme]]` after the counting loop: how many members hold each value. */
  function ValueCounts(vals: seq<Option<string>>): (r: map<Option<string>, int>)
    ensures forall v :: v in r <==> v in vals
    ensures forall v | v in r :: 1 <= r[v] <= |vals|
  {
    map v | v in vals :: multiset(vals)[v]
  }

  /** `scoreForGroupByTheme(theme)(group)` on the table's values of that attribute. */
  function ThemeScore(vals: seq<Option<string>>): (r: real)
    ensures r >= 0.0
  {
    var ps := Penalties(Distinct(vals), ValueCounts(vals), |vals|);
    SumRealZero(ps);
    SumReal(ps)
  }

  /** A theme score is zero exactly when no value is held by two or more members. */
  lemma ThemeScoreZero(vals: seq<Option<string>>)
    ensures ThemeScore(vals) == 0.0 <==> NoDup(vals)
  {
    var keys := Distinct(vals);
    var ps := Penalties(keys, ValueCounts(vals), |vals|);
    SumRealZero(ps);
    if NoDup(vals) {
      forall i | 0 <= i < |ps| ensures ps[i] == 0.0 {
        NoDupCount(vals, keys[i]);
      }
    } else {
      var p, q :| 0 <= p < q < |vals| && vals[p] == vals[q];
      RepeatCount(vals, p, q);
      assert vals[p] in keys;
      var i :| 0 <= i < |keys| && keys[i] == vals[p];
      assert ps[i] > 0.0;
    }
  }

  /** A theme score depends only on the multiset of values, not on member order. */
  lemma ThemeScorePerm(a: seq<Option<string>>, b: seq<Option<string>>)
    requires multiset(a) == multiset(b)
    ensures ThemeScore(a) == ThemeScore(b)
  {
    assert |a| == |multiset(a)| == |b|;
    assert forall v :: v in a <==> v in b by {
      forall v ensures v in a <==> v in b {
        assert v in a <==> v in multiset(a);
        assert v in b <==> v in multiset(b);
      }
    }
    assert ValueCounts(a) == ValueCounts(b);
    PenaltySumSameKeys(Distinct(a), Distinct(b), ValueCounts(a), |a|);
  }

  /** How one interest record moves its topic's counter. */
  function Weight(strength: int): int {
    if strength > 0 then 1 else if strength < 0 then -2 else 0
  }

  /** One member's contribution to the counter of topic `t`. */
  function RecordTally(rs: seq<Interest>, t: string): int {
    if |rs| == 0 then 0
    else (if rs[0].topic == t then Weight(rs[0].strength) else 0) + RecordTally(rs[1..], t)
  }

  /** How many of the records are about topic `t` with a strength of the given sign. */
  function CountRecords(rs: seq<Interest>, t: string, positive: bool): nat {
    if |rs| == 0 then 0
    else
      var hit := rs[0].topic == t && (if positive then rs[0].strength > 0 else rs[0].strength < 0);
      (if hit then 1 else 0) + CountRecords(rs[1..], t, positive)
  }

  /** A member's contribution to a topic's counter is one per positive record of
      the topic less two per negative record; records of strength 0 and records
      of other topics leave it alone. */
  lemma {:induction false} RecordTallyCounts(rs: seq<Interest>, t: string)
    ensures RecordTally(rs, t) == CountRecords(rs, t, true) - 2 * CountRecords(rs, t, false)
  {
    if |rs| > 0 {
      RecordTallyCounts(rs[1..], t);
    }
  }

  function MemberTallies(ms: seq<Member>, t: string): seq<int> {
    seq(|ms|, k requires 0 <= k < |ms| => RecordTally(ms[k].interests, t))
  }

  /** `counts[t]` after the counting loop of `scoreForGroupByInterests`. */
  function Tally(ms: seq<Member>, t: string): int {
    SumInt(MemberTallies(ms, t))
  }

  function Topics(rs: seq<Interest>): seq<string> {
    seq(|rs|, p requires 0 <= p < |rs| => rs[p].topic)
  }

  /** The topic of every interest record of every member, member by member. */
  function AllTopics(ms: seq<Member>): (ts: seq<string>)
    ensures forall t :: t in ts <==> exists k :: 0 <= k < |ms| && t in Topics(ms[k].interests)
  {
    if |ms| == 0 then []
    else
      assert forall k :: 0 <= k < |ms[1..]| ==> ms[1..][k] == ms[k + 1];
      Topics(ms[0].interests) + AllTopics(ms[1..])
  }

  function TopicCounts(ms: seq<Member>): map<string, int> {
    map t | t in AllTopics(ms) :: Tally(ms, t)
  }

  /** `scoreForGroupByInterests(group)`. */
  function InterestScore(ms: seq<Member>): (r: real)
    ensures r >= 0.0
  {
    var ps := Penalties(Distinct(AllTopics(ms)), TopicCounts(ms), |ms|);
    SumRealZero(ps);
    SumReal(ps)
  }

  /** The interest score is zero exactly when no topic's counter exceeds 1. */
  lemma InterestScoreZero(ms: seq<Member>)
    ensures InterestScore(ms) == 0.0 <==> forall t | t in AllTopics(ms) :: Tally(ms, t) <= 1
  {
    var keys := Distinct(AllTopics(ms));
    var ps := Penalties(keys, TopicCounts(ms), |ms|);
    SumRealZero(ps);
    if forall t | t in AllTopics(ms) :: Tally(ms, t) <= 1 {
      assert forall i | 0 <= i < |ps| :: ps[i] == 0.0;
    } else {
      var t :| t in AllTopics(ms) && Tally(ms, t) > 1;
      var i :| 0 <= i < |keys| && keys[i] == t;
      assert ps[i] > 0.0;
    }
  }

  /** The interest score depends only on the multiset of members, not on their order. */
  lemma InterestScorePerm(a: seq<Member>, b: seq<Member>)
    requires multiset(a) == multiset(b)
    ensures InterestScore(a) == InterestScore(b)
  {
    assert |a| == |multiset(a)| == |b|;
    forall t ensures Tally(a, t) == Tally(b, t) {
      PermImage(a, b, MemberTallies(a, t), MemberTallies(b, t));
      SumIntPerm(MemberTallies(a, t), MemberTallies(b, t));
    }
    assert forall t :: t in AllTopics(a) <==> t in AllTopics(b) by {
      forall t ensures t in AllTopics(a) ==> t in AllTopics(b) {
        if t in AllTopics(a) {
          var k :| 0 <= k < |a| && t in Topics(a[k].interests);
          assert a[k] in multiset(b);
          var k' :| 0 <= k' < |b| && b[k'] == a[k];
        }
      }
      forall t ensures t in AllTopics(b) ==> t in AllTopics(a) {
        if t in AllTopics(b) {
          var k :| 0 <= k < |b| && t in Topics(b[k].interests);
          assert b[k] in multiset(a);
          var k' :| 0 <= k' < |a| && a[k'] == b[k];
        }
      }
    }
    assert TopicCounts(a) == TopicCounts(b);
    PenaltySumSameKeys(Distinct(AllTopics(a)), Distinct(AllTopics(b)), TopicCounts(a), |a|);
  }

  // ---------------------------------------------------------------- THEMES

  /** An entry of `THEMES`: the `check` that labels a table and the `score` that
      penalises it. The department, level and title checks read `group[0]`, so
      they are only ever applied to non-empty tables; on an empty one they give
      `false` here. The interests check reads no member in particular and gives
      the empty string on an empty table, here as in the source. */
  datatype Theme = Theme(check: seq<Member> -> Label, score: seq<Member> -> real)

  /** The theme of a plain attribute (department, title). */
  function AttrTheme(a: Attr): Theme {
    Theme(ms => if |ms| > 0 then ThemeLabel(ms, a) else False, ms => ThemeScore(Project(ms, a)))
  }

  /** The level theme: labelled by `getLevelInGroup`, scored like an attribute. */
  const LevelTheme: Theme :=
    Theme(ms => if |ms| > 0 then LevelLabel(ms) else False, ms => ThemeScore(Project(ms, Level)))

  /** The interests theme. */
  const InterestsTheme: Theme := Theme(InterestsLabel, InterestScore)

  /** `THEMES`, in declaration order. */
  const AllThemes: seq<Theme> := [AttrTheme(Department), LevelTheme, AttrTheme(Title), InterestsTheme]

  /** What each theme of `THEMES` reports for a non-empty table. */
  lemma AllThemesCheck(ms: seq<Member>)
    requires |ms| > 0
    ensures |AllThemes| == 4
    ensures AllThemes[0].check(ms) == ThemeLabel(ms, Department)
    ensures AllThemes[1].check(ms) == LevelLabel(ms)
    ensures AllThemes[2].check(ms) == ThemeLabel(ms, Title)
    ensures AllThemes[3].check(ms) == InterestsLabel(ms)
  {
  }

  /** `themes.reduce((sum, t) => sum + t.score(group), 0)`. */
  function ScoreSum(ths: seq<Theme>, ms: seq<Member>): (r: real)
    ensures (forall k | 0 <= k < |ths| :: ths[k].score(ms) >= 0.0) ==> r >= 0.0
  {
    if |ths| == 0 then 0.0 else ScoreSum(ths[..|ths| - 1], ms) + ths[|ths| - 1].score(ms)
  }

  /** `getGroupScore(group, THEMES)`. */
  function GroupScore(ms: seq<Member>): real {
    ScoreSum(AllThemes, ms)
  }

  /** A table's score is its department, level and title scores plus its interests
      score; so it is never negative. */
  lemma GroupScoreThemes(ms: seq<Member>)
    ensures GroupScore(ms) == ThemeScore(Project(ms, Department)) + ThemeScore(Project(ms, Level))
                              + ThemeScore(Project(ms, Title)) + InterestScore(ms)
    ensures GroupScore(ms) >= 0.0
  {
    var ths := AllThemes;
    var d, l, t, i := ths[0].score(ms), ths[1].score(ms), ths[2].score(ms), ths[3].score(ms);
    assert ScoreSum(ths[..3][..2][..1][..0], ms) == 0.0;
    assert ScoreSum(ths[..3][..2][..1], ms) == d;
    assert ScoreSum(ths[..3][..2], ms) == d + l;
    assert ScoreSum(ths[..3], ms) == d + l + t;
  }

  /** A table's score does not depend on the order of its members. */
  lemma GroupScorePerm(a: seq<Member>, b: seq<Member>)
    requires multiset(a) == multiset(b)
    ensures GroupScore(a) == GroupScore(b)
  {
    forall attr: Attr ensures ThemeScore(Project(a, attr)) == ThemeScore(Project(b, attr)) {
      PermImage(a, b, Project(a, attr), Project(b, attr));
      ThemeScorePerm(Project(a, attr), Project(b, attr));
    }
    InterestScorePerm(a, b);
    GroupScoreThemes(a);
    GroupScoreThemes(b);
  }
}
