/** The report `plan_parties` writes (plan_parties.js:203-231): per table a
    heading line with the truthy labels of the four checks, one line per member,
    and an empty line. The member line keeps two quirks of the source: the
    interest text is appended to itself after " Interested in ", and a member
    without any positive interest gets the text " and undefined". */
module Report {
  import opened Roster
  import opened Collections
  import opened Themes
  import opened Grouping

  // ------------------------------------------------------------ interest text

  /** `interests.slice(0, -1)`: every topic but the last; none for no topics. */
  function AllButLast(ts: seq<string>): seq<string> {
    if |ts| == 0 then [] else ts[..|ts| - 1]
  }

  /** `interests[length - 1]` inside a string concatenation: the last topic, or
      "undefined" when there is none. */
  function LastShown(ts: seq<string>): string {
    if |ts| == 0 then "undefined" else ts[|ts| - 1]
  }

  /** The interest text built from the positive topics: the single topic itself,
      otherwise all but the last joined with ", ", then " and ", then the last. */
  function InterestText(ts: seq<string>): string {
    if |ts| == 1 then ts[0] else Join(AllButLast(ts), ", ") + " and " + LastShown(ts)
  }

  /** How an English list of one or more items reads, built from the front: "a",
      "a and b", "a, b and c", ... */
  function Listing(ts: seq<string>): string
    requires |ts| >= 1
  {
    if |ts| == 1 then ts[0]
    else if |ts| == 2 then ts[0] + " and " + ts[1]
    else ts[0] + ", " + Listing(ts[1..])
  }

  /** With three or more topics, the interest text is the first topic, ", ", and
      the interest text of the rest. */
  lemma InterestTextFront(ts: seq<string>)
    requires |ts| >= 3
    ensures InterestText(ts) == ts[0] + ", " + InterestText(ts[1..])
  {
    var rest := AllButLast(ts[1..]);
    assert AllButLast(ts) == [ts[0]] + rest;
    assert AllButLast(ts)[1..] == rest;
    assert Join(AllButLast(ts), ", ") == ts[0] + ", " + Join(rest, ", ");
    assert LastShown(ts) == LastShown(ts[1..]);
  }

  /** For at least one topic the interest text reads as an English list; for no
      topic it is " and undefined". */
  lemma {:induction false} InterestTextReads(ts: seq<string>)
    ensures |ts| >= 1 ==> InterestText(ts) == Listing(ts)
    ensures |ts| == 0 ==> InterestText(ts) == " and undefined"
    decreases |ts|
  {
    if |ts| >= 3 {
      InterestTextReads(ts[1..]);
      InterestTextFront(ts);
    } else if |ts| == 2 {
      assert AllButLast(ts) == [ts[0]];
    }
  }

  /** The interest text is empty, and so skipped by `if (interestText)`, exactly
      when the member has one positive topic and that topic is the empty string. */
  lemma InterestTextEmpty(ts: seq<string>)
    ensures InterestText(ts) == "" <==> ts == [""]
  {
    if |ts| != 1 {
      var t := Join(AllButLast(ts), ", ") + " and " + LastShown(ts);
      assert t[|Join(AllButLast(ts), ", ")|] == ' ';
    }
  }

  /** What follows the company: the interest text, then " Interested in ", then
      the interest text again (the `+=` appends to the text itself); nothing when
      the text is empty. */
  function InterestSuffix(ts: seq<string>): string {
    var text := InterestText(ts);
    if text != "" then text + " Interested in " + text else ""
  }

  // ------------------------------------------------------------ member lines

  /** The first part of a member's line: name, title and company. */
  function MemberHead(m: Member): string {
    " - " + m.name + ", " + m.title + " @ " + m.company
  }

  /** The report line of one member. */
  function MemberLine(m: Member): string {
    MemberHead(m) + InterestSuffix(PositiveTopics(m.interests))
  }

  /** What follows the company, case by case: with no positive topic it is
      " and undefined Interested in  and undefined"; with the single topic "" it
      is empty; otherwise it is the English list of the topics, " Interested in ",
      and that list again. */
  lemma InterestSuffixCases(ts: seq<string>)
    ensures |ts| == 0 ==> InterestSuffix(ts) == " and undefined" + " Interested in " + " and undefined"
    ensures ts == [""] ==> InterestSuffix(ts) == ""
    ensures |ts| >= 1 && ts != [""] ==> InterestSuffix(ts) == Listing(ts) + " Interested in " + Listing(ts)
  {
    InterestTextReads(ts);
    InterestTextEmpty(ts);
  }

  /** The line builder for one member: the interest text starts from the single
      topic or from the joined list, and is appended to itself when non-empty.
      So the line is the member's head followed by: " and undefined Interested in
      and undefined" without positive topics, nothing for the single topic "",
      and otherwise the English list of the topics, " Interested in ", and the
      list again. */
  method DescribeMember(member: Member) returns (line: string)
    ensures line == MemberLine(member)
    ensures |PositiveTopics(member.interests)| == 0 ==>
      line == MemberHead(member) + " and undefined" + " Interested in " + " and undefined"
    ensures PositiveTopics(member.interests) == [""] ==> line == MemberHead(member)
    ensures |PositiveTopics(member.interests)| >= 1 && PositiveTopics(member.interests) != [""] ==>
      line == MemberHead(member) + Listing(PositiveTopics(member.interests)) + " Interested in "
              + Listing(PositiveTopics(member.interests))
  {
    var interests := PositiveTopics(member.interests);
    var interestText: string;
    if |interests| == 1 {
      interestText := interests[0];
    } else {
      interestText := Join(AllButLast(interests), ", ") + " and " + LastShown(interests);
    }
    if interestText != "" {
      interestText := interestText + " Interested in " + interestText;
    }
    line := " - " + member.name + ", " + member.title + " @ " + member.company + interestText;
    InterestSuffixCases(interests);
    AppendAssoc(MemberHead(member), InterestText(interests) + " Interested in ", InterestText(interests));
  }

  /** The lines of the members of a table, in seat order. */
  function MemberLines(ms: seq<Member>): seq<string> {
    seq(|ms|, p requires 0 <= p < |ms| => MemberLine(ms[p]))
  }

  // ------------------------------------------------------------ headings

  /** The texts of the truthy labels, in order: what `if (title)` lets through
      to `titles`. */
  function KeepTruthy(labels: seq<Label>): (ts: seq<string>)
    ensures |ts| <= |labels|
    ensures forall t :: t in ts <==> Text(t) in labels && t != ""
  {
    if |labels| == 0 then []
    else
      var last := labels[|labels| - 1];
      var front := labels[..|labels| - 1];
      assert labels == front + [last];
      KeepTruthy(front) + (if Truthy(last) then [last.text] else [])
  }

  /** Filtering keeps the order of the labels: the titles of two runs of labels
      are the titles of the first run followed by those of the second. */
  lemma {:induction false} KeepTruthyAppend(a: seq<Label>, b: seq<Label>)
    ensures KeepTruthy(a + b) == KeepTruthy(a) + KeepTruthy(b)
    decreases |b|
  {
    if |b| == 0 {
      assert a + b == a;
    } else {
      var front := b[..|b| - 1];
      assert (a + b)[..|a + b| - 1] == a + front;
      KeepTruthyAppend(a, front);
    }
  }

  /** The results of the checks of `themes` on a table, in order. */
  function Checks(themes: seq<Theme>, ms: seq<Member>): seq<Label> {
    seq(|themes|, k requires 0 <= k < |themes| => themes[k].check(ms))
  }

  /** The titles of a table: the truthy check results, in theme order. */
  function Titles(themes: seq<Theme>, ms: seq<Member>): seq<string> {
    KeepTruthy(Checks(themes, ms))
  }

  /** A table's heading line. */
  function Heading(themes: seq<Theme>, ms: seq<Member>): string {
    "# " + Join(Titles(themes, ms), ", ")
  }

  /** A table whose members all have the same level is titled with that level,
      even when nobody has one ("Level undefined"). */
  lemma SharedLevelTitled(ms: seq<Member>)
    requires |ms| > 0 && Uniform(Project(ms, Level))
    ensures "Level " + ShowValue(ms[0].level) in Titles(AllThemes, ms)
  {
    AllThemesCheck(ms);
    assert Checks(AllThemes, ms)[1] == Text("Level " + ShowValue(ms[0].level));
  }

  /** A table whose members all have the same non-empty title is titled with it;
      when the titles differ, the title check gives `false`. */
  lemma SharedTitleTitled(ms: seq<Member>)
    requires |ms| > 0
    ensures Uniform(Project(ms, Title)) && ms[0].title != "" ==> ms[0].title in Titles(AllThemes, ms)
    ensures !Uniform(Project(ms, Title)) ==> Checks(AllThemes, ms)[2] == False
  {
    AllThemesCheck(ms);
    if Uniform(Project(ms, Title)) && ms[0].title != "" {
      assert Checks(AllThemes, ms)[2] == Text(ms[0].title);
    }
  }

  // ------------------------------------------------------------ the report

  /** The lines for one table: its heading, one line per member in seat order,
      and an empty line. */
  function GroupBlock(themes: seq<Theme>, ms: seq<Member>): (r: seq<string>)
    ensures |r| == |ms| + 2
  {
    [Heading(themes, ms)] + MemberLines(ms) + [""]
  }

  /** A table's block opens with its heading, gives member `p` the line `p + 1`,
      and closes with an empty line. */
  lemma GroupBlockShape(themes: seq<Theme>, ms: seq<Member>)
    ensures GroupBlock(themes, ms)[0] == Heading(themes, ms)
    ensures forall p | 0 <= p < |ms| :: GroupBlock(themes, ms)[p + 1] == MemberLine(ms[p])
    ensures GroupBlock(themes, ms)[|ms| + 1] == ""
  {
    var block, lines := GroupBlock(themes, ms), MemberLines(ms);
    assert block == [Heading(themes, ms)] + lines + [""];
    forall p | 0 <= p < |ms| ensures block[p + 1] == MemberLine(ms[p]) {
      assert block[p + 1] == lines[p];
    }
  }

  /** Every table is non-empty and holds roster members only. */
  predicate Reportable(n: nat, tables: seq<seq<nat>>) {
    forall g | 0 <= g < |tables| :: |tables[g]| > 0 && InRange(n, tables[g])
  }

  /** The block of each table, in table order. */
  function Blocks(themes: seq<Theme>, roster: seq<Member>, tables: seq<seq<nat>>): seq<seq<string>>
    requires Reportable(|roster|, tables)
  {
    seq(|tables|, g requires 0 <= g < |tables| && Reportable(|roster|, tables) =>
      GroupBlock(themes, Members(roster, tables[g])))
  }

  /** The report's lines: the tables' blocks one after the other. */
  function ReportLines(themes: seq<Theme>, roster: seq<Member>, tables: seq<seq<nat>>): seq<string>
    requires Reportable(|roster|, tables)
  {
    Flatten(Blocks(themes, roster, tables))
  }

  /** When every table has `size` members, the report has `size + 2` lines per table. */
  lemma ReportLinesCount(themes: seq<Theme>, roster: seq<Member>, tables: seq<seq<nat>>, size: nat)
    requires Reportable(|roster|, tables)
    requires forall g | 0 <= g < |tables| :: |tables[g]| == size
    ensures |ReportLines(themes, roster, tables)| == |tables| * (size + 2)
  {
    FlattenUniform(Blocks(themes, roster, tables), size + 2);
  }

  /** When every table has `size` members, line `g * (size + 2)` is the heading of
      table `g`, the next `size` lines are its members' lines in seat order, and
      an empty line closes it. */
  lemma ReportLayout(themes: seq<Theme>, roster: seq<Member>, tables: seq<seq<nat>>, size: nat, g: nat, p: nat)
    requires Reportable(|roster|, tables)
    requires forall h | 0 <= h < |tables| :: |tables[h]| == size
    requires g < |tables| && p < size + 2
    ensures g * (size + 2) + p < |ReportLines(themes, roster, tables)|
    ensures p == 0 ==> ReportLines(themes, roster, tables)[g * (size + 2)] == Heading(themes, Members(roster, tables[g]))
    ensures 0 < p <= size ==>
      ReportLines(themes, roster, tables)[g * (size + 2) + p] == MemberLine(roster[tables[g][p - 1]])
    ensures p == size + 1 ==> ReportLines(themes, roster, tables)[g * (size + 2) + p] == ""
  {
    var blocks := Blocks(themes, roster, tables);
    FlattenAt(blocks, size + 2, g, p);
    GroupBlockShape(themes, Members(roster, tables[g]));
  }

  /** The titles loop of the report for one table: each check of `themes` in
      turn, keeping the truthy labels, then the heading line. */
  method GroupTitle(themes: seq<Theme>, ms: seq<Member>) returns (heading: string)
    ensures heading == Heading(themes, ms)
  {
    var titles: seq<string> := [];
    for k := 0 to |themes|
      invariant titles == KeepTruthy(Checks(themes[..k], ms))
    {
      var title := themes[k].check(ms);
      assert Checks(themes[..k + 1], ms) == Checks(themes[..k], ms) + [title];
      if Truthy(title) {
        titles := titles + [title.text];
      }
    }
    assert themes[..|themes|] == themes;
    heading := "# " + Join(titles, ", ");
  }

  /** The body of the report loop for one table: push its heading, the line of
      each member in seat order, and the closing empty line. */
  method AppendTable(themes: seq<Theme>, lines: seq<string>, roster: seq<Member>, group: seq<nat>)
    returns (out: seq<string>)
    requires |group| > 0 && InRange(|roster|, group)
    ensures out == lines + GroupBlock(themes, Members(roster, group))
  {
    var ms := Members(roster, group);
    var heading := GroupTitle(themes, ms);
    out := lines + [heading];
    ghost var block := [heading];
    for p := 0 to |group|
      invariant out == lines + block
      invariant block == [Heading(themes, ms)] + MemberLines(ms[..p])
    {
      var line := DescribeMember(roster[group[p]]);
      assert MemberLines(ms[..p + 1]) == MemberLines(ms[..p]) + [line];
      AppendAssoc(lines, block, [line]);
      out := out + [line];
      block := block + [line];
    }
    assert ms[..|group|] == ms;
    AppendAssoc(lines, block, [""]);
    out := out + [""];
    block := block + [""];
    assert block == GroupBlock(themes, ms);
  }

  /** The report loop of `plan_parties` over the final tables, table by table. */
  method BuildReport(themes: seq<Theme>, roster: seq<Member>, tables: seq<seq<nat>>) returns (lines: seq<string>)
    requires Reportable(|roster|, tables)
    ensures lines == ReportLines(themes, roster, tables)
  {
    lines := [];
    ghost var blocks: seq<seq<string>> := [];
    for g := 0 to |tables|
      invariant |blocks| == g && lines == Flatten(blocks)
      invariant forall q | 0 <= q < g :: blocks[q] == GroupBlock(themes, Members(roster, tables[q]))
    {
      ghost var block := GroupBlock(themes, Members(roster, tables[g]));
      FlattenSnoc(blocks, block);
      lines := AppendTable(themes, lines, roster, tables[g]);
      ghost var done := blocks;
      blocks := blocks + [block];
      forall q | 0 <= q < g ensures blocks[q] == GroupBlock(themes, Members(roster, tables[q])) {
        assert blocks[q] == done[q];
      }
    }
    assert blocks == Blocks(themes, roster, tables);
  }
}
