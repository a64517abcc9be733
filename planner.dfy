/** `plan_parties(members)` (plan_parties.js:197-231): seat the roster at tables
    of six, run the arrangement pass ten times with the scores of `THEMES`, and
    build the report's lines. Writing them to a file is not part of this model. */
module Planner {
  import opened Roster
  import opened Collections
  import opened Themes
  import opened Grouping
  import opened Report

  /** The seating after the planner's ten passes over the initial tables. */
  ghost function FinalSeating(roster: seq<Member>): (r: Seating)
    requires |roster| % TableSize == 0
    ensures Partitioned(|roster|, r)
    ensures |r.groups| == |roster| / TableSize
    ensures forall g | 0 <= g < |r.groups| :: |r.groups[g]| == TableSize
    ensures Reportable(|roster|, r.groups)
  {
    var start := InitialSeating(|roster|);
    InitialPartitioned(|roster|);
    GroupScoreIgnoresOrder();
    RoundsKeepPartition(roster, GroupScore, start, Passes);
    PartitionReportable(|roster|, Rounds(roster, GroupScore, start, Passes));
    Rounds(roster, GroupScore, start, Passes)
  }

  /** The tables of a partition into tables of six can be reported: each is
      non-empty and holds roster members only. */
  lemma PartitionReportable(n: nat, st: Seating)
    requires Partitioned(n, st)
    requires forall g | 0 <= g < |st.groups| :: |st.groups[g]| == TableSize
    ensures Reportable(n, st.groups)
  {
    forall g | 0 <= g < |st.groups| ensures InRange(n, st.groups[g]) {
      TableFacts(n, st, g);
    }
  }

  /** The loop of `plan_parties` that calls `arrangeForGroups(members, THEMES)`
      ten times. */
  method ArrangeRounds(roster: seq<Member>, groups: array<seq<nat>>, groupOf: array<nat>)
    requires Indexed(|roster|, Seating(groups[..], groupOf[..]))
    modifies groups, groupOf
    ensures Seating(groups[..], groupOf[..]) == Rounds(roster, GroupScore, old(Seating(groups[..], groupOf[..])), Passes)
  {
    ghost var start := Seating(groups[..], groupOf[..]);
    var round := 0;
    while round < Passes
      invariant round <= Passes
      invariant Seating(groups[..], groupOf[..]) == Rounds(roster, GroupScore, start, round)
    {
      RoundsNext(roster, GroupScore, start, round);
      ArrangeForGroups(roster, GroupScore, groups, groupOf);
      round := round + 1;
    }
  }

  /** `plan_parties(members)`: no report when the roster cannot be cut into tables
      of six (the source throws); otherwise the report of the final tables, eight
      lines per table. */
  method PlanParties(roster: seq<Member>) returns (lines: Option<seq<string>>)
    ensures lines.None? <==> |roster| % TableSize != 0
    ensures lines.Some? ==> lines.value == ReportLines(AllThemes, roster, FinalSeating(roster).groups)
    ensures lines.Some? ==> |lines.value| == |roster| / TableSize * (TableSize + 2)
  {
    var ok, groups, groupOf := InitializeGroups(|roster|);
    if !ok {
      return None;
    }
    InitialPartitioned(|roster|);
    ArrangeRounds(roster, groups, groupOf);
    ghost var final := FinalSeating(roster);
    var report := BuildReport(AllThemes, roster, groups[..]);
    ReportLinesCount(AllThemes, roster, groups[..], TableSize);
    lines := Some(report);
  }
}
