# Dinner-party planner, modelled in Dafny

`plan_parties` seats a roster of colleagues at dinner tables of six and writes a
report of the tables. Each table is scored by four themes: department, level,
job title and interests. A theme's score grows when several members at a table
share a value, or when several of them like the same topic. A pairwise exchange
pass moves members between tables whenever the exchange raises the scores.
The report gives each table a heading with the values its members all share,
then one line per member.

The model is split into modules that follow the program's parts:

- `Roster` (roster.dfy): members and their interest records.
- `Collections` (collections.dfy): generic sequence facts the rest relies on:
  first-occurrence de-duplication, sums that ignore order, string order and
  sorting, `join`, and flattening.
- `Themes` (themes.dfy):
  - the `check` functions (`getThemeInGroup`, `getLevelInGroup`,
    `getInterestsInGroup`) as labels;
  - the `score` functions as exact real numbers;
  - `THEMES` as a sequence of `Theme` records;
  - `getGroupScore`.
- `Grouping` (grouping.dfy):
  - `initializeGroups`;
  - the exchange pass `arrangeForGroups`, as methods over two arrays.
    `groups` holds each table as a sequence of roster indices. `groupOf` holds
    each member's back-reference to its table;
  - a specification on plain values (`Seating`, `Step`, `Row`, `Pass`,
    `Rounds`) that the methods are proved equal to.
- `Report` (report.dfy): the report's lines, including two quirks:
  - the interest text is appended to itself after " Interested in ";
  - a member without positive interests gets " and undefined".
- `Planner` (planner.dfy): `plan_parties` as a whole. It seats the roster,
  runs ten passes and builds the report; it returns `None` where the source
  throws.

Two places in the source evidently do not do what their authors meant; the
model follows the code as written in both:

- Rosters whose length is not a multiple of six: the loop at
  plan_parties.js:146-152 is evidently meant to spread the leftover members
  over the first tables. It can never run. The fill loop before it runs while
  `i < length / 6`, with real division, so for such a roster it reads past the
  end and throws first. `InitializeGroups` reports this as `ok == false`.
- The member line: at plan_parties.js:225 the `+=` before
  `` ` Interested in ${interestText}` `` evidently meant `=`. As written, the
  line carries the topic list, then " Interested in ", then the list again.
  For a member without positive interests it carries " and undefined" twice.

## Model

| member | source | states |
|---|---|---|
| Roster.PositiveTopics | plan_parties.js:216 | the positive topics of a member: no more than the records, and a topic is listed iff some record of it has a strength above 0 |
| Collections.Distinct | plan_parties.js:34-41 | the collected topic list holds no duplicates and holds exactly the topics seen |
| Collections.SortStrings | plan_parties.js:51 | `interests.sort()`: the result is sorted and is a permutation of its input |
| Collections.Join | plan_parties.js:52 | `join(sep)` by definition: "" for no parts, the part itself for one, otherwise the first part, the separator and the join of the rest |
| Themes.ThemeLabel | plan_parties.js:22-25 | the check of an attribute is not `false` iff every member has the same value; it is then that value for every member, `undefined` when nobody has one |
| Themes.LevelLabel | plan_parties.js:27-30 | the level check is not `false` iff every member has the same level; it is then the truthy "Level <value>", including "Level undefined" |
| Themes.AllPositiveTopics | plan_parties.js:34-41 | a topic is collected iff some member holds it with positive strength |
| Themes.KeepHeldByAll | plan_parties.js:43-50 | the filter keeps exactly the candidates that every member holds with positive strength, and keeps a duplicate-free list duplicate-free |
| Themes.SharedTopics | plan_parties.js:32-52 | the listed topics are sorted and distinct; a topic is listed iff the table is non-empty and every member holds it with positive strength |
| Themes.JoinEmpty | plan_parties.js:52 | joining distinct parts with ", " gives "" iff every part is empty |
| Themes.InterestsLabel | plan_parties.js:32-53 | the interests check is always a string; it is truthy iff some non-empty topic is shared by all members |
| Themes.Penalty | plan_parties.js:63-66 | a counter adds `10 ** ((c - n) + 8)`, which is never negative and is positive iff the counter is above 1 |
| Themes.Penalties | plan_parties.js:63-68 | the key loop adds one non-negative term per key |
| Themes.PenaltySumSameKeys | plan_parties.js:63-68 | the score does not depend on the order in which the key loop visits the keys |
| Themes.ValueCounts | plan_parties.js:57-60 | the counting loop gives a counter exactly to the values held at the table, each between 1 and the table size: the number of members holding it |
| Themes.ThemeScore | plan_parties.js:55-70 | an attribute score is never negative |
| Themes.ThemeScoreZero | plan_parties.js:55-70 | an attribute score is 0 iff no value is held by two members |
| Themes.ThemeScorePerm | plan_parties.js:55-70 | an attribute score depends only on the multiset of values |
| Themes.RecordTallyCounts | plan_parties.js:75-84 | a member moves a topic's counter by +1 per positive record and −2 per negative record; records of strength 0 leave it alone |
| Themes.Weight | plan_parties.js:78-82 | by definition one record moves its topic's counter by +1 (strength above 0), −2 (below 0) or 0 |
| Themes.RecordTally | plan_parties.js:76-84 | by definition a member's records of one topic add their weights; `RecordTallyCounts` states it as counts |
| Themes.Tally | plan_parties.js:75-85 | by definition a topic's final counter is the sum over the members of their contributions, starting from 0 |
| Themes.TopicCounts | plan_parties.js:75-85 | by definition the counters after the loop: one per topic any member has a record of (`AllTopics`), valued by `Tally` |
| Themes.AllTopics | plan_parties.js:75-85 | a topic gets a counter iff some member has a record of it |
| Themes.InterestScore | plan_parties.js:72-97 | the interests score is never negative |
| Themes.InterestScoreZero | plan_parties.js:89-96 | the interests score is 0 iff no topic's counter is above 1 |
| Themes.InterestScorePerm | plan_parties.js:72-97 | the interests score does not depend on the order of the members |
| Themes.AllThemesCheck | plan_parties.js:103-131 | `THEMES` (the constant `AllThemes`) has four entries, in the order department, level, title, interests, with the checks named |
| Themes.ScoreSum | plan_parties.js:100 | the left-to-right `reduce` of the theme scores from 0; never negative when every theme score is non-negative |
| Themes.GroupScore | plan_parties.js:99-101 | by definition `getGroupScore(group, THEMES)`: the `ScoreSum` over `AllThemes`; `GroupScoreThemes` and `GroupScorePerm` state what it is |
| Themes.GroupScoreThemes | plan_parties.js:99-131 | `getGroupScore` with `THEMES` is the department, level and title scores plus the interests score, so it is never negative |
| Themes.GroupScorePerm | plan_parties.js:99-101 | a table's score does not depend on the order of its members |
| Grouping.ExactlyOneTable | plan_parties.js:139-140 | in a partition a member is at a table iff its back-reference names that table |
| Grouping.InitialSeating | plan_parties.js:136-145 | n/6 tables of six slots and one back-reference per member; by definition table g holds 6g..6g+5 and member k points back to table k/6 |
| Grouping.InitialPartitioned | plan_parties.js:136-145 | for a multiple of six, the initial tables partition the roster into n/6 tables of six, with matching back-references |
| Grouping.InitializeGroups | plan_parties.js:133-155 | succeeds iff the roster length is a multiple of six; table g then holds members 6g..6g+5 and each member points back to its table |
| Grouping.FilterOut | plan_parties.js:169-170 | `filter(m => m !== x)` drops every copy of x and keeps every other element with its count |
| Grouping.FilterAppendPerm | plan_parties.js:169-170 | the hypothetical table (filtered, then the other member appended) has the same members as the table after the exchange |
| Grouping.SaturatedCount | plan_parties.js:167 | how many of two scores reach `MINSCORE`: between 0 and 2, 0 iff both are below it, 2 iff both reach it |
| Grouping.Accepts | plan_parties.js:165-175 | by definition the exchange test: scores of both tables as they are and as filtered-plus-appended, accepted when the saturated count or the combined score rises; `AcceptsIffExchangeRaises` states it on the real exchange |
| Grouping.ReplaceStep | plan_parties.js:179-190 | one replacement loop keeps every reference valid |
| Grouping.ReplaceAllAt | plan_parties.js:179-184 | in a table without duplicates, replacing every slot holding a member replaces its one slot |
| Grouping.Exchange | plan_parties.js:177-190 | the committed exchange keeps every reference valid |
| Grouping.ExchangeSlots | plan_parties.js:177-190 | on a partition, j takes i's slot and i takes j's slot; the two back-references are swapped; every other table is unchanged |
| Grouping.ExchangeKeepsPartition | plan_parties.js:177-190 | an exchange between two tables keeps the partition and every table's size |
| Grouping.Step | plan_parties.js:162-192 | one pair of the pass keeps every reference valid |
| Grouping.RowUpToNext | plan_parties.js:161 | the inner loop handles partners j = i+1, i+2, … one at a time |
| Grouping.RoundsNext | plan_parties.js:199-201 | each call of the arrangement pass continues from the seating the previous call left |
| Grouping.Row | plan_parties.js:161-193 | the inner loop for member i: `Step` for partners i+1 .. n−1 in turn, each seeing the earlier exchanges; keeps every reference valid |
| Grouping.Pass | plan_parties.js:157-195 | one call of `arrangeForGroups`: `Row` for members 0 .. n−2 in turn; keeps every reference valid |
| Grouping.Rounds | plan_parties.js:199-201 | `count` calls of `arrangeForGroups` in a row, each from the seating the last one left; keeps every reference valid |
| Grouping.StepKeepsPartition | plan_parties.js:162-192 | considering one pair keeps the partition and the table sizes |
| Grouping.RowKeepsPartition | plan_parties.js:161-193 | the inner loop keeps the partition and the table sizes |
| Grouping.PassKeepsPartition | plan_parties.js:157-195 | a whole arrangement pass keeps the partition and the table sizes |
| Grouping.RoundsKeepPartition | plan_parties.js:199-201 | any number of passes keeps the partition and the table sizes |
| Grouping.GroupScoreIgnoresOrder | plan_parties.js:99-101 | the `THEMES` score ignores member order, which the acceptance test relies on |
| Grouping.HypotheticalScore | plan_parties.js:169-170 | the hypothetical table scores the same as the table after the exchange |
| Grouping.AcceptsIffExchangeRaises | plan_parties.js:159-175 | a pair is accepted iff, after the exchange, more of the two tables reach `MINSCORE` or their combined score rises |
| Grouping.ReplaceInGroup | plan_parties.js:179-184 | the in-place replacement loop leaves exactly the seating `ReplaceStep` describes |
| Grouping.ExchangeInPlace | plan_parties.js:177-190 | the two in-place replacement loops leave exactly the seating `Exchange` describes |
| Grouping.ConsiderPair | plan_parties.js:162-192 | handling partner j advances the inner loop's specification by one partner |
| Grouping.ArrangeRow | plan_parties.js:161-193 | the inner loop leaves the seating `Row` describes |
| Grouping.ArrangeForGroups | plan_parties.js:157-195 | `arrangeForGroups` leaves the seating `Pass` describes |
| Report.InterestTextFront | plan_parties.js:222 | with three or more topics, the interest text is the first topic, ", ", then the text of the rest |
| Report.InterestText | plan_parties.js:217-223 | by definition the single topic, or all but the last joined by ", ", " and ", then the last (shown "undefined" when there is none); `InterestTextReads` says how it reads |
| Report.InterestSuffix | plan_parties.js:224-226 | by definition the text after `+=`: the interest text, " Interested in ", the text again, or nothing when the text is empty; `InterestSuffixCases` gives it case by case |
| Report.MemberLine | plan_parties.js:216-227 | by definition " - name, title @ company" followed by the interest suffix of the member's positive topics |
| Report.InterestTextReads | plan_parties.js:217-223 | for one or more topics the interest text reads "a", "a and b", "a, b and c", …; for none it is " and undefined" |
| Report.InterestTextEmpty | plan_parties.js:217-224 | the interest text is empty, so skipped by `if`, iff the member's only positive topic is "" |
| Report.InterestSuffixCases | plan_parties.js:217-227 | the text after the company, for each case: none, a single "" topic, and otherwise the list, " Interested in ", the list again |
| Report.DescribeMember | plan_parties.js:216-228 | builds the member line: the head, then " and undefined Interested in  and undefined" without positive topics, nothing for the single topic "", and otherwise the English list, " Interested in ", the list again |
| Report.KeepTruthy | plan_parties.js:206-212 | `if (title)` keeps exactly the non-empty string labels, and no more labels than there are |
| Report.KeepTruthyAppend | plan_parties.js:206-212 | the kept titles stay in theme order: the titles of two runs of labels are those of the first run followed by those of the second |
| Report.Titles | plan_parties.js:205-212 | by definition the truthy results of the checks, in theme order |
| Report.Heading | plan_parties.js:213-214 | by definition "# " followed by the titles joined by ", " |
| Report.SharedLevelTitled | plan_parties.js:206-212 | a table whose members share a level carries "Level <value>" in its heading |
| Report.SharedTitleTitled | plan_parties.js:206-212 | a table whose members share a non-empty title carries it in its heading; if their titles differ, the title check is `false` |
| Report.GroupBlock | plan_parties.js:213-230 | a table contributes |table| + 2 lines |
| Report.GroupBlockShape | plan_parties.js:213-230 | a table's lines are the heading, then member p's line at p+1 in seat order, then "" |
| Report.ReportLinesCount | plan_parties.js:204-231 | tables of equal size s give |tables|·(s+2) lines |
| Report.ReportLayout | plan_parties.js:204-231 | line g·(s+2)+p of the report is table g's heading, the line of the member at seat p−1, or "" |
| Report.ReportLines | plan_parties.js:203-231 | by definition the blocks of all tables, concatenated in table order; `ReportLinesCount` and `ReportLayout` state its length and every line |
| Report.GroupTitle | plan_parties.js:205-214 | the heading loop builds "# " plus the truthy labels joined by ", " |
| Report.AppendTable | plan_parties.js:205-230 | one iteration of the table loop appends exactly that table's lines |
| Report.BuildReport | plan_parties.js:203-231 | the report loop builds exactly the lines of all tables, in table order |
| Planner.FinalSeating | plan_parties.js:198-201 | after the ten passes the tables still partition the roster into n/6 tables of six, each reportable |
| Planner.ArrangeRounds | plan_parties.js:199-201 | the ten calls of `arrangeForGroups` leave the seating `Rounds` describes for ten passes |
| Planner.PlanParties | plan_parties.js:197-231 | no report iff the roster length is not a multiple of six; otherwise the report of the final tables, eight lines per table |

## Left out

- Loading the roster (`require('./members')`, line 3): the roster is a parameter.
- Writing the report (`fs.writeFile`, lines 234-237): the model returns the lines that would be joined by "\n" and written.
- The `async` wrapper and the command-line entry (lines 243-245) are not modelled.
- `clusterByTheme` (lines 5-20) and the `cluster` entries of `THEMES` are left out: nothing calls them.
- The remainder loop of `initializeGroups` (lines 146-152) is left out. It can never run: either the fill loop covers the whole roster, or the fill loop throws first.
- Floating point: scores are exact real numbers (`10 ** e` is computed exactly), so IEEE rounding in the sums and comparisons is not modelled.
- JavaScript coercions:
  - object keys are strings in JavaScript, so a missing department or level shares one counter with the value "undefined"; here they are two keys;
  - loose `!=` and `==` compare here as plain equality of values;
  - member identity is the roster index, so two roster entries with equal fields are still two members.
- String order: `sort()` compares UTF-16 code units; the model sorts by lexicographic order on Dafny characters.
- Checks on an empty table: the department, level and title checks give `false`. In the source they would throw reading `group[0]`. No empty table ever reaches them: the report requires non-empty tables. (The interests check reads no `group[0]`; on an empty table it gives "" in both.)
- Grouping.Pass: the arrangement pass takes the table score as a parameter, and the planner passes the `THEMES` score. The source passes `THEMES` and uses it only through `getGroupScore`. The report likewise takes the theme list as a parameter.
- Roster.Member: name, title and company are always strings. The model does not cover a missing title or company, which the template literal would print as "undefined".
- Report.BuildReport: reads the tables as a sequence value, taken after the arrangement. It does not model that the tables are the same array objects that `arrangeForGroups` updated in place.
- Planner.PlanParties: states the report of the final seating. It makes no claim about how good that seating is, and the source promises none.
