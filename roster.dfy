/** The roster the planner works on: members with display fields, two optional
    categorical attributes and a list of interest records. The back-reference from
    a member to its table is not a field here; it lives in the seating (see
    module Grouping). */
module Roster {

  datatype Option<+T> = None | Some(value: T)

  /** One interest record: a topic and a signed strength (positive = liked,
      negative = disliked, zero = neutral). */
  datatype Interest = Interest(topic: string, strength: int)

  /** A roster entry. An absent department or level is `None`: one "unset" bucket. */
  datatype Member = Member(
    name: string,
    title: string,
    company: string,
    department: Option<string>,
    level: Option<string>,
    interests: seq<Interest>)

  /** The three categorical attributes the themes look at. */
  datatype Attr = Department | Level | Title

  /** `m[theme]` for an attribute theme. */
  function AttrValue(m: Member, a: Attr): Option<string> {
    match a
    case Department => m.department
    case Level => m.level
    case Title => Some(m.title)
  }

  /** The attribute values of a table, in table order. */
  function Project(ms: seq<Member>, a: Attr): seq<Option<string>> {
    seq(|ms|, k requires 0 <= k < |ms| => AttrValue(ms[k], a))
  }

  /** `interests.filter(item => item.interest > 0).map(item => item.topic)`. */
  function PositiveTopics(rs: seq<Interest>): (ts: seq<string>)
    ensures |ts| <= |rs|
    ensures forall t :: t in ts <==> exists k :: 0 <= k < |rs| && rs[k].topic == t && rs[k].strength > 0
  {
    if |rs| == 0 then []
    else
      var rest := PositiveTopics(rs[1..]);
      assert forall k :: 0 <= k < |rs[1..]| ==> rs[1..][k] == rs[k + 1];
      (if rs[0].strength > 0 then [rs[0].topic] else []) + rest
  }
}
