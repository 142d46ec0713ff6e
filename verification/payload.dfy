/** The request body `create_issue_via_api` posts to
    `repos/{owner}/{repo}/issues` (scripts/gh-import-issues.py:178-201), and
    the compact `json.dumps` text of it that ends up in the error message of
    a failed creation. */
module Payload {
  import opened Wrappers
  import opened Text
  import opened Json
  import opened Rows

  /** The payload dictionary; an absent member is None. Members are written
      in insertion order: title, body, labels, assignees, milestone. */
  datatype Payload = Payload(
    title: string,
    body: Option<string>,
    labels: Option<seq<string>>,
    assignees: Option<seq<string>>,
    milestone: Option<int>)

  /** `milestone_number and milestone_number > 0`: 0 and None are both
      falsy, so only a positive number is sent. */
  function MilestoneMember(milestoneNumber: Option<int>): (r: Option<int>)
    ensures r.Some? <==> milestoneNumber.Some? && milestoneNumber.value > 0
    ensures r.Some? ==> r == milestoneNumber
  {
    match milestoneNumber
    case Some(n) => if n > 0 then Some(n) else None
    case None => None
  }

  /** A string or list member is included only when non-empty (truthy). */
  function NonEmptyMember<T>(xs: seq<T>): (r: Option<seq<T>>)
    ensures r.Some? <==> xs != []
    ensures r.Some? ==> r.value == xs
  {
    if xs == [] then None else Some(xs)
  }

  /** The payload built for `row`: the title always, body, labels and
      assignees when non-empty, the milestone when positive. Nothing of the
      row's issue fields is lost: an omitted member stands for an empty
      field, so the payload gives back title, body, labels and assignees
      exactly. */
  function BuildPayload(row: IssueRow, milestoneNumber: Option<int>): (p: Payload)
    ensures p.title == row.title
    ensures p.body.Some? <==> row.body != []
    ensures p.labels.Some? <==> row.labels != []
    ensures p.assignees.Some? <==> row.assignees != []
    ensures p.milestone.Some? <==> milestoneNumber.Some? && milestoneNumber.value > 0
    ensures p.milestone.Some? ==> p.milestone == milestoneNumber
    ensures p.body.GetOr("") == row.body
    ensures p.labels.GetOr([]) == row.labels
    ensures p.assignees.GetOr([]) == row.assignees
  {
    Payload(row.title, NonEmptyMember(row.body), NonEmptyMember(row.labels),
            NonEmptyMember(row.assignees), MilestoneMember(milestoneNumber))
  }

  /** `sep.join(xs)` with a string separator. */
  function JoinWith(xs: seq<string>, sep: string): string {
    if |xs| == 0 then ""
    else if |xs| == 1 then xs[0]
    else xs[0] + sep + JoinWith(xs[1..], sep)
  }

  function QuoteAll(xs: seq<string>): (r: seq<string>)
    ensures |r| == |xs|
    ensures forall k :: 0 <= k < |xs| ==> r[k] == Quote(xs[k])
  {
    if xs == [] then [] else [Quote(xs[0])] + QuoteAll(xs[1..])
  }

  /** A JSON array of strings as `json.dumps` writes it. */
  function DumpsList(xs: seq<string>): string {
    "[" + JoinWith(QuoteAll(xs), ", ") + "]"
  }

  function Member(name: string, value: string): string {
    Quote(name) + ": " + value
  }

  /** A one-member list when the member is present, else nothing. */
  function OptMember(present: bool, name: string, value: string): seq<string> {
    if present then [Member(name, value)] else []
  }

  /** The `"name": value` pairs of the payload, in insertion order. */
  function Members(p: Payload): (r: seq<string>)
    ensures |r| >= 1 && r[0] == Member("title", Quote(p.title))
  {
    Concat5(
      [Member("title", Quote(p.title))],
      OptMember(p.body.Some?, "body", Quote(p.body.GetOr(""))),
      OptMember(p.labels.Some?, "labels", DumpsList(p.labels.GetOr([]))),
      OptMember(p.assignees.Some?, "assignees", DumpsList(p.assignees.GetOr([]))),
      OptMember(p.milestone.Some?, "milestone", IntToString(p.milestone.GetOr(0))))
  }

  function Concat5(a: seq<string>, b: seq<string>, c: seq<string>, d: seq<string>, e: seq<string>)
    : (r: seq<string>)
    ensures |r| == |a| + |b| + |c| + |d| + |e|
    ensures |a| >= 1 ==> r[0] == a[0]
  {
    a + b + c + d + e
  }

  /** `json.dumps(payload)` with the default separators `", "` and `": "`. */
  function Dumps(p: Payload): string {
    "{" + JoinWith(Members(p), ", ") + "}"
  }

  predicate AllPrintable(s: string) {
    forall k :: 0 <= k < |s| ==> IsPrintableAscii(s[k])
  }

  lemma PrintableConcat(a: string, b: string)
    requires AllPrintable(a) && AllPrintable(b)
    ensures AllPrintable(a + b)
  {
    assert forall k :: 0 <= k < |a| ==> (a + b)[k] == a[k];
    assert forall k :: |a| <= k < |a + b| ==> (a + b)[k] == b[k - |a|];
  }

  lemma {:induction false} JoinPrintable(xs: seq<string>, sep: string)
    requires forall k :: 0 <= k < |xs| ==> AllPrintable(xs[k])
    requires AllPrintable(sep)
    ensures AllPrintable(JoinWith(xs, sep))
  {
    if |xs| > 1 {
      JoinPrintable(xs[1..], sep);
      PrintableConcat(xs[0], sep);
      PrintableConcat(xs[0] + sep, JoinWith(xs[1..], sep));
    }
  }

  lemma QuotePrintable(s: string)
    ensures AllPrintable(Quote(s))
  {
    PrintableConcat("\"", Escape(s));
    PrintableConcat("\"" + Escape(s), "\"");
  }

  lemma IntPrintable(i: int)
    ensures AllPrintable(IntToString(i))
  {
    var d := NatToString(if i < 0 then -i else i);
    assert AllPrintable(d);
    if i < 0 {
      PrintableConcat("-", d);
    }
  }

  lemma MemberPrintable(name: string, value: string)
    requires AllPrintable(value)
    ensures AllPrintable(Member(name, value))
  {
    QuotePrintable(name);
    PrintableConcat(Quote(name), ": ");
    PrintableConcat(Quote(name) + ": ", value);
  }

  lemma ListPrintable(xs: seq<string>)
    ensures AllPrintable(DumpsList(xs))
  {
    var q := QuoteAll(xs);
    forall k | 0 <= k < |q| ensures AllPrintable(q[k]) {
      QuotePrintable(xs[k]);
    }
    JoinPrintable(q, ", ");
    PrintableConcat("[", JoinWith(q, ", "));
    PrintableConcat("[" + JoinWith(q, ", "), "]");
  }

  predicate AllMembersPrintable(ms: seq<string>) {
    forall k :: 0 <= k < |ms| ==> AllPrintable(ms[k])
  }

  lemma MembersConcat(a: seq<string>, b: seq<string>)
    requires AllMembersPrintable(a) && AllMembersPrintable(b)
    ensures AllMembersPrintable(a + b)
  {
  }

  lemma Concat5Printable(a: seq<string>, b: seq<string>, c: seq<string>, d: seq<string>, e: seq<string>)
    requires AllMembersPrintable(a) && AllMembersPrintable(b) && AllMembersPrintable(c)
    requires AllMembersPrintable(d) && AllMembersPrintable(e)
    ensures AllMembersPrintable(Concat5(a, b, c, d, e))
  {
    MembersConcat(a, b);
    MembersConcat(a + b, c);
    MembersConcat(a + b + c, d);
    MembersConcat(a + b + c + d, e);
  }

  lemma OptMemberPrintable(present: bool, name: string, value: string)
    requires AllPrintable(value)
    ensures AllMembersPrintable(OptMember(present, name, value))
  {
    MemberPrintable(name, value);
  }

  lemma MembersPrintable(p: Payload)
    ensures AllMembersPrintable(Members(p))
  {
    QuotePrintable(p.title);
    QuotePrintable(p.body.GetOr(""));
    ListPrintable(p.labels.GetOr([]));
    ListPrintable(p.assignees.GetOr([]));
    IntPrintable(p.milestone.GetOr(0));
    OptMemberPrintable(true, "title", Quote(p.title));
    OptMemberPrintable(p.body.Some?, "body", Quote(p.body.GetOr("")));
    OptMemberPrintable(p.labels.Some?, "labels", DumpsList(p.labels.GetOr([])));
    OptMemberPrintable(p.assignees.Some?, "assignees", DumpsList(p.assignees.GetOr([])));
    OptMemberPrintable(p.milestone.Some?, "milestone", IntToString(p.milestone.GetOr(0)));
    assert OptMember(true, "title", Quote(p.title)) == [Member("title", Quote(p.title))];
    Concat5Printable(
      [Member("title", Quote(p.title))],
      OptMember(p.body.Some?, "body", Quote(p.body.GetOr(""))),
      OptMember(p.labels.Some?, "labels", DumpsList(p.labels.GetOr([]))),
      OptMember(p.assignees.Some?, "assignees", DumpsList(p.assignees.GetOr([]))),
      OptMember(p.milestone.Some?, "milestone", IntToString(p.milestone.GetOr(0))));
  }

  /** With `ensure_ascii`, the request body is printable ASCII whatever
      characters the row holds. */
  lemma DumpsPrintable(p: Payload)
    ensures AllPrintable(Dumps(p))
  {
    var ms := Members(p);
    MembersPrintable(p);
    JoinPrintable(ms, ", ");
    PrintableConcat("{", JoinWith(ms, ", "));
    PrintableConcat("{" + JoinWith(ms, ", "), "}");
  }

  /** The text of the error raised when `gh api` exits non-zero (line 199):
      it embeds the title, gh's stderr and the whole request body. */
  function CreationError(p: Payload, stderr: string): (e: string)
    ensures Contains(e, p.title)
    ensures Contains(e, stderr)
    ensures Contains(e, Dumps(p))
  {
    var e := "Issue creation failed for '" + p.title + "': " + stderr + "\nRequest: " + Dumps(p);
    ContainsParts("Issue creation failed for '", p.title, "': ", stderr, "\nRequest: ", Dumps(p));
    e
  }

  /** Each variable part of a message built from alternating fixed and
      variable parts occurs in it. */
  lemma ContainsParts(h: string, a: string, m: string, b: string, t: string, c: string)
    ensures Contains(h + a + m + b + t + c, a)
    ensures Contains(h + a + m + b + t + c, b)
    ensures Contains(h + a + m + b + t + c, c)
  {
    var e := h + a + m + b + t + c;
    ContainsSelf(a);
    ContainsSelf(b);
    ContainsSelf(c);
    assert e == h + a + (m + b + t + c);
    ContainsInfix(h, a, m + b + t + c, a);
    assert e == (h + a + m) + b + (t + c);
    ContainsInfix(h + a + m, b, t + c, b);
    assert e == (h + a + m + b + t) + c + "";
    ContainsInfix(h + a + m + b + t, c, "", c);
  }
}
