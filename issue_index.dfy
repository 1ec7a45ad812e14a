/**
 * The generated `ISSUES.md` overview of the CRDT store
 * (crates/trx-core/src/crdt_store.rs, `regenerate_issues_md`): which issues it
 * lists, in which order, and the text it writes.
 */
module IssueIndex {
  import opened Wrappers
  import opened Text
  import opened Issues

  // ---------------------------------------------------------------------------
  // Ordering

  /** `le(a, b)`: `a` may stand before `b`. */
  ghost predicate TotalPreorder(le: (Issue, Issue) -> bool)
  {
    (forall a, b :: le(a, b) || le(b, a))
    && (forall a, b, c :: le(a, b) && le(b, c) ==> le(a, c))
  }

  predicate Sorted(s: seq<Issue>, le: (Issue, Issue) -> bool)
  {
    forall i, j | 0 <= i < j < |s| :: le(s[i], s[j])
  }

  /** Puts `x` after every element it does not strictly precede, so equal keys keep their order. */
  function Insert(x: Issue, s: seq<Issue>, le: (Issue, Issue) -> bool): (r: seq<Issue>)
    requires TotalPreorder(le) && Sorted(s, le)
    ensures Sorted(r, le) && multiset(r) == multiset(s) + multiset{x}
    decreases |s|
  {
    if s == [] then [x]
    else if le(x, s[0]) && !le(s[0], x) then
      assert forall j | 0 <= j < |s| :: le(x, s[j]);
      [x] + s
    else
      var rest := Insert(x, s[1..], le);
      assert s == [s[0]] + s[1..];
      assert forall j | 0 <= j < |rest| :: le(s[0], rest[j]) by {
        forall j | 0 <= j < |rest| ensures le(s[0], rest[j]) {
          assert rest[j] in multiset(rest);
          if rest[j] != x {
            assert rest[j] in s[1..];
          }
        }
      }
      [s[0]] + rest
  }

  /** `sort_by`: a stable sort under `le`. */
  function SortBy(s: seq<Issue>, le: (Issue, Issue) -> bool): (r: seq<Issue>)
    requires TotalPreorder(le)
    ensures Sorted(r, le) && multiset(r) == multiset(s)
    decreases |s|
  {
    if s == [] then []
    else
      var n := |s| - 1;
      assert s == s[..n] + [s[n]];
      Insert(s[n], SortBy(s[..n], le), le)
  }

  /** Open issues: by priority, then newest first. */
  predicate OpenBefore(a: Issue, b: Issue)
  {
    a.priority < b.priority || (a.priority == b.priority && a.createdAt >= b.createdAt)
  }

  /** Closed issues: the latest closing first; an issue without a closing time last. */
  predicate ClosedBefore(a: Issue, b: Issue)
  {
    b.closedAt.None? || (a.closedAt.Some? && a.closedAt.value >= b.closedAt.value)
  }

  lemma OpenOrderIsTotal()
    ensures TotalPreorder(OpenBefore)
  {
  }

  lemma ClosedOrderIsTotal()
    ensures TotalPreorder(ClosedBefore)
  {
  }

  // ---------------------------------------------------------------------------
  // The two lists

  function OpenIssues(values: seq<Issue>): (r: seq<Issue>)
    ensures forall x :: x in r <==> x in values && IsOpen(x.status)
    ensures |r| <= |values|
    ensures r == [] <==> forall k | 0 <= k < |values| :: !IsOpen(values[k].status)
  {
    if values == [] then []
    else
      var n := |values| - 1;
      assert values == values[..n] + [values[n]];
      OpenIssues(values[..n]) + (if IsOpen(values[n].status) then [values[n]] else [])
  }

  /** Closed, but not tombstones. */
  function ClosedIssues(values: seq<Issue>): (r: seq<Issue>)
    ensures forall x :: x in r <==> x in values && x.status == Closed
    ensures |r| <= |values|
    ensures r == [] <==> forall k | 0 <= k < |values| :: values[k].status != Closed
  {
    if values == [] then []
    else
      var n := |values| - 1;
      assert values == values[..n] + [values[n]];
      ClosedIssues(values[..n]) + (if values[n].status == Closed then [values[n]] else [])
  }

  /** The open section's issues, for the map's values in its iteration order. */
  function OpenList(values: seq<Issue>): seq<Issue>
  {
    OpenOrderIsTotal();
    SortBy(OpenIssues(values), OpenBefore)
  }

  function ClosedList(values: seq<Issue>): seq<Issue>
  {
    ClosedOrderIsTotal();
    SortBy(ClosedIssues(values), ClosedBefore)
  }

  /**
   * The open section lists exactly the open issues, each one as often as it
   * occurs, by priority and then newest first.
   */
  lemma OpenListOrder(values: seq<Issue>)
    ensures forall x :: x in OpenList(values) <==> x in values && IsOpen(x.status)
    ensures multiset(OpenList(values)) == multiset(OpenIssues(values))
    ensures forall i, j | 0 <= i < j < |OpenList(values)| ::
      OpenList(values)[i].priority <= OpenList(values)[j].priority
    ensures forall i, j | 0 <= i < j < |OpenList(values)| ::
      OpenList(values)[i].priority == OpenList(values)[j].priority ==>
      OpenList(values)[i].createdAt >= OpenList(values)[j].createdAt
  {
    OpenOrderIsTotal();
    var r := OpenList(values);
    forall x ensures x in r <==> x in OpenIssues(values) {
      assert x in r <==> x in multiset(r);
    }
  }

  /** The closed section lists the closed issues that are not tombstones, latest closing first. */
  lemma ClosedListOrder(values: seq<Issue>)
    ensures forall x :: x in ClosedList(values) <==> x in values && x.status == Closed
    ensures multiset(ClosedList(values)) == multiset(ClosedIssues(values))
    ensures forall i, j | 0 <= i < j < |ClosedList(values)| ::
      ClosedBefore(ClosedList(values)[i], ClosedList(values)[j])
  {
    ClosedOrderIsTotal();
    var r := ClosedList(values);
    forall x ensures x in r <==> x in ClosedIssues(values) {
      assert x in r <==> x in multiset(r);
    }
  }

  // ---------------------------------------------------------------------------
  // The text

  /** The pieces joined with `sep` in between. */
  function Join(pieces: seq<string>, sep: string): string
  {
    if pieces == [] then ""
    else if |pieces| == 1 then pieces[0]
    else Join(pieces[..|pieces| - 1], sep) + sep + pieces[|pieces| - 1]
  }

  /** The first five lines of a description, and `...` when it has more. */
  function Preview(description: Option<string>): string
  {
    match description
    case None => ""
    case Some(d) =>
      var lines := Lines(d);
      var shown := if |lines| > 5 then lines[..5] else lines;
      Join(shown, "\n") + (if |lines| > 5 then "\n...\n" else "") + "\n"
  }

  function OpenHeading(i: Issue): string
  {
    "### [" + i.id + "] " + i.title + " (P" + Decimal(i.priority) + ", " + TypeText(i.issueType) + ")\n"
  }

  function OpenEntry(i: Issue): string
  {
    OpenHeading(i) + Preview(i.description) + "\n"
  }

  /** `formatDate` stands for `format("%Y-%m-%d")`; no closing time gives an empty date. */
  function ClosedEntry(i: Issue, formatDate: Timestamp -> string): string
  {
    var date := match i.closedAt case Some(t) => formatDate(t) case None => "";
    "- [" + i.id + "] " + i.title + " (closed " + date + ")\n"
  }

  /** The entries of the issues, in order. */
  function Entries(s: seq<Issue>, entry: Issue -> string): string
  {
    if s == [] then "" else Entries(s[..|s| - 1], entry) + entry(s[|s| - 1])
  }

  function OpenEntries(s: seq<Issue>): string
  {
    Entries(s, OpenEntry)
  }

  function ClosedEntries(s: seq<Issue>, formatDate: Timestamp -> string): string
  {
    Entries(s, i => ClosedEntry(i, formatDate))
  }

  const Header := "# Issues\n\n"
  const NoIssues := "No issues yet.\n"

  function OpenSection(open: seq<Issue>): string
  {
    if open != [] then "## Open\n\n" + OpenEntries(open) else ""
  }

  function ClosedSection(closed: seq<Issue>, formatDate: Timestamp -> string): string
  {
    if closed != [] then "## Closed\n\n" + ClosedEntries(closed, formatDate) else ""
  }

  function IndexText(open: seq<Issue>, closed: seq<Issue>, formatDate: Timestamp -> string): string
  {
    Header + OpenSection(open) + ClosedSection(closed, formatDate)
    + (if open == [] && closed == [] then NoIssues else "")
  }

  /** The loop over one section: each issue's entry is pushed in turn. */
  method PushEntries(prefix: string, s: seq<Issue>, entry: Issue -> string) returns (content: string)
    ensures content == prefix + Entries(s, entry)
  {
    content := prefix;
    var k := 0;
    while k < |s|
      invariant 0 <= k <= |s|
      invariant content == prefix + Entries(s[..k], entry)
    {
      assert s[..k + 1][..k] == s[..k];
      content := content + entry(s[k]);
      k := k + 1;
    }
    assert s[..k] == s;
  }

  /** `regenerate_issues_md` builds the text section by section. */
  method Render(open: seq<Issue>, closed: seq<Issue>, formatDate: Timestamp -> string)
    returns (content: string)
    ensures content == IndexText(open, closed, formatDate)
  {
    var openPart := "";
    if open != [] {
      openPart := PushEntries("## Open\n\n", open, OpenEntry);
    }
    var closedPart := "";
    if closed != [] {
      closedPart := PushEntries("## Closed\n\n", closed, i => ClosedEntry(i, formatDate));
    }
    content := Header + openPart + closedPart;
    if open == [] && closed == [] {
      content := content + NoIssues;
    }
  }

  /** Every listed issue has its entry in the section. */
  lemma {:induction false} EntriesList(s: seq<Issue>, k: nat, entry: Issue -> string)
    requires k < |s|
    ensures Contains(Entries(s, entry), entry(s[k]))
    decreases |s|
  {
    var n := |s| - 1;
    var prev := Entries(s[..n], entry);
    var e := entry(s[k]);
    if k == n {
      assert OccursAt(Entries(s, entry), e, |prev|);
    } else {
      EntriesList(s[..n], k, entry);
      var i :| 0 <= i <= |prev| - |e| && OccursAt(prev, e, i);
      assert Entries(s, entry)[i..i + |e|] == prev[i..i + |e|];
      assert OccursAt(Entries(s, entry), e, i);
    }
  }

  lemma ContainsAfter(a: string, b: string, sub: string)
    requires Contains(b, sub)
    ensures Contains(a + b, sub)
  {
    var i :| 0 <= i <= |b| - |sub| && OccursAt(b, sub, i);
    assert (a + b)[|a| + i..|a| + i + |sub|] == b[i..i + |sub|];
    assert OccursAt(a + b, sub, |a| + i);
  }

  lemma ContainsBefore(a: string, b: string, sub: string)
    requires Contains(a, sub)
    ensures Contains(a + b, sub)
  {
    var i :| 0 <= i <= |a| - |sub| && OccursAt(a, sub, i);
    assert (a + b)[i..i + |sub|] == a[i..i + |sub|];
    assert OccursAt(a + b, sub, i);
  }

  /** Each open issue listed has its entry in the text. */
  lemma TextShowsOpen(open: seq<Issue>, closed: seq<Issue>, formatDate: Timestamp -> string, k: nat)
    requires k < |open|
    ensures Contains(IndexText(open, closed, formatDate), OpenEntry(open[k]))
  {
    var e := OpenEntry(open[k]);
    var tail := if open == [] && closed == [] then NoIssues else "";
    EntriesList(open, k, OpenEntry);
    ContainsAfter("## Open\n\n", OpenEntries(open), e);
    ContainsAfter(Header, OpenSection(open), e);
    ContainsBefore(Header + OpenSection(open), ClosedSection(closed, formatDate), e);
    ContainsBefore(Header + OpenSection(open) + ClosedSection(closed, formatDate), tail, e);
  }

  /** Each closed issue listed has its entry in the text. */
  lemma TextShowsClosed(open: seq<Issue>, closed: seq<Issue>, formatDate: Timestamp -> string, k: nat)
    requires k < |closed|
    ensures Contains(IndexText(open, closed, formatDate), ClosedEntry(closed[k], formatDate))
  {
    var e := ClosedEntry(closed[k], formatDate);
    var tail := if open == [] && closed == [] then NoIssues else "";
    EntriesList(closed, k, i => ClosedEntry(i, formatDate));
    ContainsAfter("## Closed\n\n", ClosedEntries(closed, formatDate), e);
    ContainsAfter(Header + OpenSection(open), ClosedSection(closed, formatDate), e);
    ContainsBefore(Header + OpenSection(open) + ClosedSection(closed, formatDate), tail, e);
  }

  /**
   * Every open issue of the store, and every closed one that is not a
   * tombstone, has its entry in the generated text.
   */
  lemma IndexListsIssue(values: seq<Issue>, x: Issue, formatDate: Timestamp -> string)
    requires x in values && x.status != Tombstone
    ensures var text := IndexText(OpenList(values), ClosedList(values), formatDate);
      (IsOpen(x.status) ==> Contains(text, OpenEntry(x)))
      && (x.status == Closed ==> Contains(text, ClosedEntry(x, formatDate)))
  {
    var open, closed := OpenList(values), ClosedList(values);
    OpenListOrder(values);
    ClosedListOrder(values);
    if IsOpen(x.status) {
      var k :| 0 <= k < |open| && open[k] == x;
      TextShowsOpen(open, closed, formatDate, k);
    }
    if x.status == Closed {
      var k :| 0 <= k < |closed| && closed[k] == x;
      TextShowsClosed(open, closed, formatDate, k);
    }
  }

  /** The text is the bare placeholder exactly when both lists are empty. */
  lemma PlaceholderIffEmpty(open: seq<Issue>, closed: seq<Issue>, formatDate: Timestamp -> string)
    ensures IndexText(open, closed, formatDate) == Header + NoIssues <==> open == [] && closed == []
  {
    var text := IndexText(open, closed, formatDate);
    var o, c := OpenSection(open), ClosedSection(closed, formatDate);
    assert (Header + NoIssues)[|Header|] == 'N';
    if open != [] {
      assert o[0] == '#';
      assert text[|Header|] == (Header + o)[|Header|] == o[0];
    } else if closed != [] {
      assert o == [] && c[0] == '#';
      assert text[|Header|] == (Header + o + c)[|Header|] == c[0];
    }
  }

  /** Both lists are empty exactly when every issue is a tombstone (or there are none). */
  lemma NothingListed(values: seq<Issue>)
    ensures OpenList(values) == [] && ClosedList(values) == []
      <==> forall k | 0 <= k < |values| :: values[k].status == Tombstone
  {
    ListsEmptyIffSectionsEmpty(values);
  }

  /** Each list is empty exactly when its section has no issue. */
  lemma ListsEmptyIffSectionsEmpty(values: seq<Issue>)
    ensures OpenList(values) == [] <==> OpenIssues(values) == []
    ensures ClosedList(values) == [] <==> ClosedIssues(values) == []
  {
    OpenListOrder(values);
    ClosedListOrder(values);
    assert |OpenList(values)| == |multiset(OpenIssues(values))| == |OpenIssues(values)|;
    assert |ClosedList(values)| == |multiset(ClosedIssues(values))| == |ClosedIssues(values)|;
  }

  /** A description on one line is shown as it is. */
  lemma OneLinePreview(d: string)
    requires d != [] && '\n' !in d
    ensures Preview(Some(d)) == d + "\n"
  {
    assert IndexOf(d, '\n') == None;
  }
}
