/**
 * The mapping between an issue and its Automerge document
 * (crates/trx-core/src/crdt_store.rs, `issue_to_doc` and `doc_to_issue`).
 * A document is modelled by its current value: a map from keys to scalar
 * strings, integers, lists and nested maps. Instants are written as text and
 * read back by the matching parser; here that text is the decimal count.
 */
module DocMap {
  import opened Wrappers
  import opened Text
  import opened Issues

  datatype Value =
    | Str(s: string)
    | Int(n: int)
    | List(items: seq<Value>)
    | Obj(fields: map<string, Value>)

  /** The root map of a document. */
  type Doc = map<string, Value>

  /** `to_rfc3339` and `parse_from_rfc3339`, over the decimal form of an instant. */
  function TimeText(t: Timestamp): string { Decimal(t) }

  function ParseTime(s: string): Option<Timestamp> { ParseNat(s) }

  lemma TimeRoundTrip(t: Timestamp)
    ensures ParseTime(TimeText(t)) == Some(t)
  {
    ParseNatOfDecimal(t);
  }

  // ---------------------------------------------------------------------------
  // Reading single fields

  /** `get_str`: the key holds a string scalar. */
  function StrField(d: map<string, Value>, key: string): Option<string>
  {
    if key in d && d[key].Str? then Some(d[key].s) else None
  }

  /** `get_u8`: the key holds an integer, truncated by `as u8`. */
  function U8Field(d: map<string, Value>, key: string): Option<u8>
  {
    if key in d && d[key].Int? then Some(d[key].n % 0x100) else None
  }

  /** `get_datetime`: a string that parses as an instant. */
  function TimeField(d: map<string, Value>, key: string): Option<Timestamp>
  {
    match StrField(d, key)
    case None => None
    case Some(text) => ParseTime(text)
  }

  /** The items of a list under `key`; any other value has no items to read. */
  function ListItems(d: map<string, Value>, key: string): seq<Value>
  {
    if key in d && d[key].List? then d[key].items else []
  }

  // ---------------------------------------------------------------------------
  // Writing

  function PutStr(d: Doc, key: string, v: Option<string>): Doc
  {
    if v.Some? then d[key := Str(v.value)] else d
  }

  function PutTime(d: Doc, key: string, t: Option<Timestamp>): Doc
  {
    if t.Some? then d[key := Str(TimeText(t.value))] else d
  }

  /** A dependency as a nested map; `type` is written by `Display`. */
  function DepValue(dep: Dependency): Value
  {
    var m := map["issue_id" := Str(dep.issueId), "depends_on_id" := Str(dep.dependsOnId),
                 "type" := Str(DependencyTypeText(dep.depType)),
                 "created_at" := Str(TimeText(dep.createdAt))];
    Obj(PutStr(m, "created_by", dep.createdBy))
  }

  function LabelValues(labels: seq<string>): seq<Value>
  {
    seq(|labels|, k requires 0 <= k < |labels| => Str(labels[k]))
  }

  function DepValues(deps: seq<Dependency>): seq<Value>
  {
    seq(|deps|, k requires 0 <= k < |deps| => DepValue(deps[k]))
  }

  /**
   * `issue_to_doc`. The issue's `created_by`, `deleted_at`, `deleted_by`,
   * `delete_reason` and `original_type` are not written. Labels and
   * dependencies are written only when there are some.
   */
  function IssueToDoc(i: Issue): Doc
  {
    WithRequired(WithLists(OptionalPart(i), i), i)
  }

  /** The optional scalars, each written only when present. */
  function OptionalPart(i: Issue): Doc
  {
    var d := PutStr(map[], "description", i.description);
    var d := PutTime(d, "closed_at", i.closedAt);
    var d := PutStr(d, "assignee", i.assignee);
    var d := PutStr(d, "close_reason", i.closeReason);
    PutStr(d, "notes", i.notes)
  }

  /** The two lists, each written only when non-empty. */
  function WithLists(d: Doc, i: Issue): Doc
  {
    var d := if i.labels != [] then d["labels" := List(LabelValues(i.labels))] else d;
    if i.dependencies != [] then d["dependencies" := List(DepValues(i.dependencies))] else d
  }

  /** The fields every document has. */
  function WithRequired(d: Doc, i: Issue): Doc
  {
    d["id" := Str(i.id)]["title" := Str(i.title)]["status" := Str(StatusText(i.status))]
     ["priority" := Int(i.priority)]["issue_type" := Str(TypeText(i.issueType))]
     ["created_at" := Str(TimeText(i.createdAt))]["updated_at" := Str(TimeText(i.updatedAt))]
  }

  /** Keys outside the required ones keep what the earlier stages wrote. */
  lemma RequiredKeeps(d: Doc, i: Issue, key: string)
    requires key !in {"id", "title", "status", "priority", "issue_type", "created_at", "updated_at"}
    ensures key in WithRequired(d, i) <==> key in d
    ensures key in d ==> WithRequired(d, i)[key] == d[key]
  {
  }

  /** Keys other than the two lists keep what the optional part wrote. */
  lemma ListsKeep(d: Doc, i: Issue, key: string)
    requires key != "labels" && key != "dependencies"
    ensures key in WithLists(d, i) <==> key in d
    ensures key in d ==> WithLists(d, i)[key] == d[key]
  {
  }

  /** An optional field of the document reads as the optional part wrote it. */
  lemma OptionalKeeps(i: Issue, key: string)
    requires key in {"description", "closed_at", "assignee", "close_reason", "notes"}
    ensures StrField(IssueToDoc(i), key) == StrField(OptionalPart(i), key)
  {
    var o := OptionalPart(i);
    ListsKeep(o, i, key);
    RequiredKeeps(WithLists(o, i), i, key);
  }

  // ---------------------------------------------------------------------------
  // Reading

  /**
   * The dependency type as the reader spells it: `parent_child` with an
   * underscore, although the writer's `parent-child` has a dash; anything not
   * recognised is the default, `blocks`.
   */
  function ReadDepType(text: Option<string>): DependencyType
  {
    if text == Some("parent_child") then ParentChild
    else if text == Some("related") then Related
    else Blocks
  }

  /**
   * One item of the dependency list: a map with both ids as strings, or nothing.
   * A missing or unreadable `created_at` is the current instant.
   */
  function ReadDep(v: Value, now: Timestamp): Option<Dependency>
  {
    if !v.Obj? then None
    else
      var f := v.fields;
      match (StrField(f, "issue_id"), StrField(f, "depends_on_id"))
      case (Some(from), Some(to)) =>
        var at := match TimeField(f, "created_at") case Some(t) => t case None => now;
        Some(Dependency(from, to, ReadDepType(StrField(f, "type")), at, StrField(f, "created_by")))
      case _ => None
  }

  /** The string items of a list, in order. */
  function ReadLabels(items: seq<Value>): seq<string>
  {
    if items == [] then []
    else
      var last := items[|items| - 1];
      ReadLabels(items[..|items| - 1]) + (if last.Str? then [last.s] else [])
  }

  /** The readable dependencies of a list, in order. */
  function ReadDeps(items: seq<Value>, now: Timestamp): seq<Dependency>
  {
    if items == [] then []
    else
      var dep := ReadDep(items[|items| - 1], now);
      ReadDeps(items[..|items| - 1], now) + (if dep.Some? then [dep.value] else [])
  }

  /** The scalar fields of `doc_to_issue`, each overriding `Issue::new` only when readable. */
  function ReadScalars(doc: Doc, base: Issue): Issue
  {
    var status := match StrField(doc, "status")
      case None => base.status
      case Some(text) => (match ParseStatus(text) case Ok(s) => s case Err(_) => Open);
    var itype := match StrField(doc, "issue_type")
      case None => base.issueType
      case Some(text) => (match ParseType(text) case Ok(t) => t case Err(_) => Task);
    base.(
      description := if StrField(doc, "description").Some? then StrField(doc, "description") else base.description,
      status := status,
      priority := match U8Field(doc, "priority") case Some(p) => p case None => base.priority,
      issueType := itype,
      createdAt := match TimeField(doc, "created_at") case Some(t) => t case None => base.createdAt,
      updatedAt := match TimeField(doc, "updated_at") case Some(t) => t case None => base.updatedAt,
      closedAt := if TimeField(doc, "closed_at").Some? then TimeField(doc, "closed_at") else base.closedAt,
      assignee := if StrField(doc, "assignee").Some? then StrField(doc, "assignee") else base.assignee,
      closeReason := if StrField(doc, "close_reason").Some? then StrField(doc, "close_reason") else base.closeReason,
      notes := if StrField(doc, "notes").Some? then StrField(doc, "notes") else base.notes)
  }

  /**
   * `doc_to_issue`: an id and a title are required; everything else falls back
   * to what `Issue::new` gives at the current instant.
   */
  function DocToIssue(doc: Doc, now: Timestamp): (r: Result<Issue>)
    ensures r.Ok? <==> StrField(doc, "id").Some? && StrField(doc, "title").Some?
    ensures StrField(doc, "id").None? ==> r == Err(Other("Missing id field"))
    ensures StrField(doc, "id").Some? && StrField(doc, "title").None? ==> r == Err(Other("Missing title field"))
    ensures r.Ok? ==> r.value.id == StrField(doc, "id").value && r.value.title == StrField(doc, "title").value
    ensures r.Ok? ==> r.value.createdBy == r.value.deletedBy == None && r.value.deletedAt == None
    ensures r.Ok? ==> r.value.deleteReason == r.value.originalType == None
  {
    match (StrField(doc, "id"), StrField(doc, "title"))
    case (None, _) => Err(Other("Missing id field"))
    case (Some(_), None) => Err(Other("Missing title field"))
    case (Some(id), Some(title)) =>
      var i := ReadScalars(doc, New(id, title, now));
      Ok(i.(labels := ReadLabels(ListItems(doc, "labels")),
            dependencies := ReadDeps(ListItems(doc, "dependencies"), now)))
  }

  /** `doc_to_issue` as the source runs it: the label and dependency loops push in order. */
  method ReadDoc(doc: Doc, now: Timestamp) returns (r: Result<Issue>)
    ensures r == DocToIssue(doc, now)
  {
    var id := StrField(doc, "id");
    if id.None? {
      return Err(Other("Missing id field"));
    }
    var title := StrField(doc, "title");
    if title.None? {
      return Err(Other("Missing title field"));
    }
    var issue := ReadScalars(doc, New(id.value, title.value, now));
    var labels := ReadLabelList(ListItems(doc, "labels"));
    var deps := ReadDepList(ListItems(doc, "dependencies"), now);
    r := Ok(issue.(labels := labels, dependencies := deps));
  }

  /** The label loop of `doc_to_issue`: each string item is pushed, others skipped. */
  method ReadLabelList(items: seq<Value>) returns (labels: seq<string>)
    ensures labels == ReadLabels(items)
  {
    labels := [];
    var k := 0;
    while k < |items|
      invariant 0 <= k <= |items|
      invariant labels == ReadLabels(items[..k])
    {
      assert items[..k + 1][..k] == items[..k];
      if items[k].Str? {
        labels := labels + [items[k].s];
      }
      k := k + 1;
    }
    assert items[..k] == items;
  }

  /** The dependency loop of `doc_to_issue`: each readable map item is pushed. */
  method ReadDepList(items: seq<Value>, now: Timestamp) returns (deps: seq<Dependency>)
    ensures deps == ReadDeps(items, now)
  {
    deps := [];
    var k := 0;
    while k < |items|
      invariant 0 <= k <= |items|
      invariant deps == ReadDeps(items[..k], now)
    {
      assert items[..k + 1][..k] == items[..k];
      var dep := ReadDep(items[k], now);
      if dep.Some? {
        deps := deps + [dep.value];
      }
      k := k + 1;
    }
    assert items[..k] == items;
  }

  // ---------------------------------------------------------------------------
  // The round trip

  /** What a written dependency reads back as: `parent-child` is not recognised. */
  function Reread(dep: Dependency): Dependency
  {
    if dep.depType == ParentChild then dep.(depType := Blocks) else dep
  }

  function RereadAll(deps: seq<Dependency>): (r: seq<Dependency>)
    ensures |r| == |deps|
  {
    seq(|deps|, k requires 0 <= k < |deps| => Reread(deps[k]))
  }

  /** The written type text reads back as the same type, except `parent-child`. */
  lemma DepTypeRoundTrip(t: DependencyType)
    ensures ReadDepType(Some(DependencyTypeText(t))) == (if t == ParentChild then Blocks else t)
  {
  }

  lemma DepRoundTrip(dep: Dependency, now: Timestamp)
    ensures ReadDep(DepValue(dep), now) == Some(Reread(dep))
  {
    var f := DepValue(dep).fields;
    assert StrField(f, "issue_id") == Some(dep.issueId);
    assert StrField(f, "depends_on_id") == Some(dep.dependsOnId);
    assert StrField(f, "type") == Some(DependencyTypeText(dep.depType));
    TimeRoundTrip(dep.createdAt);
    assert TimeField(f, "created_at") == Some(dep.createdAt);
    assert StrField(f, "created_by") == dep.createdBy;
  }

  lemma {:induction false} LabelsRoundTrip(labels: seq<string>)
    ensures ReadLabels(LabelValues(labels)) == labels
    decreases |labels|
  {
    if labels != [] {
      var n := |labels| - 1;
      assert LabelValues(labels)[..n] == LabelValues(labels[..n]);
      LabelsRoundTrip(labels[..n]);
      assert labels == labels[..n] + [labels[n]];
    }
  }

  lemma DepsRoundTrip(deps: seq<Dependency>, now: Timestamp)
    ensures ReadDeps(DepValues(deps), now) == RereadAll(deps)
  {
    var items := DepValues(deps);
    forall k | 0 <= k < |deps| ensures ReadDep(items[k], now) == Some(Reread(deps[k])) {
      DepRoundTrip(deps[k], now);
    }
    ReadEach(items, deps, now);
  }

  /** Items that each read as the reread dependency read as the reread list. */
  lemma {:induction false} ReadEach(items: seq<Value>, deps: seq<Dependency>, now: Timestamp)
    requires |items| == |deps|
    requires forall k | 0 <= k < |deps| :: ReadDep(items[k], now) == Some(Reread(deps[k]))
    ensures ReadDeps(items, now) == RereadAll(deps)
    decreases |deps|
  {
    if deps != [] {
      var n := |deps| - 1;
      ReadEach(items[..n], deps[..n], now);
      assert RereadAll(deps) == RereadAll(deps[..n]) + [Reread(deps[n])];
    }
  }

  /** The fields of a written document, key by key. */
  lemma DocFields(i: Issue)
    ensures var d := IssueToDoc(i);
      StrField(d, "id") == Some(i.id) && StrField(d, "title") == Some(i.title)
      && StrField(d, "status") == Some(StatusText(i.status))
      && StrField(d, "issue_type") == Some(TypeText(i.issueType))
      && U8Field(d, "priority") == Some(i.priority)
      && StrField(d, "created_at") == Some(TimeText(i.createdAt))
      && StrField(d, "updated_at") == Some(TimeText(i.updatedAt))
  {
  }

  lemma DocOptionalFields(i: Issue)
    ensures var d := IssueToDoc(i);
      StrField(d, "description") == i.description && StrField(d, "assignee") == i.assignee
  {
    OptionalKeeps(i, "description");
    OptionalKeeps(i, "assignee");
  }

  lemma DocNoteFields(i: Issue)
    ensures var d := IssueToDoc(i);
      StrField(d, "close_reason") == i.closeReason && StrField(d, "notes") == i.notes
  {
    OptionalKeeps(i, "close_reason");
    OptionalKeeps(i, "notes");
  }

  lemma DocClosedAt(i: Issue)
    ensures var d := IssueToDoc(i);
      StrField(d, "closed_at") == (if i.closedAt.Some? then Some(TimeText(i.closedAt.value)) else None)
  {
    OptionalKeeps(i, "closed_at");
  }

  lemma DocLists(i: Issue)
    ensures var d := IssueToDoc(i);
      ListItems(d, "labels") == LabelValues(i.labels)
      && ListItems(d, "dependencies") == DepValues(i.dependencies)
  {
    var d := IssueToDoc(i);
    if i.labels == [] {
      assert ListItems(d, "labels") == [];
    }
    if i.dependencies == [] {
      assert ListItems(d, "dependencies") == [];
    }
  }

  /** The scalar fields survive the round trip. */
  lemma ScalarsRoundTrip(i: Issue, now: Timestamp)
    ensures var r := ReadScalars(IssueToDoc(i), New(i.id, i.title, now));
      r.description == i.description && r.status == i.status && r.priority == i.priority
      && r.issueType == i.issueType && r.createdAt == i.createdAt && r.updatedAt == i.updatedAt
      && r.assignee == i.assignee && r.closeReason == i.closeReason && r.notes == i.notes
      && r.closedAt == i.closedAt
  {
    DocFields(i);
    DocOptionalFields(i);
    DocNoteFields(i);
    DocClosedAt(i);
    StatusRoundTrip(i.status);
    TypeRoundTrip(i.issueType);
    TimeRoundTrip(i.createdAt);
    TimeRoundTrip(i.updatedAt);
    if i.closedAt.Some? {
      TimeRoundTrip(i.closedAt.value);
    }
  }

  /**
   * Writing an issue and reading it back gives the issue with every
   * `parent-child` dependency turned into `blocks` and the five fields the
   * writer leaves out cleared.
   */
  lemma RoundTrip(i: Issue, now: Timestamp)
    ensures DocToIssue(IssueToDoc(i), now) == Ok(i.(
      dependencies := RereadAll(i.dependencies), createdBy := None, deletedAt := None,
      deletedBy := None, deleteReason := None, originalType := None))
  {
    DocFields(i);
    DocOptionalFields(i);
    DocNoteFields(i);
    DocClosedAt(i);
    DocLists(i);
    ScalarsRoundTrip(i, now);
    LabelsRoundTrip(i.labels);
    DepsRoundTrip(i.dependencies, now);
  }

  /**
   * The round trip gives back exactly the issue if and only if it has none of
   * the unwritten fields and no `parent-child` dependency.
   */
  lemma RoundTripExact(i: Issue, now: Timestamp)
    ensures DocToIssue(IssueToDoc(i), now) == Ok(i) <==>
      i.createdBy == i.deletedBy == i.deleteReason == i.originalType == None && i.deletedAt == None
      && forall k | 0 <= k < |i.dependencies| :: i.dependencies[k].depType != ParentChild
  {
    RoundTrip(i, now);
    if forall k | 0 <= k < |i.dependencies| :: i.dependencies[k].depType != ParentChild {
      assert RereadAll(i.dependencies) == i.dependencies;
    }
    if DocToIssue(IssueToDoc(i), now) == Ok(i) {
      forall k | 0 <= k < |i.dependencies| ensures i.dependencies[k].depType != ParentChild {
        assert RereadAll(i.dependencies)[k] == i.dependencies[k];
      }
    }
  }
}
