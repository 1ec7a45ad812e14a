/**
 * The version-2 store (crates/trx-core/src/crdt_store.rs, `CrdtStore`): the
 * in-memory issue map, the `.trx/crdt` directory with one Automerge document
 * per issue, and the generated `ISSUES.md`. Every change writes the changed
 * issue's file and regenerates `ISSUES.md`.
 */
module CrdtStore {
  import opened Wrappers
  import opened Text
  import opened Issues
  import opened StoreSpec
  import opened DocMap
  import opened CrdtFiles
  import opened IssueIndex

  /** The text `init` writes to `ISSUES.md` before there is any issue. */
  const EmptyIndex := Header + NoIssues

  /** The `ISSUES.md` text for the map, its values taken in some iteration order. */
  ghost predicate IndexFor(m: IssueMap, text: string, formatDate: Timestamp -> string)
  {
    exists order | Enumerates(order, m.Keys) ::
      text == IndexText(OpenList(ValuesIn(m, order)), ClosedList(ValuesIn(m, order)), formatDate)
  }

  /** The map `load` gives from the directory, its entries read in some `read_dir` order. */
  ghost predicate LoadedAs(m: IssueMap, start: IssueMap, dir: Dir, now: Timestamp)
  {
    exists order | Enumerates(order, dir.Keys) :: m == LoadFiles(start, dir, order, Reader(now))
  }

  /**
   * Whatever the iteration order, `ISSUES.md` shows an open issue of the map
   * under "Open" and a closed one under "Closed".
   */
  lemma IndexShowsId(m: IssueMap, text: string, id: string, formatDate: Timestamp -> string)
    requires IndexFor(m, text, formatDate) && id in m && m[id].status != Tombstone
    ensures IsOpen(m[id].status) ==> Contains(text, OpenEntry(m[id]))
    ensures m[id].status == Closed ==> Contains(text, ClosedEntry(m[id], formatDate))
  {
    var order :| Enumerates(order, m.Keys)
      && text == IndexText(OpenList(ValuesIn(m, order)), ClosedList(ValuesIn(m, order)), formatDate);
    IndexShowsIssue(m, order, id, text, formatDate);
  }

  /** One issue of the map, listed in the index text of one iteration order. */
  lemma IndexShowsIssue(m: IssueMap, order: seq<string>, id: string, text: string,
                        formatDate: Timestamp -> string)
    requires Enumerates(order, m.Keys) && id in m && m[id].status != Tombstone
    requires text == IndexText(OpenList(ValuesIn(m, order)), ClosedList(ValuesIn(m, order)), formatDate)
    ensures IsOpen(m[id].status) ==> Contains(text, OpenEntry(m[id]))
    ensures m[id].status == Closed ==> Contains(text, ClosedEntry(m[id], formatDate))
  {
    var values := ValuesIn(m, order);
    var k :| 0 <= k < |order| && order[k] == id;
    assert values[k] == m[id];
    IndexListsIssue(values, m[id], formatDate);
  }

  /** `ISSUES.md` is the bare placeholder exactly when every issue is a tombstone. */
  lemma IndexPlaceholder(m: IssueMap, text: string, formatDate: Timestamp -> string)
    requires IndexFor(m, text, formatDate)
    ensures text == EmptyIndex <==> forall id | id in m :: m[id].status == Tombstone
  {
    var order :| Enumerates(order, m.Keys)
      && text == IndexText(OpenList(ValuesIn(m, order)), ClosedList(ValuesIn(m, order)), formatDate);
    var values := ValuesIn(m, order);
    PlaceholderIffEmpty(OpenList(values), ClosedList(values), formatDate);
    NothingListed(values);
    if forall k | 0 <= k < |values| :: values[k].status == Tombstone {
      forall id | id in m ensures m[id].status == Tombstone {
        var k :| 0 <= k < |order| && order[k] == id;
        assert values[k] == m[id];
      }
    }
  }

  /** Every issue in memory is filed under its id and its file holds its document. */
  ghost predicate Saved(m: IssueMap, files: Dir)
  {
    Keyed(m) && forall id | id in m :: FileName(id) in files && files[FileName(id)] == Writer()(m[id])
  }

  /** `save_issue` followed by the insertion keeps every issue saved. */
  lemma SaveKeepsSaved(m: IssueMap, files: Dir, id: string, issue: Issue)
    ensures Saved(m, files) && issue.id == id ==> Saved(m[id := issue], files[FileName(id) := Writer()(issue)])
  {
    FileNameInjective();
  }

  class Store {
    /** The in-memory `issues` map. */
    var issues: IssueMap
    /** The entries of `.trx/crdt`. */
    var files: Dir
    /** The contents of `.trx/ISSUES.md`. */
    var index: string
    /** `format("%Y-%m-%d")` of the closing date, an input here. */
    const formatDate: Timestamp -> string

    /** `init`: an empty map, an empty directory and the placeholder index. */
    constructor Init(formatDate: Timestamp -> string)
      ensures issues == map[] && files == map[] && index == EmptyIndex
      ensures this.formatDate == formatDate
    {
      issues := map[];
      files := map[];
      index := EmptyIndex;
      this.formatDate := formatDate;
    }

    /** `with_root`, and `open` before `load`: no issue in memory over an existing directory. */
    constructor WithRoot(files: Dir, index: string, formatDate: Timestamp -> string)
      ensures issues == map[] && this.files == files && this.index == index
      ensures this.formatDate == formatDate
    {
      issues := map[];
      this.files := files;
      this.index := index;
      this.formatDate := formatDate;
    }

    /** `load`: every `.automerge` entry that reads as an issue is filed under its id. */
    method Load(now: Timestamp)
      modifies this
      ensures LoadedAs(issues, old(issues), files, now)
      ensures files == old(files) && index == old(index)
    {
      var order := IterationOrder(files.Keys);
      var start := issues;
      var k := 0;
      while k < |order|
        invariant 0 <= k <= |order|
        invariant files == old(files) && index == old(index)
        invariant issues == LoadFiles(start, files, order[..k], Reader(now))
      {
        assert order[..k + 1][..k] == order[..k];
        var name := order[k];
        if Extension(name) == Some("automerge") {
          match LoadIssue(files[name], now)
          case Ok(issue) =>
            issues := issues[issue.id := issue];
          case Err(_) =>
        }
        k := k + 1;
      }
      assert order[..k] == order;
    }

    /** `save_issue`: the issue's file now holds its document. */
    method SaveIssue(issue: Issue)
      modifies this
      ensures files == old(files)[FileName(issue.id) := Writer()(issue)]
      ensures issues == old(issues) && index == old(index)
    {
      files := files[FileName(issue.id) := Writer()(issue)];
    }

    /**
     * `regenerate_issues_md`: the open and closed issues, sorted, written to
     * `ISSUES.md` in the map's iteration order.
     */
    method Regenerate()
      modifies this
      ensures IndexFor(issues, index, formatDate)
      ensures issues == old(issues) && files == old(files)
    {
      var order := IterationOrder(issues.Keys);
      var values := ValuesIn(issues, order);
      index := Render(OpenList(values), ClosedList(values), formatDate);
    }

    function Get(id: string): (r: Option<Issue>)
      reads this
      ensures r.Some? <==> id in issues
      ensures r.Some? ==> r.value == issues[id]
    {
      Lookup(issues, id)
    }

    method Create(issue: Issue) returns (r: Outcome)
      modifies this
      ensures (r, issues) == CreateEffect(old(issues), issue)
      ensures Saved(old(issues), old(files)) ==> Saved(issues, files)
      ensures r.Pass? ==> files == old(files)[FileName(issue.id) := Writer()(issue)] && IndexFor(issues, index, formatDate)
      ensures r.Fail? ==> files == old(files) && index == old(index)
    {
      if issue.id in issues {
        return Fail(AlreadyExists(issue.id));
      }
      SaveIssue(issue);
      SaveKeepsSaved(issues, old(files), issue.id, issue);
      issues := issues[issue.id := issue];
      Regenerate();
      return Pass;
    }

    method Update(issue: Issue) returns (r: Outcome)
      modifies this
      ensures (r, issues) == UpdateEffect(old(issues), issue)
      ensures Saved(old(issues), old(files)) ==> Saved(issues, files)
      ensures r.Pass? ==> files == old(files)[FileName(issue.id) := Writer()(issue)] && IndexFor(issues, index, formatDate)
      ensures r.Fail? ==> files == old(files) && index == old(index)
    {
      if issue.id !in issues {
        return Fail(NotFound(issue.id));
      }
      SaveIssue(issue);
      SaveKeepsSaved(issues, old(files), issue.id, issue);
      issues := issues[issue.id := issue];
      Regenerate();
      return Pass;
    }

    method Delete(id: string, deleter: Option<string>, reason: Option<string>, now: Timestamp) returns (r: Outcome)
      modifies this
      ensures (r, issues) == DeleteEffect(old(issues), id, deleter, reason, now)
      ensures Saved(old(issues), old(files)) ==> Saved(issues, files)
      ensures r.Pass? ==> files == old(files)[FileName(issues[id].id) := Writer()(issues[id])] && IndexFor(issues, index, formatDate)
      ensures r.Fail? ==> files == old(files) && index == old(index)
    {
      if id !in issues {
        return Fail(NotFound(id));
      }
      var deleted := Issues.Delete(issues[id], deleter, reason, now);
      SaveKeepsSaved(issues, files, id, deleted);
      issues := issues[id := deleted];
      SaveIssue(deleted);
      Regenerate();
      return Pass;
    }

    function List(includeTombstones: bool): (r: set<Issue>)
      reads this
      ensures forall i :: i in r <==> i in issues.Values && (includeTombstones || i.status != Tombstone)
    {
      ListView(issues, includeTombstones)
    }

    function ListOpen(): (r: set<Issue>)
      reads this
      ensures forall i :: i in r <==> i in issues.Values && IsOpen(i.status)
    {
      OpenView(issues)
    }

    method NextChildNum(parentId: string) returns (next: u32)
      ensures next == StoreSpec.NextChildNum(issues.Keys, parentId)
    {
      next := ComputeNextChildNum(issues.Keys, parentId);
    }

    /**
     * `resolve_conflicts`: the entries are visited in the `read_dir` order
     * `order`; each conflicted `.automerge` file is merged and its conflict
     * files removed. When anything was resolved the map is cleared, reloaded
     * and `ISSUES.md` regenerated. A failed merge ends the run with the files
     * already written left in place.
     */
    method ResolveConflicts(order: seq<string>, merge: (Doc, Doc) -> Doc, now: Timestamp)
      returns (r: Result<seq<string>>)
      modifies this
      ensures (r, files) == ResolveRun(old(files), order, merge)
      ensures (r.Err? || r.value == []) ==> issues == old(issues) && index == old(index)
      ensures r.Ok? && r.value != [] ==>
        LoadedAs(issues, map[], files, now) && IndexFor(issues, index, formatDate)
    {
      var resolved: seq<string> := [];
      var k := 0;
      while k < |order|
        invariant 0 <= k <= |order|
        invariant (Ok(resolved), files) == ResolveRun(old(files), order[..k], merge)
        invariant issues == old(issues) && index == old(index)
      {
        assert order[..k + 1][..k] == order[..k];
        match ResolveStep(files, order[k], merge) {
          case Skipped =>
          case Merged(d) =>
            files := d;
            resolved := resolved + [order[k]];
          case Failed(e) =>
            assert (Err(e), files) == ResolveRun(old(files), order[..k + 1], merge);
            ResolveRunStops(old(files), order, k + 1, merge);
            return Err(e);
        }
        k := k + 1;
      }
      assert order[..k] == order;
      if resolved != [] {
        issues := map[];
        Load(now);
        Regenerate();
      }
      return Ok(resolved);
    }
  }

  /** Once the run has failed, the later entries change nothing. */
  lemma {:induction false} ResolveRunStops(dir: Dir, order: seq<string>, k: nat, merge: (Doc, Doc) -> Doc)
    requires k <= |order| && ResolveRun(dir, order[..k], merge).0.Err?
    ensures ResolveRun(dir, order, merge) == ResolveRun(dir, order[..k], merge)
    decreases |order| - k
  {
    if k < |order| {
      assert order[..k + 1][..k] == order[..k];
      ResolveRunStops(dir, order, k + 1, merge);
    } else {
      assert order[..k] == order;
    }
  }
}
