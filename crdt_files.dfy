/**
 * The `.trx/crdt` directory of the CRDT store (crates/trx-core/src/crdt_store.rs):
 * one Automerge file per issue, how `load` reads the directory back, and how
 * `resolve_conflicts` merges the copies a git merge leaves behind.
 */
module CrdtFiles {
  import opened Wrappers
  import opened Text
  import opened Issues
  import opened StoreSpec
  import opened DocMap

  /** What a file of the directory holds, as `AutoCommit::load` sees it. */
  datatype FileData =
    | Document(doc: Doc)
    | EmptyFile
    | Unloadable

  /** The directory: file name to contents. */
  type Dir = map<string, FileData>

  /** `issue_path`: `<id>.automerge`. */
  function FileName(id: string): string
  {
    id + ".automerge"
  }

  lemma FileNameInjective()
    ensures forall a, b :: FileName(a) == FileName(b) ==> a == b
  {
    forall a, b | FileName(a) == FileName(b) ensures a == b {
      assert a == FileName(a)[..|a|];
      assert b == FileName(b)[..|b|];
    }
  }

  /**
   * `Path::extension`: the text after the last dot, except that a name whose
   * only dot is its first character has none.
   */
  function Extension(name: string): Option<string>
  {
    match LastIndexOf(name, '.')
    case None => None
    case Some(p) => if p == 0 then None else Some(name[p + 1..])
  }

  /** The file of a non-empty id has the extension `automerge`. */
  lemma FileNameExtension(id: string)
    requires id != []
    ensures Extension(FileName(id)) == Some("automerge")
  {
    assert FileName(id) == id + ['.'] + "automerge";
    LastIndexOfSeparator(id, '.', "automerge");
    assert FileName(id)[|id| + 1..] == "automerge";
  }

  /** `load_issue_from_file`: an empty file reads as an empty document. */
  function LoadIssue(f: FileData, now: Timestamp): Result<Issue>
  {
    match f
    case Document(doc) => DocToIssue(doc, now)
    case EmptyFile => DocToIssue(map[], now)
    case Unloadable => Err(Other("Failed to load automerge doc"))
  }

  /** The reader `load` applies to every file, at the instant `now`. */
  function Reader(now: Timestamp): FileData -> Result<Issue>
  {
    f => LoadIssue(f, now)
  }

  /** One file of `load`: an `.automerge` file that reads as an issue is filed under that issue's id. */
  function LoadStep(m: IssueMap, dir: Dir, name: string, read: FileData -> Result<Issue>): IssueMap
    requires name in dir
  {
    if Extension(name) == Some("automerge") && read(dir[name]).Ok? then
      var issue := read(dir[name]).value;
      m[issue.id := issue]
    else m
  }

  /** `load` over the directory entries in the order `read_dir` yields them. */
  function LoadFiles(m: IssueMap, dir: Dir, order: seq<string>, read: FileData -> Result<Issue>): IssueMap
    requires forall k | 0 <= k < |order| :: order[k] in dir
  {
    if order == [] then m
    else LoadStep(LoadFiles(m, dir, order[..|order| - 1], read), dir, order[|order| - 1], read)
  }

  lemma LoadKeyed(m: IssueMap, dir: Dir, order: seq<string>, read: FileData -> Result<Issue>)
    requires Keyed(m) && forall k | 0 <= k < |order| :: order[k] in dir
    ensures Keyed(LoadFiles(m, dir, order, read))
  {
  }

  /** A file that `load` takes an issue from. */
  predicate Loads(dir: Dir, name: string, read: FileData -> Result<Issue>)
  {
    name in dir && Extension(name) == Some("automerge") && read(dir[name]).Ok?
  }

  /** Every issue file holds the issue its name says. */
  predicate Named(dir: Dir, read: FileData -> Result<Issue>)
  {
    forall n | n in dir && Loads(dir, n, read) :: FileName(read(dir[n]).value.id) == n
  }

  /** The ids of the issues the files in `names` hold. */
  function LoadedIds(dir: Dir, names: set<string>, read: FileData -> Result<Issue>): set<string>
  {
    set n | n in names && Loads(dir, n, read) :: read(dir[n]).value.id
  }

  /** Under `Named`, each loaded id comes from the file its name gives. */
  lemma LoadedIdsFile(dir: Dir, names: set<string>, read: FileData -> Result<Issue>)
    requires Named(dir, read)
    ensures forall id | id in LoadedIds(dir, names, read) ::
      FileName(id) in names && Loads(dir, FileName(id), read) && read(dir[FileName(id)]).value.id == id
  {
  }

  /** The issues of the files in `names`, each under its id. */
  function LoadedFrom(dir: Dir, names: set<string>, read: FileData -> Result<Issue>): IssueMap
    requires Named(dir, read)
  {
    LoadedIdsFile(dir, names, read);
    map id | id in LoadedIds(dir, names, read) :: read(dir[FileName(id)]).value
  }

  /** One more file name adds the id of its issue, if it holds one. */
  lemma LoadedIdsAdd(dir: Dir, names: set<string>, n: string, read: FileData -> Result<Issue>)
    ensures LoadedIds(dir, names + {n}, read)
      == LoadedIds(dir, names, read) + (if Loads(dir, n, read) then {read(dir[n]).value.id} else {})
  {
  }

  lemma LoadedFromAdd(dir: Dir, names: set<string>, n: string, read: FileData -> Result<Issue>)
    requires Named(dir, read) && n in dir && n !in names
    ensures LoadedFrom(dir, names + {n}, read) == LoadStep(LoadedFrom(dir, names, read), dir, n, read)
  {
    LoadedIdsAdd(dir, names, n, read);
    LoadedIdsFile(dir, names, read);
    LoadedIdsFile(dir, names + {n}, read);
    var before, after := LoadedFrom(dir, names, read), LoadedFrom(dir, names + {n}, read);
    var stepped := LoadStep(before, dir, n, read);
    if Loads(dir, n, read) {
      assert FileName(read(dir[n]).value.id) == n;
    }
    assert forall id :: id in after <==> id in stepped;
    assert forall id | id in after :: after[id] == stepped[id];
  }

  /** The names an order lists. */
  function Names(order: seq<string>): set<string>
  {
    set k | 0 <= k < |order| :: order[k]
  }

  lemma NamesSnoc(order: seq<string>)
    requires order != []
    ensures Names(order) == Names(order[..|order| - 1]) + {order[|order| - 1]}
  {
    var front := order[..|order| - 1];
    forall x | x in Names(order) ensures x in Names(front) + {order[|order| - 1]} {
      var k :| 0 <= k < |order| && order[k] == x;
      if k < |order| - 1 { assert front[k] == x; }
    }
  }

  /**
   * When every file holds the issue its name says, the directory order does not
   * matter: `load` into an empty map gives the issue of each loadable file.
   */
  lemma {:induction false} LoadAnyOrder(dir: Dir, order: seq<string>, read: FileData -> Result<Issue>)
    requires Named(dir, read)
    requires forall k | 0 <= k < |order| :: order[k] in dir
    requires forall i, j | 0 <= i < j < |order| :: order[i] != order[j]
    ensures LoadFiles(map[], dir, order, read) == LoadedFrom(dir, Names(order), read)
    decreases |order|
  {
    if order == [] {
      assert LoadedIds(dir, Names(order), read) == {};
    } else {
      var n := |order| - 1;
      var front := order[..n];
      LoadAnyOrder(dir, front, read);
      NamesSnoc(order);
      assert order[n] !in Names(front);
      LoadedFromAdd(dir, Names(front), order[n], read);
    }
  }

  // ---------------------------------------------------------------------------
  // Saved files

  /** The files written for every issue of the map, one per issue, by `write`. */
  function Written(m: IssueMap, write: Issue -> FileData): Dir
  {
    FileNameInjective();
    map id | id in m :: FileName(id) := write(m[id])
  }

  /** `save_issue`'s file contents: the saved document. */
  function Writer(): Issue -> FileData
  {
    i => Document(IssueToDoc(i))
  }

  /** The files `save_issue` writes for every issue of the map. */
  function SavedFiles(m: IssueMap): Dir
  {
    Written(m, Writer())
  }

  /** What reading a saved issue back gives (see `DocMap.RoundTrip`). */
  function Reread(i: Issue): Issue
  {
    i.(dependencies := RereadAll(i.dependencies), createdBy := None, deletedAt := None,
       deletedBy := None, deleteReason := None, originalType := None)
  }

  /** A saved file reads back as the issue re-read. */
  lemma WriterReader(now: Timestamp)
    ensures forall i :: Reader(now)(Writer()(i)) == Ok(Reread(i))
  {
    forall i ensures Reader(now)(Writer()(i)) == Ok(Reread(i)) {
      RoundTrip(i, now);
    }
  }

  /** Each issue's file holds what the writer made of it, and there are no other files. */
  lemma WrittenAt(m: IssueMap, write: Issue -> FileData)
    ensures forall id | id in m :: FileName(id) in Written(m, write) && Written(m, write)[FileName(id)] == write(m[id])
    ensures forall n | n in Written(m, write) :: exists id | id in m :: n == FileName(id)
  {
    FileNameInjective();
  }

  /**
   * Files written one per issue by a writer whose output reads back with the
   * same id, loaded in any order, give back the map with each issue read back.
   */
  lemma {:induction false} ReloadWritten(m: IssueMap, order: seq<string>, write: Issue -> FileData, read: FileData -> Result<Issue>)
    requires Keyed(m) && forall id | id in m :: id != []
    requires forall i :: read(write(i)).Ok? && read(write(i)).value.id == i.id
    requires Enumerates(order, Written(m, write).Keys)
    ensures var loaded := LoadFiles(map[], Written(m, write), order, read);
      (forall id | id in m :: id in loaded && loaded[id] == read(write(m[id])).value)
      && (forall id | id in loaded :: id in m)
  {
    var dir := Written(m, write);
    WrittenAt(m, write);
    forall id | id in m ensures Loads(dir, FileName(id), read) {
      FileNameExtension(id);
    }
    assert Named(dir, read) by {
      forall n | n in dir && Loads(dir, n, read) ensures FileName(read(dir[n]).value.id) == n {
        var id :| id in m && n == FileName(id);
      }
    }
    LoadAnyOrder(dir, order, read);
    var names := Names(order);
    assert names == dir.Keys;
    var loaded := LoadedFrom(dir, names, read);
    LoadedIdsFile(dir, names, read);
    forall id | id in m ensures id in loaded && loaded[id] == read(write(m[id])).value {
      assert FileName(id) in names;
      assert read(dir[FileName(id)]).value.id == id;
      assert id in LoadedIds(dir, names, read);
    }
    forall id | id in loaded ensures id in m {
      assert FileName(id) in dir;
      FileNameInjective();
    }
  }

  /**
   * Loading the directory that saving a map gives, in any order, gives back the
   * map as the documents hold it: each issue re-read.
   */
  lemma {:induction false} ReloadSaved(m: IssueMap, order: seq<string>, now: Timestamp)
    requires Keyed(m) && forall id | id in m :: id != []
    requires Enumerates(order, SavedFiles(m).Keys)
    ensures var loaded := LoadFiles(map[], SavedFiles(m), order, Reader(now));
      (forall id | id in m :: id in loaded && loaded[id] == Reread(m[id]))
      && (forall id | id in loaded :: id in m)
  {
    WriterReader(now);
    ReloadWritten(m, order, Writer(), Reader(now));
  }

  // ---------------------------------------------------------------------------
  // Conflicts

  function BasePath(name: string): string { name + ".BASE" }
  function LocalPath(name: string): string { name + ".LOCAL" }
  function RemotePath(name: string): string { name + ".REMOTE" }

  /** A merged-into file: `.automerge` without conflict marker, with both sides present. */
  predicate IsConflict(dir: Dir, name: string)
  {
    EndsWith(name, ".automerge") && !Contains(name, ".BASE") && !Contains(name, ".LOCAL")
    && !Contains(name, ".REMOTE") && LocalPath(name) in dir && RemotePath(name) in dir
  }

  /** One side of a conflict: an empty file is a new, empty document. */
  function LoadSide(f: FileData, side: string): Result<Doc>
  {
    match f
    case EmptyFile => Ok(map[])
    case Document(doc) => Ok(doc)
    case Unloadable => Err(Other("Failed to load " + side))
  }

  /**
   * `merge_conflict(base, ours, theirs)`: the Automerge merge of theirs into
   * ours, `merge`, is an input here. The base is not read.
   */
  function MergeConflict(base: FileData, ours: FileData, theirs: FileData,
                         merge: (Doc, Doc) -> Doc): (r: Result<FileData>)
    ensures r.Ok? <==> !ours.Unloadable? && !theirs.Unloadable?
    ensures r.Ok? ==> r.value.Document?
  {
    match LoadSide(ours, "ours")
    case Err(e) => Err(e)
    case Ok(o) =>
      match LoadSide(theirs, "theirs")
      case Err(e) => Err(e)
      case Ok(t) => Ok(Document(merge(o, t)))
  }

  lemma MergeIgnoresBase(b1: FileData, b2: FileData, ours: FileData, theirs: FileData,
                         merge: (Doc, Doc) -> Doc)
    ensures MergeConflict(b1, ours, theirs, merge) == MergeConflict(b2, ours, theirs, merge)
  {
  }

  /** What one directory entry does in `resolve_conflicts`. */
  datatype Step = Skipped | Merged(dir: Dir) | Failed(error: Error)

  function ResolveStep(dir: Dir, name: string, merge: (Doc, Doc) -> Doc): (s: Step)
    ensures s.Merged? ==> IsConflict(dir, name)
    ensures s.Merged? ==> s.dir.Keys == dir.Keys - {BasePath(name), LocalPath(name), RemotePath(name)} + {name}
    ensures s.Merged? ==> s.dir[name].Document?
    ensures s.Merged? ==>
      forall n | n in dir && n !in {name, BasePath(name), LocalPath(name), RemotePath(name)} :: s.dir[n] == dir[n]
    ensures s == Skipped <==> !IsConflict(dir, name)
  {
    if !IsConflict(dir, name) then Skipped
    else
      var base := if BasePath(name) in dir then dir[BasePath(name)] else EmptyFile;
      match MergeConflict(base, dir[LocalPath(name)], dir[RemotePath(name)], merge)
      case Err(e) => Failed(e)
      case Ok(merged) =>
        Merged(dir[name := merged] - {BasePath(name), LocalPath(name), RemotePath(name)})
  }

  /**
   * The loop of `resolve_conflicts` over the entries in `order`: the names
   * resolved so far and the directory; the first failure ends the loop with
   * what was already written left in place.
   */
  function ResolveRun(dir: Dir, order: seq<string>, merge: (Doc, Doc) -> Doc): (Result<seq<string>>, Dir)
  {
    if order == [] then (Ok([]), dir)
    else
      var (r, d) := ResolveRun(dir, order[..|order| - 1], merge);
      if r.Err? then (r, d)
      else match ResolveStep(d, order[|order| - 1], merge)
        case Skipped => (r, d)
        case Merged(d') => (Ok(r.value + [order[|order| - 1]]), d')
        case Failed(e) => (Err(e), d)
  }

  /** A name with a conflict marker in it. */
  predicate Marked(n: string)
  {
    Contains(n, ".BASE") || Contains(n, ".LOCAL") || Contains(n, ".REMOTE")
  }

  lemma MarkedSides(name: string)
    ensures Marked(BasePath(name)) && Marked(LocalPath(name)) && Marked(RemotePath(name))
  {
    assert OccursAt(BasePath(name), ".BASE", |name|);
    assert OccursAt(LocalPath(name), ".LOCAL", |name|);
    assert OccursAt(RemotePath(name), ".REMOTE", |name|);
  }

  /**
   * After a run that went through, every resolved name holds a document and
   * none of its three conflict files is left; a resolution never writes a
   * marked name, so a later one cannot bring them back.
   */
  lemma {:induction false} ResolvedAreClean(dir: Dir, order: seq<string>, merge: (Doc, Doc) -> Doc)
    ensures var (r, d) := ResolveRun(dir, order, merge);
      r.Ok? ==> forall k | 0 <= k < |r.value| ::
        var n := r.value[k];
        !Marked(n) && n in d && d[n].Document?
        && BasePath(n) !in d && LocalPath(n) !in d && RemotePath(n) !in d
    ensures var (r, d) := ResolveRun(dir, order, merge);
      forall n | n in d && Marked(n) :: n in dir && d[n] == dir[n]
    decreases |order|
  {
    if order != [] {
      var front := order[..|order| - 1];
      var name := order[|order| - 1];
      ResolvedAreClean(dir, front, merge);
      var (r, d) := ResolveRun(dir, front, merge);
      if r.Ok? {
        var s := ResolveStep(d, name, merge);
        if s.Merged? {
          MarkedSides(name);
          var names := r.value + [name];
          forall k | 0 <= k < |names|
            ensures var n := names[k];
              !Marked(n) && n in s.dir && s.dir[n].Document?
              && BasePath(n) !in s.dir && LocalPath(n) !in s.dir && RemotePath(n) !in s.dir
          {
            var n := names[k];
            if k < |r.value| {
              assert n == r.value[k];
              MarkedSides(n);
              assert n != BasePath(name) && n != LocalPath(name) && n != RemotePath(name);
              assert BasePath(n) != name && LocalPath(n) != name && RemotePath(n) != name;
            }
          }
        }
      }
    }
  }

  /** Without a single conflict the directory is left alone and nothing is resolved. */
  lemma {:induction false} NoConflictNoChange(dir: Dir, order: seq<string>, merge: (Doc, Doc) -> Doc)
    requires forall n | n in dir :: !IsConflict(dir, n)
    requires forall k | 0 <= k < |order| :: order[k] in dir
    ensures ResolveRun(dir, order, merge) == (Ok([]), dir)
    decreases |order|
  {
    if order != [] {
      NoConflictNoChange(dir, order[..|order| - 1], merge);
    }
  }
}
