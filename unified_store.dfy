/**
 * The store front end (crates/trx-core/src/unified_store.rs): a store is
 * either the version-1 JSONL store or the version-2 CRDT store, and every
 * operation goes to the one it holds. Migration copies the issues of a
 * version-1 store into CRDT documents; rollback writes the issues of a
 * version-2 store back to `issues.jsonl`. Both switch the configured
 * storage version.
 */
module Unified {
  import opened Wrappers
  import opened Issues
  import opened StoreSpec
  import opened CrdtFiles
  import opened DocMap
  import opened Text
  import FlatStore
  import CrdtStore

  /** `StorageVersion` of the configuration file. */
  datatype StorageVersion = JsonlV1 | CrdtV2

  /** The configuration, as far as the storage version goes. */
  class Config {
    var storageVersion: StorageVersion

    constructor (storageVersion: StorageVersion)
      ensures this.storageVersion == storageVersion
    {
      this.storageVersion := storageVersion;
    }
  }

  /** `UnifiedStore`: the backend the configuration selected. */
  datatype UnifiedStore = V1(flat: FlatStore.Store) | V2(crdt: CrdtStore.Store)

  /** `version`: the variant held decides the version reported. */
  function Version(u: UnifiedStore): (v: StorageVersion)
    ensures v == JsonlV1 <==> u.V1?
    ensures v == CrdtV2 <==> u.V2?
  {
    match u
    case V1(_) => JsonlV1
    case V2(_) => CrdtV2
  }

  /** The backend object the store holds. */
  function Repr(u: UnifiedStore): set<object>
  {
    match u
    case V1(s) => {s}
    case V2(s) => {s}
  }

  /** The issue map of the backend held. */
  function IssuesOf(u: UnifiedStore): IssueMap
    reads Repr(u)
  {
    match u
    case V1(s) => s.issues
    case V2(s) => s.issues
  }

  function Get(u: UnifiedStore, id: string): (r: Option<Issue>)
    reads Repr(u)
    ensures r.Some? <==> id in IssuesOf(u)
    ensures r.Some? ==> r.value == IssuesOf(u)[id]
  {
    match u
    case V1(s) => s.Get(id)
    case V2(s) => s.Get(id)
  }

  function List(u: UnifiedStore, includeTombstones: bool): (r: set<Issue>)
    reads Repr(u)
    ensures forall i :: i in r <==> i in IssuesOf(u).Values && (includeTombstones || i.status != Tombstone)
  {
    match u
    case V1(s) => s.List(includeTombstones)
    case V2(s) => s.List(includeTombstones)
  }

  function ListOpen(u: UnifiedStore): (r: set<Issue>)
    reads Repr(u)
    ensures forall i :: i in r <==> i in IssuesOf(u).Values && IsOpen(i.status)
  {
    match u
    case V1(s) => s.ListOpen()
    case V2(s) => s.ListOpen()
  }

  method NextChildNum(u: UnifiedStore, parentId: string) returns (next: u32)
    ensures next == StoreSpec.NextChildNum(IssuesOf(u).Keys, parentId)
  {
    match u
    case V1(s) => next := s.NextChildNum(parentId);
    case V2(s) => next := s.NextChildNum(parentId);
  }

  /** `create`: the backend's create, which persists when it succeeds. */
  method Create(u: UnifiedStore, issue: Issue) returns (r: Outcome)
    modifies Repr(u)
    ensures (r, IssuesOf(u)) == CreateEffect(old(IssuesOf(u)), issue)
    ensures u.V1? ==> u.flat.persisted == if r.Pass? then u.flat.issues else old(u.flat.persisted)
    ensures u.V2? && r.Pass? ==> u.crdt.files == old(u.crdt.files)[FileName(issue.id) := Writer()(issue)]
    ensures u.V2? && r.Pass? ==> CrdtStore.IndexFor(u.crdt.issues, u.crdt.index, u.crdt.formatDate)
    ensures u.V2? && r.Fail? ==> u.crdt.files == old(u.crdt.files) && u.crdt.index == old(u.crdt.index)
    ensures u.V2? && CrdtStore.Saved(old(u.crdt.issues), old(u.crdt.files)) ==> CrdtStore.Saved(u.crdt.issues, u.crdt.files)
  {
    match u
    case V1(s) => r := s.Create(issue);
    case V2(s) => r := s.Create(issue);
  }

  /** `update`: the backend's update, which persists when it succeeds. */
  method Update(u: UnifiedStore, issue: Issue) returns (r: Outcome)
    modifies Repr(u)
    ensures (r, IssuesOf(u)) == UpdateEffect(old(IssuesOf(u)), issue)
    ensures u.V1? ==> u.flat.persisted == if r.Pass? then u.flat.issues else old(u.flat.persisted)
    ensures u.V2? && r.Pass? ==> u.crdt.files == old(u.crdt.files)[FileName(issue.id) := Writer()(issue)]
    ensures u.V2? && r.Pass? ==> CrdtStore.IndexFor(u.crdt.issues, u.crdt.index, u.crdt.formatDate)
    ensures u.V2? && r.Fail? ==> u.crdt.files == old(u.crdt.files) && u.crdt.index == old(u.crdt.index)
    ensures u.V2? && CrdtStore.Saved(old(u.crdt.issues), old(u.crdt.files)) ==> CrdtStore.Saved(u.crdt.issues, u.crdt.files)
  {
    match u
    case V1(s) => r := s.Update(issue);
    case V2(s) => r := s.Update(issue);
  }

  /** `delete`: the backend's soft delete, which persists when it succeeds. */
  method Delete(u: UnifiedStore, id: string, deleter: Option<string>, reason: Option<string>, now: Timestamp)
    returns (r: Outcome)
    modifies Repr(u)
    ensures (r, IssuesOf(u)) == DeleteEffect(old(IssuesOf(u)), id, deleter, reason, now)
    ensures u.V1? ==> u.flat.persisted == if r.Pass? then u.flat.issues else old(u.flat.persisted)
    ensures u.V2? && r.Pass? ==>
      u.crdt.files == old(u.crdt.files)[FileName(u.crdt.issues[id].id) := Writer()(u.crdt.issues[id])]
    ensures u.V2? && r.Pass? ==> CrdtStore.IndexFor(u.crdt.issues, u.crdt.index, u.crdt.formatDate)
    ensures u.V2? && r.Fail? ==> u.crdt.files == old(u.crdt.files) && u.crdt.index == old(u.crdt.index)
    ensures u.V2? && CrdtStore.Saved(old(u.crdt.issues), old(u.crdt.files)) ==> CrdtStore.Saved(u.crdt.issues, u.crdt.files)
  {
    match u
    case V1(s) => r := s.Delete(id, deleter, reason, now);
    case V2(s) => r := s.Delete(id, deleter, reason, now);
  }

  /** `resolve_conflicts`: nothing to resolve in version 1. */
  method ResolveConflicts(u: UnifiedStore, order: seq<string>, merge: (Doc, Doc) -> Doc, now: Timestamp)
    returns (r: Result<seq<string>>)
    modifies Repr(u)
    ensures u.V1? ==> r == Ok([]) && unchanged(u.flat)
    ensures u.V2? ==> (r, u.crdt.files) == ResolveRun(old(u.crdt.files), order, merge)
    ensures u.V2? && (r.Err? || r.value == []) ==>
      u.crdt.issues == old(u.crdt.issues) && u.crdt.index == old(u.crdt.index)
    ensures u.V2? && r.Ok? && r.value != [] ==>
      CrdtStore.LoadedAs(u.crdt.issues, map[], u.crdt.files, now)
      && CrdtStore.IndexFor(u.crdt.issues, u.crdt.index, u.crdt.formatDate)
  {
    match u
    case V1(_) => r := Ok([]);
    case V2(s) => r := s.ResolveConflicts(order, merge, now);
  }

  /** `regenerate_issues_md`: version 1 has no `ISSUES.md`. */
  method Regenerate(u: UnifiedStore)
    modifies Repr(u)
    ensures u.V1? ==> unchanged(u.flat)
    ensures u.V2? ==> CrdtStore.IndexFor(u.crdt.issues, u.crdt.index, u.crdt.formatDate)
    ensures IssuesOf(u) == old(IssuesOf(u))
  {
    match u
    case V1(_) =>
    case V2(s) => s.Regenerate();
  }

  /** `MigrationResult`. */
  datatype MigrationResult = MigrationResult(issuesMigrated: nat, dryRun: bool)

  /**
   * `migrate_v1_to_v2`: the issues of the loaded version-1 store, in the
   * map's iteration order `order`, are created one by one in a fresh CRDT
   * store over the existing `crdt` directory `crdtFiles` and `ISSUES.md`
   * text `index`; then the configuration switches to version 2 and
   * `ISSUES.md` is regenerated. A dry run only counts. No create fails,
   * since the ids are distinct and the CRDT store starts empty.
   */
  method MigrateV1ToV2(v1: FlatStore.Store, config: Config, crdtFiles: Dir, index: string,
                       formatDate: Timestamp -> string, order: seq<string>, dryRun: bool)
    returns (r: MigrationResult, v2: CrdtStore.Store?)
    requires Keyed(v1.issues) && Enumerates(order, v1.issues.Keys)
    modifies config
    ensures r == MigrationResult(|v1.issues|, dryRun)
    ensures dryRun ==> v2 == null && config.storageVersion == old(config.storageVersion)
    ensures !dryRun ==> v2 != null && fresh(v2) && config.storageVersion == CrdtV2
    ensures !dryRun ==> v2.issues == v1.issues && v2.formatDate == formatDate
    ensures !dryRun ==> CrdtStore.Saved(v2.issues, v2.files) && crdtFiles.Keys <= v2.files.Keys
    ensures !dryRun ==> CrdtStore.IndexFor(v2.issues, v2.index, formatDate)
  {
    var m := v1.issues;
    var issues := ValuesIn(m, order);
    EnumeratesCard(order, m.Keys);
    if dryRun {
      return MigrationResult(|issues|, true), null;
    }
    v2 := new CrdtStore.Store.WithRoot(crdtFiles, index, formatDate);
    CreateAll(v2, m, order);
    config.storageVersion := CrdtV2;
    v2.Regenerate();
    r := MigrationResult(|issues|, false);
  }

  /** One step of the migration loop: `create(issue)`, whose `?` never fires on a new id. */
  method MigrateOne(store: CrdtStore.Store, issue: Issue)
    requires issue.id !in store.issues
    modifies store
    ensures store.issues == old(store.issues)[issue.id := issue]
    ensures CrdtStore.Saved(old(store.issues), old(store.files)) ==> CrdtStore.Saved(store.issues, store.files)
    ensures old(store.files).Keys <= store.files.Keys
  {
    var created := store.Create(issue);
    assert created == Pass;
  }

  /** The issues of `m` the migration loop has created after `k` steps. */
  ghost function Taken(m: IssueMap, order: seq<string>, k: nat): IssueMap
    requires k <= |order| && forall j | 0 <= j < |order| :: order[j] in m
  {
    if k == 0 then map[] else Taken(m, order, k - 1)[order[k - 1] := m[order[k - 1]]]
  }

  /** After `k` steps exactly the first `k` ids of the order are present, with their issues. */
  lemma {:induction false} TakenHolds(m: IssueMap, order: seq<string>, k: nat)
    requires k <= |order| && forall j | 0 <= j < |order| :: order[j] in m
    ensures forall id :: id in Taken(m, order, k) <==> id in order[..k]
    ensures forall id | id in Taken(m, order, k) :: Taken(m, order, k)[id] == m[id]
  {
    if k > 0 {
      TakenHolds(m, order, k - 1);
      assert order[..k] == order[..k - 1] + [order[k - 1]];
    }
  }

  /** Once every id of the enumeration is taken, the whole map is. */
  lemma TakenAll(m: IssueMap, order: seq<string>)
    requires Enumerates(order, m.Keys)
    ensures Taken(m, order, |order|) == m
  {
    TakenHolds(m, order, |order|);
    assert order[..|order|] == order;
  }

  /** The migration loop: every issue of `m` created, in the order `order`. */
  method CreateAll(store: CrdtStore.Store, m: IssueMap, order: seq<string>)
    requires store.issues == map[]
    requires Keyed(m) && Enumerates(order, m.Keys)
    modifies store
    ensures store.issues == m
    ensures CrdtStore.Saved(store.issues, store.files) && old(store.files).Keys <= store.files.Keys
  {
    var k := 0;
    while k < |order|
      invariant 0 <= k <= |order|
      invariant store.issues == Taken(m, order, k)
      invariant CrdtStore.Saved(store.issues, store.files)
      invariant old(store.files).Keys <= store.files.Keys
    {
      TakenHolds(m, order, k);
      assert order[k] !in order[..k];
      MigrateOne(store, m[order[k]]);
      k := k + 1;
    }
    TakenAll(m, order);
  }

  /**
   * `rollback_v2_to_v1`: every issue of the loaded version-2 store, in the
   * map's iteration order `order`, is written to the new `issues.jsonl` as
   * one encoded line; then the configuration switches to version 1. The
   * `crdt` directory is not touched. A dry run only counts.
   */
  method RollbackV2ToV1(v2: CrdtStore.Store, config: Config, order: seq<string>,
                        encode: Issue -> string, dryRun: bool)
    returns (r: MigrationResult, jsonl: Option<string>)
    requires Enumerates(order, v2.issues.Keys)
    modifies config
    ensures r == MigrationResult(|v2.issues|, dryRun)
    ensures dryRun ==> jsonl == None && config.storageVersion == old(config.storageVersion)
    ensures !dryRun ==> jsonl == Some(FlatStore.SaveText(v2.issues, order, encode))
    ensures !dryRun ==> config.storageVersion == JsonlV1
  {
    var m := v2.issues;
    var issues := ValuesIn(m, order);
    EnumeratesCard(order, m.Keys);
    if dryRun {
      return MigrationResult(|issues|, true), None;
    }
    var text := WriteLines(m, order, encode);
    config.storageVersion := JsonlV1;
    return MigrationResult(|issues|, false), Some(text);
  }

  /** The loop that writes one encoded line per issue, each ended by a newline. */
  method WriteLines(m: IssueMap, order: seq<string>, encode: Issue -> string) returns (text: string)
    requires forall j | 0 <= j < |order| :: order[j] in m
    ensures text == FlatStore.SaveText(m, order, encode)
  {
    text := "";
    var k := 0;
    while k < |order|
      invariant 0 <= k <= |order|
      invariant text + FlatStore.SaveText(m, order[k..], encode) == FlatStore.SaveText(m, order, encode)
    {
      var line := encode(m[order[k]]);
      assert order[k..][1..] == order[k + 1..];
      assert FlatStore.SaveText(m, order[k..], encode) == line + "\n" + FlatStore.SaveText(m, order[k + 1..], encode);
      text := text + line + "\n";
      k := k + 1;
    }
    assert order[k..] == [];
  }

  /**
   * The rollback's own round trip: the `issues.jsonl` it writes from a map
   * loads back to that map, when encoding gives single lines that decode back.
   */
  lemma RollbackThenLoad(m: IssueMap, order: seq<string>, encode: Issue -> string,
                         decode: string -> Option<Issue>)
    requires Keyed(m) && Enumerates(order, m.Keys)
    requires FlatStore.WellEncoded(encode) && FlatStore.RoundTrips(encode, decode)
    ensures FlatStore.LoadLines(map[], Lines(FlatStore.SaveText(m, order, encode)), decode) == (Pass, m)
  {
    FlatStore.SaveThenLoad(m, order, encode, decode);
  }

  /** Every issue of `m` as it reads back from its CRDT document. */
  function RereadMap(m: IssueMap): (r: IssueMap)
    ensures r.Keys == m.Keys
    ensures Keyed(m) ==> Keyed(r)
  {
    map id | id in m :: CrdtFiles.Reread(m[id])
  }

  /**
   * Migration, reopening and rollback together. The migration saves one
   * document per issue of the version-1 map `m` (here into a `crdt`
   * directory that held no other file); `rollback_v2_to_v1` opens the
   * version-2 store afresh, which reads every document back through
   * `doc_to_issue`, whatever the order of `read_dir`; the file it writes
   * then loads as that reopened map. So the issues come back as re-read,
   * with the fields the document does not carry dropped, not as they were.
   */
  lemma MigrateReopenRollback(m: IssueMap, dirOrder: seq<string>, order: seq<string>, now: Timestamp,
                              encode: Issue -> string, decode: string -> Option<Issue>)
    requires Keyed(m) && forall id | id in m :: id != []
    requires Enumerates(dirOrder, SavedFiles(m).Keys) && Enumerates(order, m.Keys)
    requires FlatStore.WellEncoded(encode) && FlatStore.RoundTrips(encode, decode)
    ensures LoadFiles(map[], SavedFiles(m), dirOrder, Reader(now)) == RereadMap(m)
    ensures FlatStore.LoadLines(map[], Lines(FlatStore.SaveText(RereadMap(m), order, encode)), decode)
      == (Pass, RereadMap(m))
  {
    ReopenIsReread(m, dirOrder, now);
    RollbackThenLoad(RereadMap(m), order, encode, decode);
  }

  /** A map holding exactly the re-read issues of `m`, under their ids, is `RereadMap(m)`. */
  lemma RereadEntries(m: IssueMap, loaded: IssueMap)
    requires forall id | id in m :: id in loaded && loaded[id] == CrdtFiles.Reread(m[id])
    requires forall id | id in loaded :: id in m
    ensures loaded == RereadMap(m)
  {
    assert loaded.Keys == RereadMap(m).Keys;
  }

  /** Opening the documents the migration saved gives every issue re-read. */
  lemma ReopenIsReread(m: IssueMap, dirOrder: seq<string>, now: Timestamp)
    requires Keyed(m) && forall id | id in m :: id != []
    requires Enumerates(dirOrder, SavedFiles(m).Keys)
    ensures LoadFiles(map[], SavedFiles(m), dirOrder, Reader(now)) == RereadMap(m)
  {
    ReloadSaved(m, dirOrder, now);
    RereadEntries(m, LoadFiles(map[], SavedFiles(m), dirOrder, Reader(now)));
  }
}
