# trx: issue store, dependency graph and list cursor, in Dafny

trx is an issue tracker that keeps its issues inside a git repository, under
`.trx/`. This project models its core:

- **Issues** (`Issues`, `Ids`): statuses, types and dependency kinds with their
  text forms, the `Issue` record and its updates (close, tombstone, add and
  remove a dependency), the blocking predicates, and the id helpers (child ids
  `parent.n`, parent extraction, `prefix-hash` splitting, the shape of a
  generated id).
- **The two storage backends.** Version 1 (`FlatStore`) keeps the issue map in
  `issues.jsonl`, one JSON object per line. Version 2 (`CrdtStore`) keeps one
  Automerge document per issue in `.trx/crdt`, plus a generated `ISSUES.md`.
  - Both apply the same map-level effects (`StoreSpec`): create refuses an
    existing id, update refuses a missing one, delete tombstones in place.
  - `next_child_num` picks one more than the largest direct-child suffix.
  - The version-2 pieces are modelled as well: the issue/document field
    mapping (`DocMap`), the directory load and conflict resolution
    (`CrdtFiles`), and the ordering and text of `ISSUES.md` (`IssueIndex`).
- **The unified store** (`Unified`): dispatch to the backend that the
  configuration selects, migration from version 1 to version 2, and rollback.
- **The dependency graph** (`Graph`): the graph built from a snapshot of
  issues, ready work, one-hop neighbours, cycle detection, cycle components and
  topological order.
- **The terminal UI** (`Tui`): the list cursor and its scroll window
  (`SelectionState`), the list filter (`FilterState::matches`) and the priority
  field of the issue form.

Models of operations that update state in place are classes with `modifies`
clauses: the stores, the cursor and the form. Pure queries are functions. The
loops of the source are methods proved against a specification function, with
two exceptions: the write loop of `Store::save` is a single assignment of the
map to the persisted state (`FlatStore.Store.Save`), and the label and
dependency loops of `issue_to_doc` are sequence comprehensions
(`DocMap.LabelValues`, `DocMap.DepValues`).

File I/O is replaced by explicit state:
- the JSONL file is the map last saved (`persisted`) or a text;
- the CRDT directory is a map from file names to contents;
- `ISSUES.md` is a string.

What the source leaves to the platform becomes a parameter:
- the clock (an instant `now`);
- JSON encoding and decoding;
- the Automerge merge;
- the date format;
- the iteration order of a `HashMap` or of a directory listing.

## Model

| member | source | states |
|---|---|---|
| Issues.IsOpen | crates/trx-core/src/issue.rs:23-25 | Open, InProgress and Blocked are open, and no status is both open and closed (`Issues.OpenClosedPartition`) |
| Issues.IsClosed | crates/trx-core/src/issue.rs:27-29 | Closed and Tombstone are closed, and every status is open or closed (`Issues.OpenClosedPartition`) |
| Issues.OpenClosedPartition | crates/trx-core/src/issue.rs:23-29 | every status is exactly one of open and closed; Open, InProgress and Blocked are open, Closed and Tombstone closed |
| Issues.ParseStatus | crates/trx-core/src/issue.rs:35-44 | a rejected text yields `InvalidStatus` carrying the text as given |
| Issues.ParseType | crates/trx-core/src/issue.rs:74-83 | a rejected text yields `InvalidType` carrying the text as given |
| Issues.LowerOfLowerCase | crates/trx-core/src/issue.rs:36 | lower-casing leaves a text without upper-case letters unchanged |
| Issues.LowerIdempotent | crates/trx-core/src/issue.rs:36 | lower-casing twice is lower-casing once |
| Issues.StatusText | crates/trx-core/src/issue.rs:47-57 | the text of each status parses back to it (`Issues.StatusRoundTrip`) |
| Issues.StatusRoundTrip | crates/trx-core/src/issue.rs:35-57 | parsing the displayed text of any status gives that status back |
| Issues.TypeText | crates/trx-core/src/issue.rs:86-96 | the text of each issue type parses back to it (`Issues.TypeRoundTrip`) |
| Issues.TypeRoundTrip | crates/trx-core/src/issue.rs:74-96 | parsing the displayed text of any issue type gives that type back |
| Issues.ParseCaseInsensitive | crates/trx-core/src/issue.rs:35-44 | a text parses, to the same status or type, exactly when its lower-cased form does |
| Issues.SameLowerSameStatus | crates/trx-core/src/issue.rs:35-44 | two texts with the same lower-case form both fail or parse to the same status |
| Issues.SameLowerSameType | crates/trx-core/src/issue.rs:74-83 | two texts with the same lower-case form both fail or parse to the same issue type |
| Issues.InProgressSpellings | crates/trx-core/src/issue.rs:35-44 | `in_progress`, `in-progress` and `inprogress` (in any case) are the only spellings of InProgress; every text outside the accepted set is an error |
| Issues.New | crates/trx-core/src/issue.rs:217-240 | a new issue is Open, priority 2, type Task, with no labels or dependencies, created and updated at the same instant |
| Issues.NewIssueIsBare | crates/trx-core/src/issue.rs:217-240 | a new issue has every optional field unset, does not block and is not blocked by any list |
| Issues.Close | crates/trx-core/src/issue.rs:272-277 | status Closed, `closed_at` and `updated_at` now, the given reason; every other field unchanged |
| Issues.Delete | crates/trx-core/src/issue.rs:280-287 | status Tombstone, the previous type's text kept, deleted and updated now, deleter and reason recorded; every other field unchanged |
| Issues.DeleteTwice | crates/trx-core/src/issue.rs:280-287 | a second delete overwrites the first one's deleter, reason and times (the recorded type is still the original) |
| Issues.AddDependency | crates/trx-core/src/issue.rs:290-300 | exactly one dependency appended, owned by the issue, earlier ones unchanged; only the dependencies and `updated_at` change |
| Issues.RemoveDependency | crates/trx-core/src/issue.rs:303-307 | a dependency remains exactly when it was there and targets another issue, whatever its type; the remaining list is `Retain`, so order is kept; `updated_at` is now and nothing else changes |
| Issues.Retain | crates/trx-core/src/issue.rs:304-305 | the kept list is no longer than the original |
| Issues.RetainMembers | crates/trx-core/src/issue.rs:304-305 | a dependency is kept exactly when it is in the list and targets another issue, whatever its type |
| Issues.RetainConcat | crates/trx-core/src/issue.rs:304-305 | the filter works piece by piece, so the kept dependencies keep their order |
| Issues.RetainNoTarget | crates/trx-core/src/issue.rs:304-305 | a list with no dependency on the target is kept as it is |
| Issues.RemoveUndoesAdd | crates/trx-core/src/issue.rs:290-307 | adding a dependency of any type on a target and then removing the target's dependencies leaves the same dependencies as removing them at once |
| Issues.DependencyTypeText | crates/trx-core/src/issue.rs:111-119 | the text of each dependency type; in a CRDT document `blocks` and `related` read back as themselves and `parent-child` as `blocks` (`DocMap.DepTypeRoundTrip`) |
| Issues.BlockingIds | crates/trx-core/src/issue.rs:310-316 | the targets of the `Blocks` dependencies, in order, and nothing else (`Issues.BlocksTargetsMembers`) |
| Issues.BlocksTargetsMembers | crates/trx-core/src/issue.rs:310-316 | `blocking_ids` lists exactly the targets of `Blocks` dependencies and is no longer than the dependency list |
| Issues.IsBlocking | crates/trx-core/src/issue.rs:243-249 | an issue is blocking exactly when it has a `Blocks` dependency, i.e. when `BlockingIds` is non-empty (`Issues.IsBlockingIffBlockingIds`) |
| Issues.IsBlockingIffBlockingIds | crates/trx-core/src/issue.rs:243-249 | an issue is blocking exactly when its list of blocking ids is non-empty |
| Issues.IsBlockedBy | crates/trx-core/src/issue.rs:252-259 | blocked exactly when some `Blocks` target is an open issue of the given list (`Issues.BlockedByViaBlockingIds`); never by an empty list (`Tui.NeverBlockedByNothing`) |
| Issues.BlockedByViaBlockingIds | crates/trx-core/src/issue.rs:252-259 | blocked by a list exactly when some blocking id names an open issue of that list |
| Ids.GenerateId | crates/trx-core/src/id.rs:13-31 | the prefix, a `-`, then four lower-case Crockford characters from the leading digest bits (`Ids.GeneratedIdShape`, `Ids.GeneratedIdExample`) |
| Ids.GeneratedIdShape | crates/trx-core/src/id.rs:13-31 | a generated id is the prefix, a dash and four characters of the lower-cased Crockford alphabet |
| Ids.GeneratedIdExample | crates/trx-core/src/id.rs:69-73 | with prefix `trx` the id starts with `trx-` and is 8 characters long |
| Ids.ChildId | crates/trx-core/src/id.rs:36-38 | the parent, a `.`, then the decimal number; its parent is the given parent (`Ids.ChildIdShape`, `Ids.ParentOfChild`) |
| Ids.ChildIdShape | crates/trx-core/src/id.rs:36-38 | a child id is the parent, a dot and the number in decimal, which reads back as the number |
| Ids.ParentOfChild | crates/trx-core/src/id.rs:36-62 | the parent of `generate_child_id(p, n)` is `p` |
| Ids.IsChildId | crates/trx-core/src/id.rs:51-53 | an id is a child id exactly when it has a parent (`Ids.ParentIffChild`) |
| Ids.ParentId | crates/trx-core/src/id.rs:56-62 | everything before the last `.`, or nothing when there is none; it inverts `ChildId` (`Ids.ParentIffChild`, `Ids.ParentOfChild`) |
| Ids.ParentIffChild | crates/trx-core/src/id.rs:51-62 | there is no parent exactly when the id has no dot; the parent is the text before the last dot |
| Ids.ParseId | crates/trx-core/src/id.rs:41-48 | the split at the first `-` into a prefix without `-` and the rest, or nothing when there is no `-` (`Ids.ParseIdSplit`) |
| Ids.ParseIdSplit | crates/trx-core/src/id.rs:41-48 | `parse_id` fails exactly when there is no dash; otherwise it splits at the first dash |
| Ids.ParseIdExample | crates/trx-core/src/id.rs:41-48 | the hash part may itself contain a dash |
| Text.Decimal | crates/trx-core/src/id.rs:37 | the decimal text of a number is made of digits and has no leading zero |
| Text.DecimalValue | crates/trx-core/src/id.rs:37 | the decimal digits of a number denote that number |
| Text.ParseU32 | crates/trx-core/src/store.rs:187 | `parse::<u32>`: an optional `+` and decimal digits below 2^32; it inverts `Decimal` (`Text.ParseU32OfDecimal`) |
| Text.ParseU32OfDecimal | crates/trx-core/src/store.rs:187 | a `u32` written in decimal parses back to itself |
| Text.Lower | crates/trx-core/src/issue.rs:36 | lower-casing maps each character and keeps the length |
| Text.StripPrefix | crates/trx-core/src/store.rs:204-205 | `strip_prefix` succeeds exactly when the text starts with the prefix and gives the rest |
| Text.IndexOf | crates/trx-core/src/id.rs:42 | the first position of a character, absent exactly when the character does not occur |
| Text.LastIndexOf | crates/trx-core/src/id.rs:57 | the last position of a character, absent exactly when the character does not occur |
| Text.Trim | crates/trx-core/src/store.rs:97 | `str::trim`: empty exactly when every character is whitespace (`Text.TrimEmpty`) |
| Text.TrimEmpty | crates/trx-core/src/store.rs:97 | a line trims to nothing exactly when it is all whitespace |
| Text.TrimMatches | crates/trx-core/src/store.rs:207 | the trimmed value neither starts nor ends with the trimmed character |
| Text.TrimMatchesQuoted | crates/trx-core/src/store.rs:207 | one pair of enclosing quotes comes off a value |
| Text.TrimStartOne | crates/trx-core/src/store.rs:207 | `trim_matches` takes one leading quote off a value whose next character is not a quote |
| Text.TrimEndOne | crates/trx-core/src/store.rs:207 | `trim_matches` takes one trailing quote off a value that does not end in a quote |
| Text.Lines | crates/trx-core/src/store.rs:95 | no line holds a newline |
| Text.Unlines | crates/trx-core/src/store.rs:95 | the lines put back with a newline after each; a non-empty result ends in a newline |
| Text.LinesRejoin | crates/trx-core/src/store.rs:95 | for a text without carriage returns, putting the lines back gives the text, with a final newline added when it had none |
| StoreSpec.Lookup | crates/trx-core/src/store.rs:123-125 | `get` finds an issue exactly for a present id, and it is the one stored under it |
| StoreSpec.CreateEffect | crates/trx-core/src/store.rs:133-139 | create fails with AlreadyExists, leaving the map, exactly when the id is present; otherwise the issue is inserted under its id |
| StoreSpec.UpdateEffect | crates/trx-core/src/store.rs:142-148 | update fails with NotFound, leaving the map, exactly when the id is absent; otherwise that one entry is replaced and the key set is unchanged |
| StoreSpec.DeleteEffect | crates/trx-core/src/store.rs:151-158 | delete fails with NotFound exactly when the id is absent; otherwise only that entry changes, into a tombstone; no key is removed |
| StoreSpec.ListView | crates/trx-core/src/store.rs:161-166 | `list` holds exactly the stored issues, without tombstones unless asked |
| StoreSpec.OpenView | crates/trx-core/src/store.rs:169-174 | `list_open` holds exactly the stored open issues |
| StoreSpec.ViewsNested | crates/trx-core/src/store.rs:161-174 | open issues are a part of the default list, which is a part of the full list; the difference is the tombstones |
| StoreSpec.ListCount | crates/trx-core/src/store.rs:161-166 | with entries filed under their ids, `list(true)` has one issue per key |
| StoreSpec.CreateLists | crates/trx-core/src/store.rs:133-139 | a successful create adds exactly the new issue to the full list |
| StoreSpec.DeleteHides | crates/trx-core/src/store.rs:151-166 | a successful delete removes exactly that issue from the default list |
| StoreSpec.IterationOrder | crates/trx-core/src/store.rs:113 | a map's iteration visits each key exactly once |
| StoreSpec.EnumeratesCard | crates/trx-core/src/store.rs:113 | an iteration order is as long as the key set |
| StoreSpec.ValuesIn | crates/trx-core/src/unified_store.rs:159 | the values in iteration order are the issues under the keys in that order |
| StoreSpec.ValuesInMembers | crates/trx-core/src/unified_store.rs:159 | listed in any iteration order, the values are exactly the stored issues |
| StoreSpec.ChildNumber | crates/trx-core/src/store.rs:182-190 | a key carries a child number only when it is `parent.` plus a dot-free suffix |
| StoreSpec.ChildNumbers | crates/trx-core/src/store.rs:179-191 | every direct child's number is among the numbers collected |
| StoreSpec.MaxOf | crates/trx-core/src/store.rs:192-193 | the maximum is an element bounding all the others, 0 for none |
| StoreSpec.MaxNumber | crates/trx-core/src/store.rs:179-193 | the scan over the keys in any order finds the maximum of the collected numbers |
| StoreSpec.MaxNumberStep | crates/trx-core/src/store.rs:179-193 | one more scanned key raises the maximum to its number exactly when that number is larger |
| StoreSpec.ComputeNextChildNum | crates/trx-core/src/store.rs:177-195 | the result is one more than the largest direct-child number (wrapping at the `u32` ceiling) |
| StoreSpec.NumbersAdd | crates/trx-core/src/store.rs:181-191 | scanning one more key adds its number, if it has one |
| StoreSpec.MaxOfAdd | crates/trx-core/src/store.rs:192-193 | one more number raises the maximum to it or leaves it |
| StoreSpec.MaxOfUnique | crates/trx-core/src/store.rs:192-193 | the maximum is the one element bounding all the others |
| StoreSpec.NextChildNumFresh | crates/trx-core/src/store.rs:177-195 | below the ceiling the next number exceeds every direct child's, so its child id is not taken |
| StoreSpec.ChildNumberOfChildId | crates/trx-core/src/store.rs:182-190 | a generated child id counts as a direct child carrying its number |
| StoreSpec.NextChildNumFirst | crates/trx-core/src/store.rs:177-195 | with no direct child the next number is 1 |
| StoreSpec.ChildNumberOfSuffix | crates/trx-core/src/store.rs:182-190 | `parent.` plus a suffix counts exactly when the suffix has no dot and parses as a `u32` |
| StoreSpec.OnlyOwnParent | crates/trx-core/src/store.rs:182-190 | a child id counts only under its own parent, so grandchildren are ignored |
| StoreSpec.NextChildNumExample | crates/trx-core/src/store.rs:177-195 | children `a` and `b` give `b + 1`; a grandchild, a non-numeric suffix and another parent's children are ignored |
| StoreSpec.ChildNumbersExample | crates/trx-core/src/store.rs:179-191 | in the example only the two direct children's numbers are collected |
| FlatStore.LoadLines | crates/trx-core/src/store.rs:95-102 | loading fails only with a JSON error and keeps entries filed under their ids |
| FlatStore.LoadPasses | crates/trx-core/src/store.rs:95-102 | loading fails exactly when some non-blank line is not a valid issue |
| FlatStore.LoadSkipsBlank | crates/trx-core/src/store.rs:97-99 | a blank line anywhere changes nothing |
| FlatStore.LoadKeeps | crates/trx-core/src/store.rs:100-101 | lines for other ids leave an entry as it was |
| FlatStore.LaterLineWins | crates/trx-core/src/store.rs:100-101 | when two lines carry the same id the later one wins |
| FlatStore.SavedLines | crates/trx-core/src/store.rs:113-116 | `save` writes one line per key of the iteration order |
| FlatStore.LinesOfSaveText | crates/trx-core/src/store.rs:113-116 | the saved text splits back into exactly the written lines |
| FlatStore.LoadSavedLines | crates/trx-core/src/store.rs:95-116 | loading the saved lines gives back the saved entries |
| FlatStore.SaveThenLoad | crates/trx-core/src/store.rs:95-116 | loading the text `save` wrote gives back the saved map, whatever the iteration order |
| FlatStore.PrefixValue | crates/trx-core/src/store.rs:204-208 | only a line starting with `prefix` gives a value |
| FlatStore.FirstSomeIsFirst | crates/trx-core/src/store.rs:203-212 | the scan takes the first line that gives a value, and finds none only when no line does |
| FlatStore.PrefixValues | crates/trx-core/src/store.rs:203-210 | one value per line |
| FlatStore.ConfigOfTwoLines | crates/trx-core/src/store.rs:203-212 | behind a line that sets nothing, the second line decides |
| FlatStore.PrefixLineShape | crates/trx-core/src/store.rs:47 | the `prefix` line `init` writes is one line ending in a quote |
| FlatStore.PrefixLineValue | crates/trx-core/src/store.rs:47 | the `prefix` line `init` writes reads back as the prefix (for a prefix without quotes at its ends) |
| FlatStore.HeaderIsComment | crates/trx-core/src/store.rs:46 | the header line `init` writes sets nothing |
| FlatStore.PrefixOfInitConfig | crates/trx-core/src/store.rs:45-51 | the configuration `init` writes gives back its prefix |
| FlatStore.PrefixDefault | crates/trx-core/src/store.rs:212 | with no line that sets it the prefix is `trx` |
| FlatStore.Store.constructor | crates/trx-core/src/store.rs:23-28 | the store starts with an empty map |
| FlatStore.Store.Load | crates/trx-core/src/store.rs:86-105 | no file leaves the map alone; otherwise the lines are loaded in order |
| FlatStore.Store.Save | crates/trx-core/src/store.rs:108-120 | the file now holds the whole map |
| FlatStore.Store.Get | crates/trx-core/src/store.rs:123-125 | finds an issue exactly for a present id, the one stored under it |
| FlatStore.Store.Create | crates/trx-core/src/store.rs:133-139 | the map changes as `CreateEffect` says and is saved when the create succeeds |
| FlatStore.Store.Update | crates/trx-core/src/store.rs:142-148 | the map changes as `UpdateEffect` says and is saved when the update succeeds |
| FlatStore.Store.Delete | crates/trx-core/src/store.rs:151-158 | the map changes as `DeleteEffect` says and is saved when the delete succeeds |
| FlatStore.Store.List | crates/trx-core/src/store.rs:161-166 | exactly the stored issues, without tombstones unless asked |
| FlatStore.Store.ListOpen | crates/trx-core/src/store.rs:169-174 | exactly the stored open issues |
| FlatStore.Store.NextChildNum | crates/trx-core/src/store.rs:177-195 | one more than the largest direct-child number among the keys |
| FlatStore.Store.Prefix | crates/trx-core/src/store.rs:198-213 | the line scan returns the configuration's prefix |
| CrdtFiles.FileNameInjective | crates/trx-core/src/crdt_store.rs:91-93 | different ids have different files |
| CrdtFiles.Extension | crates/trx-core/src/crdt_store.rs:106 | `Path::extension`: the text after the last `.` unless that `.` starts the name; an issue file's extension is `automerge` (`CrdtFiles.FileNameExtension`) |
| CrdtFiles.FileNameExtension | crates/trx-core/src/crdt_store.rs:91-93 | an issue's file has the extension `automerge` |
| CrdtFiles.LoadFiles | crates/trx-core/src/crdt_store.rs:96-121 | the loop of `load`: every loaded issue is filed under its own id and comes from an `.automerge` file (`CrdtFiles.LoadKeyed`, `CrdtFiles.LoadedIdsFile`); with distinct ids the `read_dir` order does not matter (`CrdtFiles.LoadAnyOrder`) |
| CrdtFiles.LoadKeyed | crates/trx-core/src/crdt_store.rs:102-116 | `load` files each issue under its own id |
| CrdtFiles.LoadedIdsFile | crates/trx-core/src/crdt_store.rs:102-116 | when files hold the issues their names say, each loaded id comes from its own file |
| CrdtFiles.LoadedIdsAdd | crates/trx-core/src/crdt_store.rs:102-116 | one more file adds the id of its issue, if it holds one |
| CrdtFiles.LoadedFromAdd | crates/trx-core/src/crdt_store.rs:102-116 | one more file is one more load step |
| CrdtFiles.NamesSnoc | crates/trx-core/src/crdt_store.rs:102 | the names of an order are those of its front and its last one |
| CrdtFiles.LoadAnyOrder | crates/trx-core/src/crdt_store.rs:102-116 | when every file holds the issue its name says, the directory order does not matter |
| CrdtFiles.LoadIssue | crates/trx-core/src/crdt_store.rs:122-131 | a written document reads back as the re-read issue (`CrdtFiles.WriterReader`); a file that does not load is an error |
| CrdtFiles.WriterReader | crates/trx-core/src/crdt_store.rs:122-131 | a saved issue's file reads back as the issue re-read |
| CrdtFiles.WrittenAt | crates/trx-core/src/crdt_store.rs:336-345 | each issue's file holds its document, and there are no other files |
| CrdtFiles.ReloadWritten | crates/trx-core/src/crdt_store.rs:96-131 | files written one per issue, loaded in any order, give back the map with each issue read back |
| CrdtFiles.ReloadSaved | crates/trx-core/src/crdt_store.rs:96-131 | reloading the saved directory gives the map with each issue re-read |
| CrdtFiles.MergeConflict | crates/trx-core/src/crdt_store.rs:505-526 | the merge fails exactly when one side does not load; otherwise it gives a document |
| CrdtFiles.MergeIgnoresBase | crates/trx-core/src/crdt_store.rs:505-526 | the base version does not affect the merge |
| CrdtFiles.ResolveRun | crates/trx-core/src/crdt_store.rs:529-580 | the conflict pass over the names in order, stopping at the first failure (`CrdtStore.ResolveRunStops`); the resolved ids are left without conflict files (`CrdtFiles.ResolvedAreClean`), and a directory without conflicts is unchanged (`CrdtFiles.NoConflictNoChange`) |
| CrdtFiles.ResolveStep | crates/trx-core/src/crdt_store.rs:536-570 | an entry is merged exactly when it is a conflicted `.automerge` file with both sides present; the merged file replaces its three conflict files |
| CrdtFiles.MarkedSides | crates/trx-core/src/crdt_store.rs:542-545 | the three conflict files carry a conflict marker |
| CrdtFiles.ResolvedAreClean | crates/trx-core/src/crdt_store.rs:536-579 | after a run that went through, each resolved file holds a document and none of its conflict files is left |
| CrdtFiles.NoConflictNoChange | crates/trx-core/src/crdt_store.rs:536-579 | without a conflict nothing is resolved and the directory is unchanged |
| DocMap.TimeRoundTrip | crates/trx-core/src/crdt_store.rs:148-154 | an instant's text reads back as that instant |
| DocMap.RequiredKeeps | crates/trx-core/src/crdt_store.rs:260-279 | writing the required fields keeps every other key |
| DocMap.ListsKeep | crates/trx-core/src/crdt_store.rs:298-330 | writing the lists keeps every other key |
| DocMap.OptionalKeeps | crates/trx-core/src/crdt_store.rs:265-296 | an optional field reads as the optional part wrote it |
| DocMap.DocToIssue | crates/trx-core/src/crdt_store.rs:157-254 | a document reads as an issue exactly when it has an id and a title, failing with "Missing id field" or "Missing title field"; the fields the writer omits come back unset |
| DocMap.ReadDoc | crates/trx-core/src/crdt_store.rs:157-254 | the loops over labels and dependencies compute the document's issue |
| DocMap.ReadLabelList | crates/trx-core/src/crdt_store.rs:196-206 | the label loop keeps exactly the string items, in order |
| DocMap.ReadDepList | crates/trx-core/src/crdt_store.rs:208-250 | the dependency loop keeps exactly the readable dependency items, in order |
| DocMap.RereadAll | crates/trx-core/src/crdt_store.rs:209-251 | each dependency re-read, one for one |
| DocMap.DepTypeRoundTrip | crates/trx-core/src/crdt_store.rs:226-234 | a written type reads back as itself, except `parent-child`, which reads back as Blocks |
| DocMap.DepRoundTrip | crates/trx-core/src/crdt_store.rs:313-328 | a written dependency reads back as itself with that one type change |
| DocMap.LabelsRoundTrip | crates/trx-core/src/crdt_store.rs:197-206 | the written labels read back in order |
| DocMap.DepsRoundTrip | crates/trx-core/src/crdt_store.rs:209-251 | the written dependencies read back in order, re-read |
| DocMap.ReadEach | crates/trx-core/src/crdt_store.rs:209-251 | a list of items each read as a re-read dependency reads as the re-read list |
| DocMap.IssueToDoc | crates/trx-core/src/crdt_store.rs:257-333 | the required keys always, optional scalars only when set, lists only when non-empty (`DocMap.DocFields` … `DocMap.DocLists`); reading the document back gives the issue with exactly the code's losses (`DocMap.RoundTrip`, `DocMap.RoundTripExact`) |
| DocMap.DocFields | crates/trx-core/src/crdt_store.rs:260-279 | the written document holds the required fields as written |
| DocMap.DocOptionalFields | crates/trx-core/src/crdt_store.rs:265-268 | the description is written only when present |
| DocMap.DocNoteFields | crates/trx-core/src/crdt_store.rs:285-296 | assignee, close reason and notes are written only when present |
| DocMap.DocClosedAt | crates/trx-core/src/crdt_store.rs:281-284 | `closed_at` is written only when present |
| DocMap.DocLists | crates/trx-core/src/crdt_store.rs:298-330 | labels and dependencies are written only when non-empty |
| DocMap.ScalarsRoundTrip | crates/trx-core/src/crdt_store.rs:157-194 | every scalar field survives the round trip |
| DocMap.RoundTrip | crates/trx-core/src/crdt_store.rs:588-607 | writing and reading an issue gives it back with `parent-child` turned into Blocks and the five unwritten fields cleared |
| DocMap.RoundTripExact | crates/trx-core/src/crdt_store.rs:588-607 | the round trip is exact if and only if the issue has none of the unwritten fields and no `parent-child` dependency |
| IssueIndex.Insert | crates/trx-core/src/crdt_store.rs:360-364 | insertion keeps the list sorted and adds exactly the element |
| IssueIndex.SortBy | crates/trx-core/src/crdt_store.rs:360-364 | the sort gives a sorted permutation |
| IssueIndex.OpenOrderIsTotal | crates/trx-core/src/crdt_store.rs:360-363 | the open order (priority, then newest first) is a total preorder |
| IssueIndex.ClosedOrderIsTotal | crates/trx-core/src/crdt_store.rs:364 | the closed order (latest closing first) is a total preorder |
| IssueIndex.OpenIssues | crates/trx-core/src/crdt_store.rs:352-354 | exactly the open issues, empty exactly when none is open |
| IssueIndex.ClosedIssues | crates/trx-core/src/crdt_store.rs:355-357 | exactly the closed issues that are not tombstones |
| IssueIndex.OpenList | crates/trx-core/src/crdt_store.rs:352-362 | the open issues, priority ascending and newest first within a priority, a permutation of the open issues (`IssueIndex.OpenListOrder`) |
| IssueIndex.OpenListOrder | crates/trx-core/src/crdt_store.rs:352-363 | the open section lists each open issue as often as it occurs, by priority and then newest first |
| IssueIndex.ClosedList | crates/trx-core/src/crdt_store.rs:352-364 | the closed issues other than tombstones, by `closed_at` newest first, a permutation of them (`IssueIndex.ClosedListOrder`) |
| IssueIndex.ClosedListOrder | crates/trx-core/src/crdt_store.rs:355-364 | the closed section lists the non-tombstone closed issues, latest closing first |
| IssueIndex.IndexText | crates/trx-core/src/crdt_store.rs:348-407 | the `ISSUES.md` text: every listed issue has its entry (`IssueIndex.TextShowsOpen`, `IssueIndex.TextShowsClosed`, `IssueIndex.IndexListsIssue`), and the placeholder appears exactly when both lists are empty (`IssueIndex.PlaceholderIffEmpty`) |
| IssueIndex.PushEntries | crates/trx-core/src/crdt_store.rs:369-398 | the loop appends each issue's entry in turn |
| IssueIndex.Render | crates/trx-core/src/crdt_store.rs:349-403 | the text is built section by section as the index text says |
| IssueIndex.EntriesList | crates/trx-core/src/crdt_store.rs:369-398 | every listed issue's entry is in its section |
| IssueIndex.TextShowsOpen | crates/trx-core/src/crdt_store.rs:367-385 | each open issue listed has its entry in the text |
| IssueIndex.TextShowsClosed | crates/trx-core/src/crdt_store.rs:388-399 | each closed issue listed has its entry in the text |
| IssueIndex.IndexListsIssue | crates/trx-core/src/crdt_store.rs:348-403 | every open issue, and every closed one that is not a tombstone, has its entry in the text |
| IssueIndex.PlaceholderIffEmpty | crates/trx-core/src/crdt_store.rs:401-403 | the text is the "No issues yet." placeholder exactly when both lists are empty |
| IssueIndex.NothingListed | crates/trx-core/src/crdt_store.rs:352-357 | both lists are empty exactly when every issue is a tombstone |
| IssueIndex.ListsEmptyIffSectionsEmpty | crates/trx-core/src/crdt_store.rs:352-357 | the sorted open (closed) list is empty exactly when no issue is open (closed) |
| IssueIndex.Preview | crates/trx-core/src/crdt_store.rs:374-381 | the first five lines of the description joined by newlines, then `...` when there are more; a one-line description is shown as it is (`IssueIndex.OneLinePreview`) |
| IssueIndex.OneLinePreview | crates/trx-core/src/crdt_store.rs:374-381 | a one-line description is shown as it is |
| CrdtStore.IndexShowsId | crates/trx-core/src/crdt_store.rs:348-403 | whatever the iteration order, `ISSUES.md` shows an open issue under Open and a closed one under Closed |
| CrdtStore.IndexShowsIssue | crates/trx-core/src/crdt_store.rs:348-403 | the same for one given iteration order |
| CrdtStore.IndexPlaceholder | crates/trx-core/src/crdt_store.rs:401-403 | `ISSUES.md` is the placeholder exactly when every issue is a tombstone |
| CrdtStore.SaveKeepsSaved | crates/trx-core/src/crdt_store.rs:428-429 | saving an issue's file before inserting it keeps every issue saved |
| CrdtStore.ResolveRunStops | crates/trx-core/src/crdt_store.rs:557 | once a merge has failed, the later entries change nothing |
| CrdtStore.Store.Init | crates/trx-core/src/crdt_store.rs:36-60 | an empty map, an empty directory and the placeholder `ISSUES.md` |
| CrdtStore.Store.WithRoot | crates/trx-core/src/unified_store.rs:246-251 | no issue in memory over an existing directory |
| CrdtStore.Store.Load | crates/trx-core/src/crdt_store.rs:96-119 | every `.automerge` entry that reads as an issue is filed under its id, in the listing order |
| CrdtStore.Store.SaveIssue | crates/trx-core/src/crdt_store.rs:336-345 | the issue's file now holds its document; nothing else changes |
| CrdtStore.Store.Regenerate | crates/trx-core/src/crdt_store.rs:348-407 | `ISSUES.md` is the index text of the map in some iteration order |
| CrdtStore.Store.Get | crates/trx-core/src/crdt_store.rs:410-412 | finds an issue exactly for a present id, the one stored under it |
| CrdtStore.Store.Create | crates/trx-core/src/crdt_store.rs:420-432 | the map changes as `CreateEffect` says; on success the file is written and `ISSUES.md` regenerated; every issue stays saved |
| CrdtStore.Store.Update | crates/trx-core/src/crdt_store.rs:435-443 | the map changes as `UpdateEffect` says; on success the file is written and `ISSUES.md` regenerated |
| CrdtStore.Store.Delete | crates/trx-core/src/crdt_store.rs:446-456 | the map changes as `DeleteEffect` says; on success the tombstone's file is written and `ISSUES.md` regenerated |
| CrdtStore.Store.List | crates/trx-core/src/crdt_store.rs:459-464 | exactly the stored issues, without tombstones unless asked |
| CrdtStore.Store.ListOpen | crates/trx-core/src/crdt_store.rs:467-472 | exactly the stored open issues |
| CrdtStore.Store.NextChildNum | crates/trx-core/src/crdt_store.rs:475-492 | the same rule as version 1: one more than the largest direct-child number |
| CrdtStore.Store.ResolveConflicts | crates/trx-core/src/crdt_store.rs:529-580 | the directory changes as the resolution run says; the map and `ISSUES.md` are reloaded and regenerated only when something was resolved |
| Unified.Version | crates/trx-core/src/unified_store.rs:52-57 | version 1 exactly for the V1 variant, version 2 exactly for V2 |
| Unified.Get | crates/trx-core/src/unified_store.rs:68-73 | what the active backend's map holds under the id |
| Unified.List | crates/trx-core/src/unified_store.rs:108-113 | the active backend's issues, without tombstones unless asked |
| Unified.ListOpen | crates/trx-core/src/unified_store.rs:116-121 | the active backend's open issues |
| Unified.NextChildNum | crates/trx-core/src/unified_store.rs:124-129 | the child-number rule over the active backend's keys |
| Unified.Create | crates/trx-core/src/unified_store.rs:84-89 | the active backend's create: the same effect on its map; on version 1 the file holds the new map after a success and is untouched after a failure, on version 2 exactly the issue's document is written, `ISSUES.md` shows the new map, a failure touches neither, and every issue stays saved |
| Unified.Update | crates/trx-core/src/unified_store.rs:92-97 | the active backend's update: the same effect and the same persistence as for create |
| Unified.Delete | crates/trx-core/src/unified_store.rs:100-105 | the active backend's delete: the same effect; on version 1 the file holds the new map after a success and is untouched after a failure; on version 2 exactly the tombstone's document is written and `ISSUES.md` regenerated, a failure touches neither, and every issue stays saved |
| Unified.ResolveConflicts | crates/trx-core/src/unified_store.rs:140-145 | version 1 returns an empty list and changes nothing; version 2 runs the resolution over the files, keeps the map and `ISSUES.md` when nothing was resolved, and otherwise reloads the map from the resolved files and regenerates `ISSUES.md` |
| Unified.Regenerate | crates/trx-core/src/unified_store.rs:148-153 | version 1 changes nothing; version 2 rewrites `ISSUES.md` |
| Unified.MigrateV1ToV2 | crates/trx-core/src/unified_store.rs:157-197 | the count is every version-1 issue, tombstones included; a dry run changes nothing; otherwise a new version-2 store holds the same map, every issue saved, the version set to 2 and `ISSUES.md` regenerated |
| Unified.MigrateOne | crates/trx-core/src/unified_store.rs:181-183 | creating an issue with a new id inserts it and keeps every issue saved |
| Unified.TakenHolds | crates/trx-core/src/unified_store.rs:181-183 | after `k` steps exactly the first `k` ids are present, with their issues |
| Unified.TakenAll | crates/trx-core/src/unified_store.rs:181-183 | after the last step the whole map is present |
| Unified.CreateAll | crates/trx-core/src/unified_store.rs:181-183 | the migration loop creates every issue of the map |
| Unified.RollbackV2ToV1 | crates/trx-core/src/unified_store.rs:200-235 | the count is every version-2 issue; a dry run writes nothing; otherwise the JSONL text holds one line per issue and the version is set to 1 |
| Unified.WriteLines | crates/trx-core/src/unified_store.rs:217-220 | the loop writes one encoded line per issue, each ended by a newline |
| Unified.RollbackThenLoad | crates/trx-core/src/unified_store.rs:214-228 | loading the `issues.jsonl` the rollback writes gives back exactly the map it was written from |
| Unified.RereadMap | crates/trx-core/src/crdt_store.rs:157-254 | the re-read map has the same ids, each still filed under its own id |
| Unified.RereadEntries | crates/trx-core/src/crdt_store.rs:157-254 | a map holding exactly the re-read issues under their ids is the re-read map |
| Unified.ReopenIsReread | crates/trx-core/src/unified_store.rs:200-205 | opening the version-2 store the migration saved gives every issue as `doc_to_issue` reads it back, whatever the directory order |
| Unified.MigrateReopenRollback | crates/trx-core/src/unified_store.rs:157-235 | migrating, then rolling back (which reopens the version-2 store), gives an `issues.jsonl` that loads as the re-read issues, not the original ones |
| Graph.Ids | crates/trx-core/src/graph.rs:24-27 | one node per snapshot issue, carrying its id, in order |
| Graph.NodeMapFacts | crates/trx-core/src/graph.rs:24-27 | `node_map` holds exactly the snapshot's ids, each at a node carrying it |
| Graph.BuildGraph | crates/trx-core/src/graph.rs:19-41 | every edge joins two nodes of the graph |
| Graph.DepEdgesMembers | crates/trx-core/src/graph.rs:32-36 | the inner loop adds an edge for exactly the dependencies whose target is a node |
| Graph.EdgesOfMembers | crates/trx-core/src/graph.rs:30-38 | the outer loop adds an edge for exactly the dependencies whose target is a node |
| Graph.EdgesJoinNodes | crates/trx-core/src/graph.rs:30-38 | every added edge joins two nodes |
| Graph.GraphEdges | crates/trx-core/src/graph.rs:19-41 | an edge is in the graph exactly when it comes from a dependency whose target is in the snapshot |
| Graph.FromIssues | crates/trx-core/src/graph.rs:19-41 | the loops build the specified graph |
| Graph.AddNodes | crates/trx-core/src/graph.rs:24-27 | the first loop gives the nodes and `node_map` |
| Graph.AddEdges | crates/trx-core/src/graph.rs:30-38 | the second loop gives the specified edges |
| Graph.AddDepEdges | crates/trx-core/src/graph.rs:32-36 | the inner loop appends the edges of one issue |
| Graph.Incoming | crates/trx-core/src/graph.rs:96-99 | the ids with an edge into a node |
| Graph.Outgoing | crates/trx-core/src/graph.rs:108-111 | the ids a node has an edge to |
| Graph.BlockedBy | crates/trx-core/src/graph.rs:94-103 | empty for an id that is not a node |
| Graph.Blocking | crates/trx-core/src/graph.rs:106-115 | empty for an id that is not a node |
| Graph.EdgeIsDependency | crates/trx-core/src/graph.rs:19-41 | an edge into a node comes from a dependency on that node's id |
| Graph.DependencyIsEdge | crates/trx-core/src/graph.rs:19-41 | a dependency between two snapshot issues is an edge between their nodes |
| Graph.BlockedByDependents | crates/trx-core/src/graph.rs:94-103 | `blocked_by(id)` holds exactly the issues with a dependency on `id`, one hop, when `id` is in the snapshot |
| Graph.BlockingTargets | crates/trx-core/src/graph.rs:106-115 | `blocking(id)` holds exactly the snapshot issues `id` depends on, one hop |
| Graph.ReadyAmong | crates/trx-core/src/graph.rs:80-90 | the ready issues of a list, no more of them than the list has |
| Graph.ReadyIssues | crates/trx-core/src/graph.rs:73-91 | exactly the snapshot issues that are open and have no `Blocks` dependency on an open snapshot issue |
| Graph.ReadyAmongConcat | crates/trx-core/src/graph.rs:80-90 | the filter works piece by piece, so the ready issues keep snapshot order |
| Graph.ReadyIgnoresOtherKinds | crates/trx-core/src/graph.rs:84-87 | a ParentChild or Related dependency never changes readiness |
| Graph.BlocksOnOpenNotReady | crates/trx-core/src/graph.rs:84-87 | a `Blocks` dependency on an open snapshot issue makes an issue not ready |
| Graph.ReadyExample | crates/trx-core/src/graph.rs:166-179 | with the second issue blocked on the open first one, only the first is ready |
| Graph.IndexOf | crates/trx-core/src/graph.rs:63-70 | the position of a node in an order |
| Graph.PathGoesForward | crates/trx-core/src/graph.rs:63-70 | along a path, positions in a topological order grow |
| Graph.OrderedHasNoCycle | crates/trx-core/src/graph.rs:63-70 | a graph with a topological order has no cycle |
| Graph.StuckMeansCycle | crates/trx-core/src/graph.rs:63-70 | when every node not yet ordered has an edge from another one, there is a cycle |
| Graph.AppendKeeps | crates/trx-core/src/graph.rs:63-70 | appending a node with no pending incoming edge keeps the order topological |
| Graph.PendingNode | crates/trx-core/src/graph.rs:63-70 | whether some edge into a node comes from a node not yet ordered |
| Graph.FindSource | crates/trx-core/src/graph.rs:63-70 | a node not yet ordered with no pending incoming edge, or none when every such node has one |
| Graph.Toposort | crates/trx-core/src/graph.rs:63-70 | a permutation of the nodes with every edge going forward, or none only when there is a cycle |
| Graph.HasCycles | crates/trx-core/src/graph.rs:44-46 | true exactly when some walk returns to its start |
| Graph.NodeIds | crates/trx-core/src/graph.rs:64-68 | the ids of the nodes of an order |
| Graph.TopologicalOrder | crates/trx-core/src/graph.rs:63-70 | none exactly when the graph has a cycle; otherwise the ids of a topological order |
| Graph.FindCycles | crates/trx-core/src/graph.rs:49-56 | the reported components are exactly the sets of mutually reachable nodes that lie on a cycle: every node on a cycle is in one (`Graph.CycleIsReported`), every reported set lies on a cycle (`Graph.ReportedHasCycle`), and there is one exactly when `has_cycles` holds (`Graph.FindCyclesIffCycle`) |
| Graph.CycleIsReported | crates/trx-core/src/graph.rs:49-60 | a cycle puts its first node in a reported component |
| Graph.ReportedHasCycle | crates/trx-core/src/graph.rs:49-60 | a reported component holds a cycle |
| Graph.FindCyclesIffCycle | crates/trx-core/src/graph.rs:44-60 | `find_cycles` reports nothing exactly when `has_cycles` is false |
| Tui.SaturatingSub | crates/trx-tui/src/main.rs:320 | `saturating_sub`: the difference, or 0 below zero |
| Tui.AdjustedOffset | crates/trx-tui/src/main.rs:352-358 | the cursor is in the window afterwards (`offset <= index`, and `index < offset + p` when `p > 0`); the window moves only when the cursor is outside it, and then just far enough |
| Tui.Toggled | crates/trx-tui/src/main.rs:360-366 | the cursor's row flips, every other row stays |
| Tui.ToggleTwice | crates/trx-tui/src/main.rs:360-366 | toggling twice restores the selection |
| Tui.SelectionState.constructor | crates/trx-tui/src/main.rs:303-309 | cursor and window at 0, nothing selected |
| Tui.SelectionState.AdjustOffset | crates/trx-tui/src/main.rs:352-358 | the window is moved as `AdjustedOffset` says; nothing else changes |
| Tui.SelectionState.Next | crates/trx-tui/src/main.rs:311-317 | nothing on an empty list; otherwise one row down, stopping at the last row, and the cursor is shown |
| Tui.SelectionState.Previous | crates/trx-tui/src/main.rs:319-322 | one row up, saturating at 0, with the window no further down than the cursor |
| Tui.SelectionState.Top | crates/trx-tui/src/main.rs:324-327 | cursor and window at 0 |
| Tui.SelectionState.Bottom | crates/trx-tui/src/main.rs:329-337 | the last row, with the window ending at it when the cursor was below the window |
| Tui.SelectionState.PageDown | crates/trx-tui/src/main.rs:339-345 | nothing on an empty list; otherwise a page down, stopping at the last row, and the cursor is shown |
| Tui.SelectionState.PageUp | crates/trx-tui/src/main.rs:347-350 | ten rows up, saturating at 0 |
| Tui.SelectionState.ToggleSelection | crates/trx-tui/src/main.rs:360-366 | the cursor's row flips in the selection |
| Tui.SelectionState.SelectAll | crates/trx-tui/src/main.rs:368-370 | the selection is exactly `0 .. max - 1` |
| Tui.SelectionState.DeselectAll | crates/trx-tui/src/main.rs:372-374 | the selection is empty |
| Tui.NewFilter | crates/trx-tui/src/main.rs:377-399 | the open statuses and every type enabled, no label, every flag off |
| Tui.NeverBlockedByNothing | crates/trx-tui/src/main.rs:417-423 | blocked-ness asked of an empty list is always false |
| Tui.QueryHits | crates/trx-tui/src/main.rs:428-441 | the lower-cased query occurs in the lower-cased title, id or description (`Tui.MatchesIff`) |
| Tui.Matches | crates/trx-tui/src/main.rs:401-444 | shown exactly when the status is shown and enabled, the type enabled, some label enabled when labels filter, `show_blocked` off, and the query found (`Tui.MatchesIff`); `ready_only` has no effect (`Tui.ReadyOnlyNoEffect`) |
| Tui.MatchesIff | crates/trx-tui/src/main.rs:401-444 | a match is: status shown and enabled, type enabled, some enabled label when labels filter, `show_blocked` off, and the query found case-insensitively in title, id or description when there is one |
| Tui.ReadyOnlyNoEffect | crates/trx-tui/src/main.rs:417-419 | `ready_only` never hides an issue |
| Tui.ShowBlockedHidesAll | crates/trx-tui/src/main.rs:421-423 | `show_blocked` hides every issue |
| Tui.NewFilterShowsOpen | crates/trx-tui/src/main.rs:377-444 | the initial filter with no query shows exactly the open issues |
| Tui.PriorityUp | crates/trx-tui/src/main.rs:937-942 | Up raises the priority by one, up to 4 |
| Tui.PriorityDown | crates/trx-tui/src/main.rs:937-942 | Down lowers the priority by one, saturating at 0 |
| Tui.PriorityStepsUndo | crates/trx-tui/src/main.rs:937-942 | Down undoes Up below 4, and Up undoes Down above 0 |
| Tui.IssueForm.constructor | crates/trx-tui/src/main.rs:259-269 | the form starts at priority 2 |
| Tui.IssueForm.StepPriority | crates/trx-tui/src/main.rs:937-942 | the priority steps as Up or Down says and stays in 0..4 when it starts there |

## Left out

- File I/O, directory creation, `find_root`, `open`, `init` and `trx_dir`: persistence is the explicit state described above. The I/O error paths (`?` on a read or write) are not modelled.
- JSON and TOML are not modelled; JSON encoding and decoding are parameters. Only the `prefix` line scan of `Store::prefix` is modelled. `CrdtStore::prefix` and `UnifiedStore::prefix` go through crates/trx-core/src/config.rs, which is not part of this model.
- Automerge is not modelled: a document is its current value, `merge` is a parameter, and `merge_conflict` is modelled only by which side is loaded and that the base is ignored.
- RFC 3339 text is not modelled: an instant is written in decimal and read back by the matching parser.
- Hashing and randomness in `generate_id` are not modelled: the four digest bytes are an input, and only the output shape is proved.
- `pagerank` is left out (floating-point power iteration).
- `get_mut` is left out; callers change issues through `update`.
- `Issue::parent_id` and `Issue::is_child` are left out: they only call the id helpers, which are modelled.
- `Display` for `Issue` is left out.
- Issues.Close, Issues.Delete, Issues.AddDependency, Issues.RemoveDependency: the in-place updates of an owned issue are functions from the old issue to the new one; no aliasing is involved.
- Two clock reads in one call are one instant `now`.
- The iteration orders of a `HashMap` and of `read_dir` are inputs, and `list` results are sets. The order is then not modelled.
- StoreSpec.ComputeNextChildNum: `max + 1` at `u32::MAX` is modelled as the release-build wrap-around to 0; a debug build would panic.
- Tui.SelectionState.Next, Tui.SelectionState.PageDown: `usize` overflow of `index + 1` or `index + page_size` is not modelled, because integers are unbounded.
- Tui.SelectionState.Bottom: with a page size of 0 the source sets the offset to `max`, past the cursor; the contract states that case as it is rather than a window invariant.
- Graph.Toposort: petgraph's `toposort` is a depth-first search; the model uses Kahn's algorithm. The contract fixes only what both promise, not the order they choose.
- Graph.FindCycles: the components are sets of node indices, defined by reachability; Kosaraju's algorithm, the component order and the node order within a component are not modelled.
- Graph.ReadyIssues: `ready_issues` does not use the graph it is called on, and neither does the model.
- Lower-casing covers ASCII and the Kelvin sign (the one non-ASCII character that lower-cases to an ASCII letter). That is all `from_str` needs for its ASCII keywords. Other Unicode case mappings are not modelled.
- Tui.MatchesIff: case folding of the free-text query and of the title, id and description covers only ASCII and the Kelvin sign, while `to_lowercase` folds all of Unicode; a query such as "ÉTÉ" does not match the title "été" in the model, though it does in the program. Tui.QueryHits has the same limit.
- Unified.MigrateV1ToV2 requires every version-1 entry to be filed under its own id, as `load` guarantees. The "already version 2" refusal lives in crates/trx-cli/src/commands.rs, which is not part of this model.
- Unified.MigrateV1ToV2: a missing `.trx/crdt` directory is not modelled, because the migration creates it.
- The round trip through the CRDT document is lossy as the code is written: `created_by`, `deleted_at`, `deleted_by`, `delete_reason` and `original_type` are not written, and `parent-child` reads back as `blocks`. `DocMap.RoundTrip` states exactly what comes back.
- Rendering, the event loop, key handling other than the priority field, and the message timers of the terminal UI are left out.
