/**
 * The issue data model (crates/trx-core/src/issue.rs): statuses, issue types and
 * dependency types with their text forms, the `Issue` record and the updates the
 * source applies to it in place (close, tombstone, add and remove a dependency).
 */
module Issues {
  import opened Wrappers
  import opened Text

  /** An instant, as a count of time units since the epoch. */
  type Timestamp = nat

  // ---------------------------------------------------------------------------
  // Status

  datatype Status = Open | InProgress | Blocked | Closed | Tombstone

  predicate IsOpen(s: Status) { s == Open || s == InProgress || s == Blocked }

  predicate IsClosed(s: Status) { s == Closed || s == Tombstone }

  /** Every status is open or closed, never both. */
  lemma OpenClosedPartition(s: Status)
    ensures IsOpen(s) != IsClosed(s)
    ensures IsOpen(s) <==> s in {Open, InProgress, Blocked}
    ensures IsClosed(s) <==> s in {Closed, Tombstone}
  {
  }

  function StatusText(s: Status): string
  {
    match s
    case Open => "open"
    case InProgress => "in_progress"
    case Blocked => "blocked"
    case Closed => "closed"
    case Tombstone => "tombstone"
  }

  /** `Status::from_str`: matches the lower-cased text; the error keeps the text as given. */
  function ParseStatus(text: string): (r: Result<Status>)
    ensures r.Err? ==> r.error == InvalidStatus(text)
  {
    var l := Lower(text);
    if l == "open" then Ok(Open)
    else if l == "in_progress" || l == "in-progress" || l == "inprogress" then Ok(InProgress)
    else if l == "blocked" then Ok(Blocked)
    else if l == "closed" then Ok(Closed)
    else if l == "tombstone" then Ok(Tombstone)
    else Err(InvalidStatus(text))
  }

  // ---------------------------------------------------------------------------
  // Issue type

  datatype IssueType = Bug | Feature | Task | Epic | Chore

  function TypeText(t: IssueType): string
  {
    match t
    case Bug => "bug"
    case Feature => "feature"
    case Task => "task"
    case Epic => "epic"
    case Chore => "chore"
  }

  /** `IssueType::from_str`. */
  function ParseType(text: string): (r: Result<IssueType>)
    ensures r.Err? ==> r.error == InvalidType(text)
  {
    var l := Lower(text);
    if l == "bug" then Ok(Bug)
    else if l == "feature" then Ok(Feature)
    else if l == "task" then Ok(Task)
    else if l == "epic" then Ok(Epic)
    else if l == "chore" then Ok(Chore)
    else Err(InvalidType(text))
  }

  // ---------------------------------------------------------------------------
  // Text forms: round trips and case-insensitivity

  predicate NoUpperCase(s: string)
  {
    forall i | 0 <= i < |s| :: LowerChar(s[i]) == s[i]
  }

  lemma LowerOfLowerCase(s: string)
    requires NoUpperCase(s)
    ensures Lower(s) == s
  {
  }

  lemma {:induction false} LowerIdempotent(s: string)
    ensures Lower(Lower(s)) == Lower(s)
  {
    var l := Lower(s);
    assert forall i | 0 <= i < |l| :: LowerChar(l[i]) == l[i];
    LowerOfLowerCase(l);
  }

  lemma StatusRoundTrip(s: Status)
    ensures ParseStatus(StatusText(s)) == Ok(s)
  {
    var t := StatusText(s);
    assert NoUpperCase(t) by {
      forall i | 0 <= i < |t| ensures LowerChar(t[i]) == t[i] {
        assert 'a' <= t[i] <= 'z' || t[i] == '_';
      }
    }
    LowerOfLowerCase(t);
  }

  lemma TypeRoundTrip(t: IssueType)
    ensures ParseType(TypeText(t)) == Ok(t)
  {
    var text := TypeText(t);
    assert NoUpperCase(text) by {
      forall i | 0 <= i < |text| ensures LowerChar(text[i]) == text[i] {
        assert 'a' <= text[i] <= 'z';
      }
    }
    LowerOfLowerCase(text);
  }

  /** Parsing only looks at the lower-cased text. */
  lemma ParseCaseInsensitive(text: string)
    ensures ParseStatus(text).Ok? == ParseStatus(Lower(text)).Ok?
    ensures ParseStatus(text).Ok? ==> ParseStatus(text) == ParseStatus(Lower(text))
    ensures ParseType(text).Ok? == ParseType(Lower(text)).Ok?
    ensures ParseType(text).Ok? ==> ParseType(text) == ParseType(Lower(text))
  {
    LowerIdempotent(text);
    SameLowerSameStatus(text, Lower(text));
    SameLowerSameType(text, Lower(text));
  }

  /** Two texts with the same lower-case form parse to the same status, or both fail. */
  lemma SameLowerSameStatus(a: string, b: string)
    requires Lower(a) == Lower(b)
    ensures ParseStatus(a).Ok? == ParseStatus(b).Ok?
    ensures ParseStatus(a).Ok? ==> ParseStatus(a) == ParseStatus(b)
  {
  }

  /** Two texts with the same lower-case form parse to the same type, or both fail. */
  lemma SameLowerSameType(a: string, b: string)
    requires Lower(a) == Lower(b)
    ensures ParseType(a).Ok? == ParseType(b).Ok?
    ensures ParseType(a).Ok? ==> ParseType(a) == ParseType(b)
  {
  }

  /** The three accepted spellings of `InProgress`; every other unknown text is an error. */
  lemma InProgressSpellings(text: string)
    ensures ParseStatus(text) == Ok(InProgress) <==>
            Lower(text) in ["in_progress", "in-progress", "inprogress"]
    ensures ParseStatus(text).Err? <==>
            Lower(text) !in ["open", "in_progress", "in-progress", "inprogress", "blocked", "closed", "tombstone"]
  {
  }

  // ---------------------------------------------------------------------------
  // Dependencies

  datatype DependencyType = Blocks | ParentChild | Related

  /** `DependencyType`'s `Display`. */
  function DependencyTypeText(t: DependencyType): string
  {
    match t
    case Blocks => "blocks"
    case ParentChild => "parent-child"
    case Related => "related"
  }

  datatype Dependency = Dependency(
    issueId: string,
    dependsOnId: string,
    depType: DependencyType,
    createdAt: Timestamp,
    createdBy: Option<string>)

  // ---------------------------------------------------------------------------
  // Issue

  datatype Issue = Issue(
    id: string,
    title: string,
    description: Option<string>,
    status: Status,
    priority: u8,
    issueType: IssueType,
    labels: seq<string>,
    createdAt: Timestamp,
    updatedAt: Timestamp,
    closedAt: Option<Timestamp>,
    deletedAt: Option<Timestamp>,
    dependencies: seq<Dependency>,
    createdBy: Option<string>,
    closeReason: Option<string>,
    assignee: Option<string>,
    notes: Option<string>,
    originalType: Option<string>,
    deletedBy: Option<string>,
    deleteReason: Option<string>)

  /** `Issue::new`, with the clock reading passed in. */
  function New(id: string, title: string, now: Timestamp): (r: Issue)
    ensures r.id == id && r.title == title
    ensures r.status == Open && r.priority == 2 && r.issueType == Task
    ensures r.labels == [] && r.dependencies == []
    ensures r.createdAt == r.updatedAt == now
  {
    Issue(id, title, None, Open, 2, Task, [], now, now, None, None, [],
          None, None, None, None, None, None, None)
  }

  /** A new issue is open, has no optional field set and blocks nothing. */
  lemma NewIssueIsBare(id: string, title: string, now: Timestamp, xs: seq<Issue>)
    ensures var i := New(id, title, now);
      IsOpen(i.status)
      && i.description == None && i.closedAt == i.deletedAt == None
      && i.createdBy == i.closeReason == i.assignee == i.notes == None
      && i.originalType == i.deletedBy == i.deleteReason == None
      && !IsBlocking(i) && BlockingIds(i) == [] && !IsBlockedBy(i, xs)
  {
  }

  /** `Issue::close`: both clock reads of the source are the one instant `now`. */
  function Close(i: Issue, reason: Option<string>, now: Timestamp): (r: Issue)
    ensures r.status == Closed && r.closedAt == Some(now)
    ensures r.updatedAt == now && r.closeReason == reason
    // every other field is as before
    ensures r.(status := i.status, closedAt := i.closedAt, updatedAt := i.updatedAt,
               closeReason := i.closeReason) == i
  {
    i.(status := Closed, closedAt := Some(now), updatedAt := now, closeReason := reason)
  }

  /** `Issue::delete`: turn the issue into a tombstone, remembering its type. */
  function Delete(i: Issue, deleter: Option<string>, reason: Option<string>, now: Timestamp): (r: Issue)
    ensures r.status == Tombstone && IsClosed(r.status)
    ensures r.originalType == Some(TypeText(i.issueType)) && r.issueType == i.issueType
    ensures r.deletedAt == Some(now) && r.updatedAt == now
    ensures r.deletedBy == deleter && r.deleteReason == reason
    // every other field is as before
    ensures r.(originalType := i.originalType, status := i.status, deletedAt := i.deletedAt,
               updatedAt := i.updatedAt, deletedBy := i.deletedBy, deleteReason := i.deleteReason) == i
  {
    i.(originalType := Some(TypeText(i.issueType)), status := Tombstone, deletedAt := Some(now),
       updatedAt := now, deletedBy := deleter, deleteReason := reason)
  }

  /** A second delete succeeds and its arguments replace those of the first. */
  lemma DeleteTwice(i: Issue, deleter1: Option<string>, reason1: Option<string>, t1: Timestamp,
                    deleter2: Option<string>, reason2: Option<string>, t2: Timestamp)
    ensures Delete(Delete(i, deleter1, reason1, t1), deleter2, reason2, t2) == Delete(i, deleter2, reason2, t2)
  {
  }

  /** `Issue::add_dependency`: one new dependency owned by this issue, at the end. */
  function AddDependency(i: Issue, dependsOnId: string, depType: DependencyType, now: Timestamp): (r: Issue)
    ensures |r.dependencies| == |i.dependencies| + 1
    ensures r.dependencies[..|i.dependencies|] == i.dependencies
    ensures r.dependencies[|i.dependencies|] == Dependency(i.id, dependsOnId, depType, now, None)
    ensures r.updatedAt == now
    ensures r.(dependencies := i.dependencies, updatedAt := i.updatedAt) == i
  {
    i.(dependencies := i.dependencies + [Dependency(i.id, dependsOnId, depType, now, None)],
       updatedAt := now)
  }

  /** `deps.retain(|d| d.depends_on_id != target)`. */
  function Retain(deps: seq<Dependency>, target: string): (r: seq<Dependency>)
    ensures |r| <= |deps|
  {
    if deps == [] then []
    else (if deps[0].dependsOnId != target then [deps[0]] else []) + Retain(deps[1..], target)
  }

  /**
   * `Issue::remove_dependency`: every dependency on the target goes, whatever
   * its type; the others stay, in their order (`RetainConcat`).
   */
  function RemoveDependency(i: Issue, dependsOnId: string, now: Timestamp): (r: Issue)
    ensures forall d :: d in r.dependencies <==> d in i.dependencies && d.dependsOnId != dependsOnId
    ensures r.dependencies == Retain(i.dependencies, dependsOnId)
    ensures r.updatedAt == now
    ensures r.(dependencies := i.dependencies, updatedAt := i.updatedAt) == i
  {
    RetainMembers(i.dependencies, dependsOnId);
    i.(dependencies := Retain(i.dependencies, dependsOnId), updatedAt := now)
  }

  /** Retain keeps exactly the dependencies on other targets, whatever their type. */
  lemma {:induction false} RetainMembers(deps: seq<Dependency>, target: string)
    ensures forall d :: d in Retain(deps, target) <==> d in deps && d.dependsOnId != target
  {
    if deps != [] {
      RetainMembers(deps[1..], target);
      assert deps == [deps[0]] + deps[1..];
    }
  }

  /** Retain works piecewise, so the kept dependencies stay in their original order. */
  lemma {:induction false} RetainConcat(a: seq<Dependency>, b: seq<Dependency>, target: string)
    ensures Retain(a + b, target) == Retain(a, target) + Retain(b, target)
  {
    if a == [] {
      assert a + b == b;
    } else {
      assert (a + b)[0] == a[0];
      assert (a + b)[1..] == a[1..] + b;
      RetainConcat(a[1..], b, target);
    }
  }

  /** Retain leaves a list without the target as it is. */
  lemma {:induction false} RetainNoTarget(deps: seq<Dependency>, target: string)
    requires forall k | 0 <= k < |deps| :: deps[k].dependsOnId != target
    ensures Retain(deps, target) == deps
  {
    if deps != [] {
      RetainNoTarget(deps[1..], target);
    }
  }

  /** Removing a dependency undoes adding one on the same target, whatever its type. */
  lemma RemoveUndoesAdd(i: Issue, target: string, depType: DependencyType, t1: Timestamp, t2: Timestamp)
    ensures RemoveDependency(AddDependency(i, target, depType, t1), target, t2)
         == RemoveDependency(i, target, t2)
  {
    var d := Dependency(i.id, target, depType, t1, None);
    RetainConcat(i.dependencies, [d], target);
    assert Retain([d], target) == [];
  }

  // ---------------------------------------------------------------------------
  // Blocking

  /** `Issue::blocking_ids`: the targets of the `Blocks` dependencies, in order. */
  function BlockingIds(i: Issue): seq<string>
  {
    BlocksTargets(i.dependencies)
  }

  function BlocksTargets(deps: seq<Dependency>): seq<string>
  {
    if deps == [] then []
    else (if deps[0].depType == Blocks then [deps[0].dependsOnId] else []) + BlocksTargets(deps[1..])
  }

  predicate BlocksOn(d: Dependency, target: string) { d.depType == Blocks && d.dependsOnId == target }

  lemma {:induction false} BlocksTargetsMembers(deps: seq<Dependency>)
    ensures |BlocksTargets(deps)| <= |deps|
    ensures forall t :: t in BlocksTargets(deps) <==> exists k | 0 <= k < |deps| :: BlocksOn(deps[k], t)
  {
    if deps != [] {
      BlocksTargetsMembers(deps[1..]);
      forall t | (exists k | 0 <= k < |deps| :: BlocksOn(deps[k], t))
        ensures t in BlocksTargets(deps)
      {
        var k :| 0 <= k < |deps| && BlocksOn(deps[k], t);
        if k > 0 {
          assert BlocksOn(deps[1..][k - 1], t);
        }
      }
      forall t | t in BlocksTargets(deps[1..])
        ensures exists k | 0 <= k < |deps| :: BlocksOn(deps[k], t)
      {
        var k :| 0 <= k < |deps[1..]| && BlocksOn(deps[1..][k], t);
        assert BlocksOn(deps[k + 1], t);
      }
    }
  }

  /** `Issue::is_blocking`: the issue has at least one `Blocks` dependency. */
  predicate IsBlocking(i: Issue)
  {
    |i.dependencies| > 0 && exists k | 0 <= k < |i.dependencies| :: i.dependencies[k].depType == Blocks
  }

  lemma IsBlockingIffBlockingIds(i: Issue)
    ensures IsBlocking(i) <==> BlockingIds(i) != []
  {
    BlocksTargetsMembers(i.dependencies);
    assert BlockingIds(i) == BlocksTargets(i.dependencies);
    if IsBlocking(i) {
      var k :| 0 <= k < |i.dependencies| && i.dependencies[k].depType == Blocks;
      assert BlocksOn(i.dependencies[k], i.dependencies[k].dependsOnId);
      assert i.dependencies[k].dependsOnId in BlockingIds(i);
    }
    if BlockingIds(i) != [] {
      var t := BlockingIds(i)[0];
      assert t in BlocksTargets(i.dependencies);
      var k :| 0 <= k < |i.dependencies| && BlocksOn(i.dependencies[k], t);
    }
  }

  /** Some issue of `xs` with this id is open. */
  predicate OpenIn(xs: seq<Issue>, id: string)
  {
    exists j | 0 <= j < |xs| :: xs[j].id == id && IsOpen(xs[j].status)
  }

  /** `Issue::is_blocked_by`: some `Blocks` dependency targets an open issue of `xs`. */
  predicate IsBlockedBy(i: Issue, xs: seq<Issue>)
  {
    exists k | 0 <= k < |i.dependencies| ::
      i.dependencies[k].depType == Blocks && OpenIn(xs, i.dependencies[k].dependsOnId)
  }

  /** Being blocked is exactly having a blocking id that names an open issue of `xs`. */
  lemma BlockedByViaBlockingIds(i: Issue, xs: seq<Issue>)
    ensures IsBlockedBy(i, xs) <==> exists t | t in BlockingIds(i) :: OpenIn(xs, t)
  {
    BlocksTargetsMembers(i.dependencies);
    if IsBlockedBy(i, xs) {
      var k :| 0 <= k < |i.dependencies| && i.dependencies[k].depType == Blocks
               && OpenIn(xs, i.dependencies[k].dependsOnId);
      assert BlocksOn(i.dependencies[k], i.dependencies[k].dependsOnId);
    }
    if exists t | t in BlockingIds(i) :: OpenIn(xs, t) {
      var t :| t in BlockingIds(i) && OpenIn(xs, t);
      var k :| 0 <= k < |i.dependencies| && BlocksOn(i.dependencies[k], t);
    }
  }
}
