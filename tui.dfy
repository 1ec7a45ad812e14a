/**
 * The list cursor, the list filter and the priority field of the issue form
 * in the terminal UI (crates/trx-tui/src/main.rs). Rendering and the event
 * loop are not part of this model.
 */
module Tui {
  import opened Wrappers
  import opened Text
  import opened Issues

  function Min(a: nat, b: nat): nat { if a <= b then a else b }

  /** `usize::saturating_sub`. */
  function SaturatingSub(a: nat, b: nat): (r: nat)
    ensures r == 0 || r + b == a
    ensures r <= a
  {
    if a >= b then a - b else 0
  }

  // ---------------------------------------------------------------------------
  // Selection

  /**
   * The offset `adjust_offset` leaves for the cursor `index` and a page of
   * `pageSize` rows: the window is moved just far enough to show the cursor.
   */
  function AdjustedOffset(index: nat, offset: nat, pageSize: nat): (r: nat)
    ensures r <= index
    ensures pageSize > 0 ==> index < r + pageSize
    ensures offset <= index && (pageSize == 0 || index < offset + pageSize) ==> r == offset
    ensures index < offset ==> r == index
    ensures pageSize > 0 && index >= offset + pageSize ==> r + pageSize == index + 1
  {
    if index < offset then index
    else if pageSize > 0 && index >= offset + pageSize then SaturatingSub(index, pageSize - 1)
    else offset
  }

  /** `select_all` before it is collected: the indices `0 .. max - 1`. */
  ghost predicate AllBelow(s: set<nat>, max: nat)
  {
    forall j: nat :: j in s <==> j < max
  }

  /** `toggle_selection` on the set: the cursor's row flips, every other row stays. */
  function Toggled(s: set<nat>, i: nat): (r: set<nat>)
    ensures i in r <==> i !in s
    ensures forall j | j != i :: j in r <==> j in s
  {
    if i in s then s - {i} else s + {i}
  }

  /** Toggling the same row twice restores the selection. */
  lemma ToggleTwice(s: set<nat>, i: nat)
    ensures Toggled(Toggled(s, i), i) == s
  {
    var once := Toggled(s, i);
    var twice := Toggled(once, i);
    assert forall j :: j in twice <==> j in s;
  }

  /** `SelectionState`: the cursor row, the first row shown, and the marked rows. */
  class SelectionState {
    var index: nat
    var offset: nat
    var selected: set<nat>

    constructor ()
      ensures index == 0 && offset == 0 && selected == {}
    {
      index := 0;
      offset := 0;
      selected := {};
    }

    /** The cursor lies on one of `max` rows, inside the window of `pageSize` rows. */
    predicate Shows(max: nat, pageSize: nat)
      reads this
    {
      index < max && offset <= index && (pageSize > 0 ==> index < offset + pageSize)
    }

    method AdjustOffset(pageSize: nat)
      modifies this
      ensures offset == AdjustedOffset(index, old(offset), pageSize)
      ensures index == old(index) && selected == old(selected)
    {
      if index < offset {
        offset := index;
      } else if pageSize > 0 && index >= offset + pageSize {
        offset := SaturatingSub(index, pageSize - 1);
      }
    }

    /** `next`: one row down, stopping at the last row; nothing on an empty list. */
    method Next(max: nat, pageSize: nat)
      modifies this
      ensures max == 0 ==> index == old(index) && offset == old(offset)
      ensures max > 0 ==> index == Min(old(index) + 1, max - 1) && Shows(max, pageSize)
      ensures max > 0 ==> offset == AdjustedOffset(index, old(offset), pageSize)
      ensures selected == old(selected)
    {
      if max == 0 {
        return;
      }
      index := Min(index + 1, max - 1);
      AdjustOffset(pageSize);
    }

    /** `previous`: one row up, stopping at the first row. */
    method Previous()
      modifies this
      ensures index == SaturatingSub(old(index), 1) && offset <= index
      ensures offset == AdjustedOffset(index, old(offset), 0)
      ensures selected == old(selected)
    {
      index := SaturatingSub(index, 1);
      AdjustOffset(0);
    }

    /** `top`: the first row, shown at the top. */
    method Top()
      modifies this
      ensures index == 0 && offset == 0 && selected == old(selected)
    {
      index := 0;
      offset := 0;
    }

    /**
     * `bottom`: the last row; the window moves to end at it when the cursor
     * would fall below it. With a page of no rows the offset passes the
     * cursor.
     */
    method Bottom(max: nat, pageSize: nat)
      modifies this
      ensures max == 0 ==> index == old(index) && offset == old(offset)
      ensures max > 0 ==> index == max - 1
      ensures max > 0 ==> offset == if index >= old(offset) + pageSize then SaturatingSub(max, pageSize) else old(offset)
      ensures max > 0 && pageSize > 0 && old(offset) <= max - 1 ==> Shows(max, pageSize)
      ensures max > 0 && pageSize == 0 && old(offset) <= max - 1 ==> offset == max
      ensures selected == old(selected)
    {
      if max == 0 {
        return;
      }
      index := max - 1;
      if index >= offset + pageSize {
        offset := SaturatingSub(max, pageSize);
      }
    }

    /** `page_down`: a page of rows down, stopping at the last row; nothing on an empty list. */
    method PageDown(max: nat, pageSize: nat)
      modifies this
      ensures max == 0 ==> index == old(index) && offset == old(offset)
      ensures max > 0 ==> index == Min(old(index) + pageSize, max - 1) && Shows(max, pageSize)
      ensures max > 0 ==> offset == AdjustedOffset(index, old(offset), pageSize)
      ensures selected == old(selected)
    {
      if max == 0 {
        return;
      }
      index := Min(index + pageSize, max - 1);
      AdjustOffset(pageSize);
    }

    /** `page_up`: ten rows up, stopping at the first row. */
    method PageUp()
      modifies this
      ensures index == SaturatingSub(old(index), 10) && offset <= index
      ensures offset == AdjustedOffset(index, old(offset), 0)
      ensures selected == old(selected)
    {
      index := SaturatingSub(index, 10);
      AdjustOffset(0);
    }

    method ToggleSelection()
      modifies this
      ensures selected == Toggled(old(selected), index)
      ensures index == old(index) && offset == old(offset)
    {
      if index in selected {
        selected := selected - {index};
      } else {
        selected := selected + {index};
      }
    }

    /** `select_all`: `(0..max).collect()`. */
    method SelectAll(max: nat)
      modifies this
      ensures AllBelow(selected, max)
      ensures index == old(index) && offset == old(offset)
    {
      var s: set<nat> := {};
      var k := 0;
      while k < max
        invariant k <= max
        invariant AllBelow(s, k)
      {
        s := s + {k};
        k := k + 1;
      }
      selected := s;
    }

    method DeselectAll()
      modifies this
      ensures selected == {} && index == old(index) && offset == old(offset)
    {
      selected := {};
    }
  }

  // ---------------------------------------------------------------------------
  // Filter

  /** `FilterState`. */
  datatype FilterState = FilterState(
    showClosed: bool,
    enabledStatuses: set<Status>,
    enabledTypes: set<IssueType>,
    enabledLabels: set<string>,
    readyOnly: bool,
    showBlocked: bool)

  lemma EveryType(t: IssueType)
    ensures t in {Bug, Feature, Task, Epic, Chore}
  {
  }

  /** `FilterState::new`: the open statuses and every type, no label, nothing else. */
  function NewFilter(): (f: FilterState)
    ensures forall s :: s in f.enabledStatuses <==> IsOpen(s)
    ensures forall t: IssueType :: t in f.enabledTypes
    ensures f.enabledLabels == {} && !f.showClosed && !f.readyOnly && !f.showBlocked
  {
    var types := {Bug, Feature, Task, Epic, Chore};
    assert forall t: IssueType :: t in types by {
      forall t: IssueType ensures t in types {
        EveryType(t);
      }
    }
    FilterState(false, {Open, InProgress, Blocked}, types, {}, false, false)
  }

  /** The query occurs, ignoring case, in the title, the id or the description. */
  predicate QueryHits(issue: Issue, query: string)
  {
    var q := Lower(query);
    Contains(Lower(issue.title), q) || Contains(Lower(issue.id), q)
    || (issue.description.Some? && Contains(Lower(issue.description.value), q))
  }

  /**
   * `FilterState::matches`, check by check. Blocked-ness is asked of an empty
   * list of issues, as the source does.
   */
  predicate Matches(f: FilterState, issue: Issue, query: string)
  {
    if !f.showClosed && IsClosed(issue.status) then false
    else if issue.status !in f.enabledStatuses then false
    else if issue.issueType !in f.enabledTypes then false
    else if f.enabledLabels != {} && !(exists k | 0 <= k < |issue.labels| :: issue.labels[k] in f.enabledLabels) then false
    else if f.readyOnly && IsBlockedBy(issue, []) then false
    else if f.showBlocked && !IsBlockedBy(issue, []) then false
    else if query != [] && !QueryHits(issue, query) then false
    else true
  }

  /** Nothing is blocked by an empty list of issues. */
  lemma NeverBlockedByNothing(issue: Issue)
    ensures !IsBlockedBy(issue, [])
  {
  }

  /**
   * What a match means: status shown and enabled, type enabled, some enabled
   * label when labels are filtered, the query found when there is one, and
   * `show_blocked` off.
   */
  lemma MatchesIff(f: FilterState, issue: Issue, query: string)
    ensures Matches(f, issue, query) <==>
      (f.showClosed || !IsClosed(issue.status))
      && issue.status in f.enabledStatuses
      && issue.issueType in f.enabledTypes
      && (f.enabledLabels == {} || exists k | 0 <= k < |issue.labels| :: issue.labels[k] in f.enabledLabels)
      && !f.showBlocked
      && (query == [] || QueryHits(issue, query))
  {
    NeverBlockedByNothing(issue);
  }

  /** `ready_only` never hides an issue, since blocked-ness is judged against no issues. */
  lemma ReadyOnlyNoEffect(f: FilterState, issue: Issue, query: string)
    ensures Matches(f.(readyOnly := true), issue, query) == Matches(f.(readyOnly := false), issue, query)
  {
    NeverBlockedByNothing(issue);
  }

  /** `show_blocked` hides every issue, for the same reason. */
  lemma ShowBlockedHidesAll(f: FilterState, issue: Issue, query: string)
    requires f.showBlocked
    ensures !Matches(f, issue, query)
  {
    NeverBlockedByNothing(issue);
  }

  /** The initial filter with no query shows exactly the open issues. */
  lemma NewFilterShowsOpen(issue: Issue)
    ensures Matches(NewFilter(), issue, []) <==> IsOpen(issue.status)
  {
    NeverBlockedByNothing(issue);
    OpenClosedPartition(issue.status);
  }

  // ---------------------------------------------------------------------------
  // Issue form

  /** The Up key on the priority field: `saturating_add(1).min(4)`. */
  function PriorityUp(p: u8): (r: u8)
    ensures r <= 4
    ensures p < 4 ==> r == p + 1
    ensures p >= 4 ==> r == 4
  {
    var added := if p < 0xFF then p + 1 else 0xFF;
    if added <= 4 then added else 4
  }

  /** The Down key on the priority field: `saturating_sub(1)`. */
  function PriorityDown(p: u8): (r: u8)
    ensures p > 0 ==> r + 1 == p
    ensures p == 0 ==> r == 0
  {
    if p > 0 then p - 1 else 0
  }

  /** Down undoes Up below the top priority, and Up undoes Down above zero. */
  lemma PriorityStepsUndo(p: u8)
    ensures p < 4 ==> PriorityDown(PriorityUp(p)) == p
    ensures 0 < p <= 4 ==> PriorityUp(PriorityDown(p)) == p
  {
  }

  /** `IssueForm`, as far as the priority field goes. */
  class IssueForm {
    var priority: u8

    /** `IssueForm::new`: priority 2. */
    constructor ()
      ensures priority == 2
    {
      priority := 2;
    }

    /** Up or Down on the priority field; a priority in 0..4 stays in 0..4. */
    method StepPriority(up: bool)
      modifies this
      ensures priority == if up then PriorityUp(old(priority)) else PriorityDown(old(priority))
      ensures old(priority) <= 4 ==> priority <= 4
    {
      if up {
        priority := PriorityUp(priority);
      } else {
        priority := PriorityDown(priority);
      }
    }
  }
}
