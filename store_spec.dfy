/**
 * The in-memory issue map that both storage backends keep (`HashMap<String, Issue>`
 * in crates/trx-core/src/store.rs and crates/trx-core/src/crdt_store.rs), and the
 * effect of each operation on it. The two store classes are proved to change
 * their maps exactly as these functions say.
 */
module StoreSpec {
  import opened Wrappers
  import opened Text
  import opened Issues
  import opened Ids

  type IssueMap = map<string, Issue>

  /** Every entry is filed under its own id, as every insertion of the source does. */
  predicate Keyed(m: IssueMap)
  {
    forall k | k in m :: m[k].id == k
  }

  /** `get(id)`. */
  function Lookup(m: IssueMap, id: string): (r: Option<Issue>)
    ensures r.Some? <==> id in m
    ensures r.Some? ==> r.value == m[id] && (Keyed(m) ==> r.value.id == id)
  {
    if id in m then Some(m[id]) else None
  }

  /** `create(issue)`: refuse an id already present, otherwise insert. */
  function CreateEffect(m: IssueMap, issue: Issue): (res: (Outcome, IssueMap))
    ensures res.0 == Pass <==> issue.id !in m
    ensures res.0.Fail? ==> res.0.error == AlreadyExists(issue.id) && res.1 == m
    ensures res.0.Pass? ==>
      res.1.Keys == m.Keys + {issue.id} && res.1[issue.id] == issue
      && forall k | k in m :: res.1[k] == m[k]
    ensures Keyed(m) ==> Keyed(res.1)
  {
    if issue.id in m then (Fail(AlreadyExists(issue.id)), m)
    else (Pass, m[issue.id := issue])
  }

  /** `update(issue)`: refuse a missing id, otherwise replace that one entry. */
  function UpdateEffect(m: IssueMap, issue: Issue): (res: (Outcome, IssueMap))
    ensures res.0 == Pass <==> issue.id in m
    ensures res.0.Fail? ==> res.0.error == NotFound(issue.id) && res.1 == m
    ensures res.1.Keys == m.Keys
    ensures res.0.Pass? ==>
      res.1[issue.id] == issue && forall k | k in m && k != issue.id :: res.1[k] == m[k]
    ensures Keyed(m) ==> Keyed(res.1)
  {
    if issue.id !in m then (Fail(NotFound(issue.id)), m)
    else (Pass, m[issue.id := issue])
  }

  /** `delete(id, by, reason)`: tombstone the entry in place; no key is ever removed. */
  function DeleteEffect(m: IssueMap, id: string, deleter: Option<string>, reason: Option<string>,
                        now: Timestamp): (res: (Outcome, IssueMap))
    ensures res.0 == Pass <==> id in m
    ensures res.0.Fail? ==> res.0.error == NotFound(id) && res.1 == m
    ensures res.1.Keys == m.Keys
    ensures res.0.Pass? ==>
      res.1[id] == Issues.Delete(m[id], deleter, reason, now) && res.1[id].status == Tombstone
      && forall k | k in m && k != id :: res.1[k] == m[k]
    ensures Keyed(m) ==> Keyed(res.1)
  {
    if id !in m then (Fail(NotFound(id)), m)
    else (Pass, m[id := Issues.Delete(m[id], deleter, reason, now)])
  }

  /** `list(include_tombstones)`, without the map's iteration order. */
  function ListView(m: IssueMap, includeTombstones: bool): (r: set<Issue>)
    ensures forall i :: i in r <==> i in m.Values && (includeTombstones || i.status != Tombstone)
  {
    set k | k in m && (includeTombstones || m[k].status != Tombstone) :: m[k]
  }

  /** `list_open()`. */
  function OpenView(m: IssueMap): (r: set<Issue>)
    ensures forall i :: i in r <==> i in m.Values && IsOpen(i.status)
  {
    set k | k in m && IsOpen(m[k].status) :: m[k]
  }

  /** Open issues are never tombstones, and the full list is every stored issue. */
  lemma ViewsNested(m: IssueMap)
    ensures OpenView(m) <= ListView(m, false) <= ListView(m, true) == m.Values
    ensures ListView(m, true) - ListView(m, false) == set i | i in m.Values && i.status == Tombstone
  {
  }

  /** With entries filed under their ids, `list(true)` has one issue per key. */
  lemma {:induction false} ListCount(m: IssueMap)
    requires Keyed(m)
    ensures |ListView(m, true)| == |m|
    decreases |m|
  {
    if m != map[] {
      var k :| k in m;
      var rest := m - {k};
      ListCount(rest);
      var all, others := ListView(m, true), ListView(rest, true);
      forall i | i in all ensures i in others + {m[k]} {
        var j :| j in m && m[j] == i;
        if j != k { assert rest[j] == i; }
      }
      assert all == others + {m[k]};
      assert m[k] !in others;
      assert |rest.Keys| == |m.Keys - {k}| == |m.Keys| - 1;
    }
  }

  /** A successful create adds exactly the new issue to the full list. */
  lemma CreateLists(m: IssueMap, issue: Issue)
    requires Keyed(m) && issue.id !in m
    ensures ListView(CreateEffect(m, issue).1, true) == ListView(m, true) + {issue}
  {
    var m' := CreateEffect(m, issue).1;
    forall i | i in ListView(m', true) ensures i in ListView(m, true) + {issue} {
      var k :| k in m' && m'[k] == i;
    }
  }

  /** A successful delete takes exactly that issue out of the default list. */
  lemma DeleteHides(m: IssueMap, id: string, deleter: Option<string>, reason: Option<string>,
                    now: Timestamp)
    requires Keyed(m) && id in m
    ensures var m' := DeleteEffect(m, id, deleter, reason, now).1;
      ListView(m', false) == ListView(m, false) - {m[id]}
      && m'[id] in ListView(m', true) && m'[id] !in OpenView(m')
  {
    var m' := DeleteEffect(m, id, deleter, reason, now).1;
    forall i | i in ListView(m', false) ensures i in ListView(m, false) - {m[id]} {
      var k :| k in m' && m'[k] == i;
    }
    forall i | i in ListView(m, false) - {m[id]} ensures i in ListView(m', false) {
      var k :| k in m && m[k] == i;
      assert m'[k] == i;
    }
  }

  // ---------------------------------------------------------------------------
  // Iteration order

  /** `order` lists every name of `names` exactly once. */
  predicate Enumerates(order: seq<string>, names: set<string>)
  {
    (forall k | 0 <= k < |order| :: order[k] in names)
    && (forall n | n in names :: n in order)
    && (forall i, j | 0 <= i < j < |order| :: order[i] != order[j])
  }

  /**
   * The order in which a `HashMap` hands out its keys: unspecified, so each
   * next key is any one not yet handed out.
   */
  method IterationOrder(keys: set<string>) returns (order: seq<string>)
    ensures Enumerates(order, keys)
  {
    order := [];
    var rest := keys;
    while rest != {}
      invariant rest <= keys
      invariant forall k | 0 <= k < |order| :: order[k] in keys && order[k] !in rest
      invariant forall n | n in keys :: n in rest || n in order
      invariant forall i, j | 0 <= i < j < |order| :: order[i] != order[j]
      decreases |rest|
    {
      var k :| k in rest;
      order := order + [k];
      rest := rest - {k};
    }
  }

  /** An enumeration lists each name once, so it is as long as the set. */
  lemma {:induction false} EnumeratesCard(order: seq<string>, names: set<string>)
    requires Enumerates(order, names)
    ensures |order| == |names|
    decreases |order|
  {
    if order == [] {
      assert names == {};
    } else {
      var n := |order| - 1;
      var front := order[..n];
      assert forall k | 0 <= k < n :: front[k] != order[n];
      assert Enumerates(front, names - {order[n]});
      EnumeratesCard(front, names - {order[n]});
    }
  }

  /** The issues of the map in the iteration order `order`. */
  function ValuesIn(m: IssueMap, order: seq<string>): (r: seq<Issue>)
    requires forall k | 0 <= k < |order| :: order[k] in m
    ensures |r| == |order| && forall k | 0 <= k < |order| :: r[k] == m[order[k]]
  {
    seq(|order|, k requires 0 <= k < |order| => m[order[k]])
  }

  /** Listed in any iteration order, the map's values are exactly its issues. */
  lemma ValuesInMembers(m: IssueMap, order: seq<string>)
    requires Enumerates(order, m.Keys)
    ensures forall i :: i in ValuesIn(m, order) <==> i in m.Values
  {
    forall i | i in m.Values ensures i in ValuesIn(m, order) {
      var k :| k in m && m[k] == i;
      var j :| 0 <= j < |order| && order[j] == k;
      assert ValuesIn(m, order)[j] == i;
    }
  }

  // ---------------------------------------------------------------------------
  // next_child_num

  /** The number of a direct child of `parentId`: `parent.` and a dot-free suffix that parses. */
  function ChildNumber(key: string, parentId: string): (r: Option<u32>)
    ensures r.Some? ==> StartsWith(key, parentId + ".") && '.' !in key[|parentId| + 1..]
  {
    if StartsWith(key, parentId + ".") && '.' !in key[|parentId| + 1..]
    then ParseU32(key[|parentId| + 1..])
    else None
  }

  /** `ChildNumber` with the parent fixed, as the function the scan applies to every key. */
  function ChildNumberOf(parentId: string): string -> Option<u32>
  {
    k => ChildNumber(k, parentId)
  }

  /** The numbers `num` finds among `keys`. */
  ghost function Numbers(keys: set<string>, num: string -> Option<u32>): set<u32>
  {
    set k | k in keys && num(k).Some? :: num(k).value
  }

  /** The numbers of the direct children of `parentId` among `keys`. */
  ghost function ChildNumbers(keys: set<string>, parentId: string): (ns: set<u32>)
    ensures forall k | k in keys && ChildNumber(k, parentId).Some? :: ChildNumber(k, parentId).value in ns
  {
    Numbers(keys, ChildNumberOf(parentId))
  }

  /** `.max().unwrap_or(0)`. */
  ghost function MaxOf(s: set<u32>): (r: u32)
    ensures s == {} ==> r == 0
    ensures s != {} ==> r in s && forall y | y in s :: y <= r
  {
    if s == {} then 0
    else
      var x :| x in s;
      var rest := MaxOf(s - {x});
      assert forall y | y in s :: y == x || y in s - {x};
      if s - {x} == {} || rest < x then x else rest
  }

  /**
   * `next_child_num(parent)`: one more than the largest direct-child suffix.
   * The addition is `u32`; this is the wrap-around of a release build.
   */
  ghost function NextChildNum(keys: set<string>, parentId: string): u32
  {
    var max := MaxOf(ChildNumbers(keys, parentId));
    if max == 0xFFFF_FFFF then 0 else max + 1
  }

  /**
   * `next_child_num(parent)` as the source computes it: the keys are visited in
   * the map's order, the direct-child suffixes parsed and their maximum kept.
   */
  method ComputeNextChildNum(keys: set<string>, parentId: string) returns (next: u32)
    ensures next == NextChildNum(keys, parentId)
  {
    var max := MaxNumber(keys, ChildNumberOf(parentId));
    next := if max == 0xFFFF_FFFF then 0 else max + 1;
  }

  /** The scan of `next_child_num`: the largest number `num` finds among `keys`, or 0. */
  method MaxNumber(keys: set<string>, num: string -> Option<u32>) returns (max: u32)
    ensures max == MaxOf(Numbers(keys, num))
  {
    max := 0;
    var done: set<string> := {};
    while done != keys
      invariant done <= keys
      invariant max == MaxOf(Numbers(done, num))
      decreases |keys - done|
    {
      var k :| k in keys - done;
      var n := num(k);
      MaxNumberStep(done, k, num);
      if n.Some? && max < n.value {
        max := n.value;
      }
      done := done + {k};
    }
  }

  /** One more key raises the maximum to its number when that is larger. */
  lemma MaxNumberStep(done: set<string>, k: string, num: string -> Option<u32>)
    ensures MaxOf(Numbers(done + {k}, num)) ==
      if num(k).Some? && MaxOf(Numbers(done, num)) < num(k).value then num(k).value
      else MaxOf(Numbers(done, num))
  {
    NumbersAdd(done, k, num);
    if num(k).Some? {
      MaxOfAdd(Numbers(done, num), num(k).value);
    }
  }

  /** Scanning one more key adds its number, if it has one. */
  lemma NumbersAdd(keys: set<string>, k: string, num: string -> Option<u32>)
    ensures Numbers(keys + {k}, num) == Numbers(keys, num) + (if num(k).Some? then {num(k).value} else {})
  {
  }

  /** Adding `x` to a set raises its maximum to `x` or leaves it. */
  lemma MaxOfAdd(s: set<u32>, x: u32)
    ensures MaxOf(s + {x}) == if s == {} || MaxOf(s) < x then x else MaxOf(s)
  {
    MaxOfUnique(s + {x}, if s == {} || MaxOf(s) < x then x else MaxOf(s));
  }

  /** The maximum is the one element of the set that bounds all the others. */
  lemma MaxOfUnique(s: set<u32>, max: u32)
    requires (s == {} && max == 0) || (max in s && forall y | y in s :: y <= max)
    ensures MaxOf(s) == max
  {
  }

  /**
   * Below the `u32` ceiling the next number exceeds every direct child's number,
   * so the child id it names is not yet taken.
   */
  lemma NextChildNumFresh(keys: set<string>, parentId: string)
    requires MaxOf(ChildNumbers(keys, parentId)) < 0xFFFF_FFFF
    ensures var next := NextChildNum(keys, parentId);
      next >= 1
      && (forall k | k in keys && ChildNumber(k, parentId).Some? :: ChildNumber(k, parentId).value < next)
      && ChildId(parentId, next) !in keys
  {
    var ns := ChildNumbers(keys, parentId);
    var next := MaxOf(ns) + 1;
    assert next == NextChildNum(keys, parentId);
    ChildNumberOfChildId(parentId, next);
    if ChildId(parentId, next) in keys {
      assert false;
    }
  }

  /** A generated child id is a direct child carrying its number. */
  lemma ChildNumberOfChildId(parentId: string, n: u32)
    ensures ChildNumber(ChildId(parentId, n), parentId) == Some(n)
  {
    ChildIdShape(parentId, n);
  }

  /** No direct child at all gives 1. */
  lemma NextChildNumFirst(keys: set<string>, parentId: string)
    requires forall k | k in keys :: !StartsWith(k, parentId + ".")
    ensures NextChildNum(keys, parentId) == 1
  {
    assert ChildNumbers(keys, parentId) == {};
  }

  /** The suffix of a key written as `parent.` + `suffix`. */
  lemma ChildNumberOfSuffix(parentId: string, suffix: string)
    ensures ChildNumber(parentId + "." + suffix, parentId)
      == if '.' in suffix then None else ParseU32(suffix)
  {
    var key := parentId + "." + suffix;
    assert key[..|parentId| + 1] == parentId + ".";
    assert key[|parentId| + 1..] == suffix;
  }

  /** No dot at or after position `from`. */
  lemma NoDotAfter(s: string, from: nat)
    requires from <= |s| && '.' !in s[from..]
    ensures forall k | from <= k < |s| :: s[k] != '.'
  {
    forall k | from <= k < |s| ensures s[k] != '.' {
      assert s[k] == s[from..][k - from];
    }
  }

  /** A child id is a direct child of its own parent only: a grandchild of `p`, say, is not. */
  lemma OnlyOwnParent(p: string, other: string, n: u32)
    ensures ChildNumber(ChildId(other, n), p).Some? ==> other == p
  {
    var c := ChildId(other, n);
    if ChildNumber(c, p).Some? {
      ChildIdShape(other, n);
      NoDotAfter(c, |other| + 1);
      NoDotAfter(c, |p| + 1);
      assert c[|other|] == '.';
      assert c[|p|] == (p + ".")[|p|];
      assert |other| == |p|;
      assert c[..|p|] == p;
      assert c[..|other|] == other;
    }
  }

  /**
   * Children `a` and `b` give `b + 1`; the grandchild `p.a.c`, a suffix that is
   * not a number and the children of another parent are ignored.
   */
  lemma NextChildNumExample(p: string, other: string, bad: string, a: u32, b: u32, c: u32)
    requires p != other && '.' !in bad && ParseU32(bad) == None
    requires a <= b < 0xFFFF_FFFF
    ensures NextChildNum({ChildId(p, a), ChildId(p, b), ChildId(ChildId(p, a), c), p + "." + bad,
                          ChildId(other, c)}, p) == b + 1
  {
    ChildNumbersExample(p, other, bad, a, b, c);
    NextOfTwoNumbers({ChildId(p, a), ChildId(p, b), ChildId(ChildId(p, a), c), p + "." + bad, ChildId(other, c)},
                     p, a, b);
  }

  /** Direct-child numbers `a <= b` below the ceiling give `b + 1`. */
  lemma NextOfTwoNumbers(keys: set<string>, p: string, a: u32, b: u32)
    requires ChildNumbers(keys, p) == {a, b} && a <= b < 0xFFFF_FFFF
    ensures NextChildNum(keys, p) == b + 1
  {
    MaxOfUnique({a, b}, b);
  }

  lemma ChildNumbersExample(p: string, other: string, bad: string, a: u32, b: u32, c: u32)
    requires p != other && '.' !in bad && ParseU32(bad) == None
    ensures ChildNumbers({ChildId(p, a), ChildId(p, b), ChildId(ChildId(p, a), c), p + "." + bad,
                          ChildId(other, c)}, p) == {a, b}
  {
    ExampleKeyNumbers(p, other, bad, a, b, c);
    NumbersOfFive(ChildId(p, a), ChildId(p, b), ChildId(ChildId(p, a), c), p + "." + bad, ChildId(other, c),
                  ChildNumberOf(p), a, b);
  }

  /** Five keys of which the first two carry numbers collect exactly those two numbers. */
  lemma NumbersOfFive(k1: string, k2: string, k3: string, k4: string, k5: string,
                      num: string -> Option<u32>, a: u32, b: u32)
    requires num(k1) == Some(a) && num(k2) == Some(b)
    requires num(k3) == None && num(k4) == None && num(k5) == None
    ensures Numbers({k1, k2, k3, k4, k5}, num) == {a, b}
  {
    assert Numbers({}, num) == {};
    NumbersAdd({}, k1, num);
    assert {} + {k1} == {k1};
    NumbersAdd({k1}, k2, num);
    assert {k1} + {k2} == {k1, k2};
    NumbersAdd({k1, k2}, k3, num);
    assert {k1, k2} + {k3} == {k1, k2, k3};
    NumbersAdd({k1, k2, k3}, k4, num);
    assert {k1, k2, k3} + {k4} == {k1, k2, k3, k4};
    NumbersAdd({k1, k2, k3, k4}, k5, num);
    assert {k1, k2, k3, k4} + {k5} == {k1, k2, k3, k4, k5};
  }

  /** What `ChildNumber` makes of each key of the example. */
  lemma ExampleKeyNumbers(p: string, other: string, bad: string, a: u32, b: u32, c: u32)
    requires p != other && '.' !in bad && ParseU32(bad) == None
    ensures ChildNumber(ChildId(p, a), p) == Some(a) && ChildNumber(ChildId(p, b), p) == Some(b)
    ensures ChildNumber(ChildId(ChildId(p, a), c), p) == None
    ensures ChildNumber(p + "." + bad, p) == None
    ensures ChildNumber(ChildId(other, c), p) == None
  {
    ChildNumberOfChildId(p, a);
    ChildNumberOfChildId(p, b);
    ChildIdShape(p, a);
    OnlyOwnParent(p, ChildId(p, a), c);
    ChildNumberOfSuffix(p, bad);
    OnlyOwnParent(p, other, c);
  }
}
