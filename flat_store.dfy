/**
 * The flat-file store of storage version 1 (crates/trx-core/src/store.rs): the
 * issue map, loaded from and saved to `.trx/issues.jsonl`, one JSON object per
 * line. JSON itself is a pair of parameters: `decode` for `serde_json::from_str`
 * and `encode` for `serde_json::to_writer`.
 */
module FlatStore {
  import opened Wrappers
  import opened Text
  import opened Issues
  import opened StoreSpec

  // ---------------------------------------------------------------------------
  // Loading

  /** Reading the lines in order: blank lines are skipped, a later line replaces an earlier one. */
  function LoadLines(m: IssueMap, lines: seq<string>, decode: string -> Option<Issue>): (res: (Outcome, IssueMap))
    ensures res.0.Fail? ==> res.0.error.Json?
    ensures Keyed(m) ==> Keyed(res.1)
    decreases |lines|
  {
    if lines == [] then (Pass, m)
    else if Blank(lines[0]) then LoadLines(m, lines[1..], decode)
    else match decode(lines[0])
      case None => (Fail(Json(lines[0])), m)
      case Some(issue) => LoadLines(m[issue.id := issue], lines[1..], decode)
  }

  /** Every non-blank line holds a valid issue. */
  predicate Decodes(lines: seq<string>, decode: string -> Option<Issue>)
  {
    forall j | 0 <= j < |lines| && !Blank(lines[j]) :: decode(lines[j]).Some?
  }

  /** The line is not blank and holds the issue with id `k`. */
  predicate CarriesId(line: string, decode: string -> Option<Issue>, k: string)
  {
    !Blank(line) && decode(line).Some? && decode(line).value.id == k
  }

  /** Loading fails exactly when some non-blank line is not a valid issue. */
  lemma {:induction false} LoadPasses(m: IssueMap, lines: seq<string>, decode: string -> Option<Issue>)
    ensures LoadLines(m, lines, decode).0 == Pass <==> Decodes(lines, decode)
    decreases |lines|
  {
    if lines != [] {
      if Blank(lines[0]) {
        LoadPasses(m, lines[1..], decode);
      } else if decode(lines[0]).Some? {
        LoadPasses(m[decode(lines[0]).value.id := decode(lines[0]).value], lines[1..], decode);
      }
      if Decodes(lines[1..], decode) && (Blank(lines[0]) || decode(lines[0]).Some?) {
        forall j | 0 <= j < |lines| && !Blank(lines[j]) ensures decode(lines[j]).Some? {
          if j > 0 { assert lines[j] == lines[1..][j - 1]; }
        }
      }
      if Decodes(lines, decode) {
        forall j | 0 <= j < |lines| - 1 && !Blank(lines[1..][j]) ensures decode(lines[1..][j]).Some? {
          assert lines[1..][j] == lines[j + 1];
        }
      }
    }
  }

  /** A blank line anywhere is skipped. */
  lemma {:induction false} LoadSkipsBlank(m: IssueMap, a: seq<string>, blank: string, b: seq<string>,
                                          decode: string -> Option<Issue>)
    requires Blank(blank)
    ensures LoadLines(m, a + [blank] + b, decode) == LoadLines(m, a + b, decode)
    decreases |a|
  {
    if a == [] {
      assert (a + [blank] + b)[1..] == a + b;
    } else {
      assert (a + [blank] + b)[0] == (a + b)[0] == a[0];
      assert (a + [blank] + b)[1..] == a[1..] + [blank] + b;
      assert (a + b)[1..] == a[1..] + b;
      if decode(a[0]).Some? {
        LoadSkipsBlank(m[decode(a[0]).value.id := decode(a[0]).value], a[1..], blank, b, decode);
      }
      LoadSkipsBlank(m, a[1..], blank, b, decode);
    }
  }

  /** Lines for other ids leave the entry for `k` as it was. */
  lemma {:induction false} LoadKeeps(m: IssueMap, lines: seq<string>, decode: string -> Option<Issue>, k: string)
    requires Decodes(lines, decode)
    requires forall j | 0 <= j < |lines| :: !CarriesId(lines[j], decode, k)
    ensures var m' := LoadLines(m, lines, decode).1;
      (k in m' <==> k in m) && (k in m ==> m'[k] == m[k])
    decreases |lines|
  {
    if lines != [] {
      assert Decodes(lines[1..], decode) by {
        forall j | 0 <= j < |lines| - 1 && !Blank(lines[1..][j]) ensures decode(lines[1..][j]).Some? {
          assert lines[1..][j] == lines[j + 1];
        }
      }
      assert forall j | 0 <= j < |lines| - 1 :: lines[1..][j] == lines[j + 1];
      assert !CarriesId(lines[0], decode, k);
      if Blank(lines[0]) {
        LoadKeeps(m, lines[1..], decode, k);
      } else {
        var issue := decode(lines[0]).value;
        LoadKeeps(m[issue.id := issue], lines[1..], decode, k);
      }
    }
  }

  /** When two lines carry the same id, the later line wins. */
  lemma {:induction false} LaterLineWins(m: IssueMap, lines: seq<string>, decode: string -> Option<Issue>, j: nat)
    requires Decodes(lines, decode)
    requires j < |lines| && !Blank(lines[j]) && decode(lines[j]).Some?
    requires forall j' | j < j' < |lines| :: !CarriesId(lines[j'], decode, decode(lines[j]).value.id)
    ensures var res := LoadLines(m, lines, decode);
      res.0 == Pass && decode(lines[j]).value.id in res.1
      && res.1[decode(lines[j]).value.id] == decode(lines[j]).value
    decreases |lines|
  {
    var winner := decode(lines[j]).value;
    LoadPasses(m, lines, decode);
    assert Decodes(lines[1..], decode) by {
      forall i | 0 <= i < |lines| - 1 && !Blank(lines[1..][i]) ensures decode(lines[1..][i]).Some? {
        assert lines[1..][i] == lines[i + 1];
      }
    }
    assert forall i | 0 <= i < |lines| - 1 :: lines[1..][i] == lines[i + 1];
    if j == 0 {
      LoadKeeps(m[winner.id := winner], lines[1..], decode, winner.id);
    } else if Blank(lines[0]) {
      LaterLineWins(m, lines[1..], decode, j - 1);
    } else {
      var first := decode(lines[0]).value;
      LaterLineWins(m[first.id := first], lines[1..], decode, j - 1);
    }
  }

  // ---------------------------------------------------------------------------
  // Saving, and loading what was saved

  /** `serde_json::to_writer` prints one non-blank line, without a newline or a final `\r`. */
  ghost predicate WellEncoded(encode: Issue -> string)
  {
    forall i: Issue :: '\n' !in encode(i) && encode(i) != [] && !Blank(encode(i)) && encode(i)[|encode(i)| - 1] != '\r'
  }

  /** Decoding gives back what was encoded. */
  ghost predicate RoundTrips(encode: Issue -> string, decode: string -> Option<Issue>)
  {
    forall i: Issue :: decode(encode(i)) == Some(i)
  }

  /** The lines `save` writes, for the map's iteration order `order`. */
  ghost function SavedLines(m: IssueMap, order: seq<string>, encode: Issue -> string): (r: seq<string>)
    requires forall j | 0 <= j < |order| :: order[j] in m
    ensures |r| == |order|
  {
    if order == [] then [] else [encode(m[order[0]])] + SavedLines(m, order[1..], encode)
  }

  /** The text of `issues.jsonl` after `save`: every line ends in `\n`. */
  ghost function SaveText(m: IssueMap, order: seq<string>, encode: Issue -> string): string
    requires forall j | 0 <= j < |order| :: order[j] in m
  {
    if order == [] then [] else encode(m[order[0]]) + "\n" + SaveText(m, order[1..], encode)
  }

  lemma {:induction false} LinesOfSaveText(m: IssueMap, order: seq<string>, encode: Issue -> string)
    requires forall j | 0 <= j < |order| :: order[j] in m
    requires WellEncoded(encode)
    ensures Lines(SaveText(m, order, encode)) == SavedLines(m, order, encode)
  {
    if order != [] {
      var line := encode(m[order[0]]);
      LinesOfJoined(line, SaveText(m, order[1..], encode));
      LinesOfSaveText(m, order[1..], encode);
    }
  }

  /** The entries of `m` whose keys occur in `order`. */
  ghost function Restrict(m: IssueMap, order: seq<string>): IssueMap
  {
    map k | k in m && k in order :: m[k]
  }

  lemma {:induction false} LoadSavedLines(acc: IssueMap, m: IssueMap, order: seq<string>,
                                          encode: Issue -> string, decode: string -> Option<Issue>)
    requires Keyed(m) && forall j | 0 <= j < |order| :: order[j] in m
    requires WellEncoded(encode) && RoundTrips(encode, decode)
    ensures LoadLines(acc, SavedLines(m, order, encode), decode)
      == (Pass, acc + Restrict(m, order))
    decreases |order|
  {
    if order == [] {
      assert Restrict(m, order) == map[];
      assert acc + map[] == acc;
    } else {
      var o := order[0];
      assert encode(m[o]) in [encode(m[o])];
      LoadSavedLines(acc[o := m[o]], m, order[1..], encode, decode);
      var lhs := acc[o := m[o]] + Restrict(m, order[1..]);
      var rhs := acc + Restrict(m, order);
      assert forall k :: k in order <==> k == o || k in order[1..];
      assert lhs.Keys == rhs.Keys;
      forall k | k in lhs ensures lhs[k] == rhs[k] {
        if k in order[1..] || k == o { assert k in order; }
      }
      assert lhs == rhs;
    }
  }

  /**
   * Loading the text `save` wrote gives back the map it saved, whatever the
   * iteration order, when every key of the map is written once or more.
   */
  lemma SaveThenLoad(m: IssueMap, order: seq<string>, encode: Issue -> string, decode: string -> Option<Issue>)
    requires Keyed(m)
    requires forall k :: k in m <==> k in order
    requires WellEncoded(encode) && RoundTrips(encode, decode)
    ensures LoadLines(map[], Lines(SaveText(m, order, encode)), decode) == (Pass, m)
  {
    LinesOfSaveText(m, order, encode);
    LoadSavedLines(map[], m, order, encode, decode);
    assert map[] + Restrict(m, order) == m;
  }

  // ---------------------------------------------------------------------------
  // The configured prefix

  /** The value of a `prefix = "..."` line: trimmed, with the quotes stripped. */
  function PrefixValue(line: string): (r: Option<string>)
    ensures r.Some? ==> StartsWith(line, "prefix")
  {
    match StripPrefix(line, "prefix")
    case None => None
    case Some(rest) =>
      match StripPrefix(Trim(rest), "=")
      case None => None
      case Some(value) => Some(TrimMatches(Trim(value), '"'))
  }

  /** The first value present, in order. */
  function FirstSome(values: seq<Option<string>>): Option<string>
  {
    if values == [] then None
    else if values[0].Some? then values[0]
    else FirstSome(values[1..])
  }

  /** `FirstSome` picks the first present value, and is absent only when all are. */
  lemma {:induction false} FirstSomeIsFirst(values: seq<Option<string>>)
    ensures FirstSome(values).None? <==> forall j | 0 <= j < |values| :: values[j].None?
    ensures FirstSome(values).Some? ==>
      exists j | 0 <= j < |values| :: values[j] == FirstSome(values)
        && forall i | 0 <= i < j :: values[i].None?
  {
    if values != [] && values[0].None? {
      FirstSomeIsFirst(values[1..]);
      assert forall j | 1 <= j < |values| :: values[j] == values[1..][j - 1];
      if FirstSome(values).Some? {
        var j :| 0 <= j < |values| - 1 && values[1..][j] == FirstSome(values)
          && forall i | 0 <= i < j :: values[1..][i].None?;
        assert values[j + 1] == FirstSome(values);
      }
    } else if values != [] {
      assert values[0] == FirstSome(values);
    }
  }

  /** The prefix value of each line. */
  function PrefixValues(lines: seq<string>): (r: seq<Option<string>>)
    ensures |r| == |lines|
  {
    seq(|lines|, j requires 0 <= j < |lines| => PrefixValue(lines[j]))
  }

  /** The prefix a configuration file gives: its first prefix line, or `trx`. */
  function ConfigPrefix(configText: string): string
  {
    match FirstSome(PrefixValues(Lines(configText)))
    case None => "trx"
    case Some(value) => value
  }

  const ConfigHeader: string := "# trx configuration"

  /** The `prefix` line `init` writes. */
  function PrefixLine(prefix: string): string
  {
    "prefix = \"" + prefix + "\""
  }

  /** Behind a line that does not start with `prefix`, the second line decides. */
  lemma ConfigOfTwoLines(header: string, line: string)
    requires '\n' !in header && (header == [] || header[|header| - 1] != '\r')
    requires '\n' !in line && (line == [] || line[|line| - 1] != '\r')
    requires !StartsWith(header, "prefix")
    ensures ConfigPrefix(header + "\n" + line + "\n") == match PrefixValue(line)
      case None => "trx"
      case Some(value) => value
  {
    LinesOfTwo(header, line);
    var values := PrefixValues(Lines(header + "\n" + line + "\n"));
    assert values == [None, PrefixValue(line)];
    assert values[1..] == [PrefixValue(line)];
    assert values[1..][1..] == [];
    assert FirstSome(values) == FirstSome(values[1..]) == PrefixValue(line);
  }

  lemma PrefixLineShape(prefix: string)
    requires '\n' !in prefix
    ensures '\n' !in PrefixLine(prefix) && PrefixLine(prefix)[|PrefixLine(prefix)| - 1] == '"'
  {
    var line := PrefixLine(prefix);
    forall k | 0 <= k < |line| ensures line[k] != '\n' {
      if 10 <= k < 10 + |prefix| { assert line[k] == prefix[k - 10]; }
    }
  }

  lemma PrefixLineValue(prefix: string)
    requires '"' !in prefix
    requires prefix == [] || (!IsWhitespace(prefix[0]) && !IsWhitespace(prefix[|prefix| - 1]))
    ensures PrefixValue(PrefixLine(prefix)) == Some(prefix)
  {
    var line := PrefixLine(prefix);
    var quoted := "\"" + prefix + "\"";
    assert line == "prefix" + (" " + ("=" + (" " + quoted)));
    assert StripPrefix(line, "prefix") == Some(" " + ("=" + (" " + quoted)));
    TrimLeadingSpace(" ", "=" + (" " + quoted));
    TrimUnchanged("=" + (" " + quoted));
    assert StripPrefix("=" + (" " + quoted), "=") == Some(" " + quoted);
    TrimLeadingSpace(" ", quoted);
    TrimUnchanged(quoted);
    TrimMatchesQuoted(prefix);
  }

  /** The header line of the configuration `init` writes sets nothing. */
  lemma HeaderIsComment()
    ensures !StartsWith(ConfigHeader, "prefix") && '\n' !in ConfigHeader
    ensures ConfigHeader[|ConfigHeader| - 1] != '\r'
  {
    assert ConfigHeader[0] == '#';
  }

  /**
   * The configuration `Store::init` writes, a header line such as `ConfigHeader`
   * and a quoted `prefix` line, gives back the prefix it was given.
   */
  lemma PrefixOfInitConfig(header: string, prefix: string)
    requires '\n' !in header && (header == [] || header[|header| - 1] != '\r')
    requires !StartsWith(header, "prefix")
    requires '\n' !in prefix && '"' !in prefix
    requires prefix == [] || (!IsWhitespace(prefix[0]) && !IsWhitespace(prefix[|prefix| - 1]))
    ensures ConfigPrefix(header + "\n" + PrefixLine(prefix) + "\n") == prefix
  {
    PrefixLineShape(prefix);
    ConfigOfTwoLines(header, PrefixLine(prefix));
    PrefixLineValue(prefix);
  }

  /** Without a line that sets it the prefix is `trx`. */
  lemma PrefixDefault(configText: string)
    requires forall j | 0 <= j < |Lines(configText)| :: !StartsWith(Lines(configText)[j], "prefix")
    ensures ConfigPrefix(configText) == "trx"
  {
    FirstSomeIsFirst(PrefixValues(Lines(configText)));
  }

  // ---------------------------------------------------------------------------
  // The store

  class Store {
    /** The in-memory `issues` map. */
    var issues: IssueMap
    /** What `issues.jsonl` holds: the map as the last `save` wrote it. */
    var persisted: IssueMap

    /** The state of `Store::open` before `load`. */
    constructor ()
      ensures issues == map[] && persisted == map[]
    {
      issues := map[];
      persisted := map[];
    }

    /** `load`: no file leaves the map alone; otherwise the lines are read in order. */
    method Load(content: Option<string>, decode: string -> Option<Issue>) returns (r: Outcome)
      modifies this
      ensures content.None? ==> r == Pass && issues == old(issues)
      ensures content.Some? ==> (r, issues) == LoadLines(old(issues), Lines(content.value), decode)
      ensures persisted == old(persisted)
    {
      if content.None? {
        return Pass;
      }
      var lines := Lines(content.value);
      var k := 0;
      while k < |lines|
        invariant 0 <= k <= |lines|
        invariant unchanged(`persisted)
        invariant LoadLines(old(issues), lines, decode) == LoadLines(issues, lines[k..], decode)
      {
        assert lines[k..][0] == lines[k] && lines[k..][1..] == lines[k + 1..];
        var line := lines[k];
        if !Blank(line) {
          match decode(line)
          case None =>
            return Fail(Json(line));
          case Some(issue) =>
            issues := issues[issue.id := issue];
        }
        k := k + 1;
      }
      assert lines[k..] == [];
      return Pass;
    }

    /** `save`: the file now holds the whole map. */
    method Save()
      modifies this
      ensures persisted == issues && issues == old(issues)
    {
      persisted := issues;
    }

    function Get(id: string): (r: Option<Issue>)
      reads this
      ensures r.Some? <==> id in issues
      ensures r.Some? ==> r.value == issues[id]
    {
      Lookup(issues, id)
    }

    method Create(issue: Issue) returns (r: Outcome)
      modifies this
      ensures (r, issues) == CreateEffect(old(issues), issue)
      ensures persisted == if r == Pass then issues else old(persisted)
    {
      if issue.id in issues {
        return Fail(AlreadyExists(issue.id));
      }
      issues := issues[issue.id := issue];
      Save();
      return Pass;
    }

    method Update(issue: Issue) returns (r: Outcome)
      modifies this
      ensures (r, issues) == UpdateEffect(old(issues), issue)
      ensures persisted == if r == Pass then issues else old(persisted)
    {
      if issue.id !in issues {
        return Fail(NotFound(issue.id));
      }
      issues := issues[issue.id := issue];
      Save();
      return Pass;
    }

    method Delete(id: string, deleter: Option<string>, reason: Option<string>, now: Timestamp) returns (r: Outcome)
      modifies this
      ensures (r, issues) == DeleteEffect(old(issues), id, deleter, reason, now)
      ensures persisted == if r == Pass then issues else old(persisted)
    {
      if id !in issues {
        return Fail(NotFound(id));
      }
      issues := issues[id := Issues.Delete(issues[id], deleter, reason, now)];
      Save();
      return Pass;
    }

    function List(includeTombstones: bool): (r: set<Issue>)
      reads this
      ensures forall i :: i in r <==> i in issues.Values && (includeTombstones || i.status != Tombstone)
    {
      ListView(issues, includeTombstones)
    }

    function ListOpen(): (r: set<Issue>)
      reads this
      ensures forall i :: i in r <==> i in issues.Values && IsOpen(i.status)
    {
      OpenView(issues)
    }

    /** `next_child_num`: one more than the largest direct-child number among the ids. */
    method NextChildNum(parentId: string) returns (next: u32)
      ensures next == StoreSpec.NextChildNum(issues.Keys, parentId)
    {
      next := ComputeNextChildNum(issues.Keys, parentId);
    }

    /** `prefix`: scan the configuration text line by line for the first prefix line. */
    method Prefix(configText: string) returns (r: string)
      ensures r == ConfigPrefix(configText)
    {
      var lines := Lines(configText);
      var k := 0;
      while k < |lines|
        invariant 0 <= k <= |lines|
        invariant FirstSome(PrefixValues(lines)) == FirstSome(PrefixValues(lines)[k..])
      {
        assert PrefixValues(lines)[k..][1..] == PrefixValues(lines)[k + 1..];
        var value := PrefixValue(lines[k]);
        assert PrefixValues(lines)[k..][0] == value;
        if value.Some? {
          return value.value;
        }
        k := k + 1;
      }
      assert PrefixValues(lines)[k..] == [];
      return "trx";
    }
  }
}
