/**
 * The string primitives the core relies on, written out with Rust's semantics:
 * integer formatting and `parse::<u32>()`, `to_lowercase`, `trim`, `trim_matches`,
 * `strip_prefix`, `contains`, `rfind`, `find` and `str::lines`.
 */
module Text {
  import opened Wrappers

  // ---------------------------------------------------------------------------
  // Decimal numbers

  predicate IsDigit(c: char) { '0' <= c <= '9' }

  predicate AllDigits(s: string) { forall i | 0 <= i < |s| :: IsDigit(s[i]) }

  function DigitChar(d: nat): (c: char)
    requires d < 10
    ensures IsDigit(c) && c as int - '0' as int == d
  {
    (('0' as int) + d) as char
  }

  /** `format!("{}", n)`: decimal digits, no sign, no leading zero. */
  function Decimal(n: nat): (s: string)
    ensures |s| >= 1 && AllDigits(s)
    ensures |s| > 1 ==> s[0] != '0'
    decreases n
  {
    if n < 10 then [DigitChar(n)] else Decimal(n / 10) + [DigitChar(n % 10)]
  }

  /** The value of a string of decimal digits (leading zeros allowed). */
  function DigitsValue(s: string): nat
    requires AllDigits(s)
    decreases |s|
  {
    if s == [] then 0 else DigitsValue(s[..|s| - 1]) * 10 + (s[|s| - 1] as int - '0' as int)
  }

  lemma {:induction false} DecimalValue(n: nat)
    ensures DigitsValue(Decimal(n)) == n
    decreases n
  {
    if n >= 10 {
      var s := Decimal(n);
      assert s[..|s| - 1] == Decimal(n / 10);
      DecimalValue(n / 10);
    }
  }

  /**
   * `s.parse::<u32>()`: an optional leading `+`, then at least one ASCII digit,
   * and a value below 2^32; anything else (a `-`, a space, an empty string) fails.
   */
  function ParseU32(s: string): Option<u32>
  {
    var digits := if |s| > 0 && s[0] == '+' then s[1..] else s;
    if digits == [] || !AllDigits(digits) then None
    else if DigitsValue(digits) < 0x1_0000_0000 then Some(DigitsValue(digits))
    else None
  }

  /** Reads back a non-negative integer written by `Decimal`. */
  function ParseNat(s: string): Option<nat>
  {
    if s != [] && AllDigits(s) then Some(DigitsValue(s)) else None
  }

  lemma ParseU32OfDecimal(n: u32)
    ensures ParseU32(Decimal(n)) == Some(n)
  {
    DecimalValue(n);
  }

  lemma ParseNatOfDecimal(n: nat)
    ensures ParseNat(Decimal(n)) == Some(n)
  {
    DecimalValue(n);
  }

  // ---------------------------------------------------------------------------
  // Case mapping

  /**
   * The lower-case form of one character, as far as it can produce ASCII:
   * `A`..`Z`, and U+212A KELVIN SIGN, whose lower case is `k`.
   */
  function LowerChar(c: char): char
  {
    if 'A' <= c <= 'Z' then (c as int + 32) as char
    else if c == '\U{212A}' then 'k'
    else c
  }

  function Lower(s: string): (r: string)
    ensures |r| == |s|
    ensures forall i | 0 <= i < |s| :: r[i] == LowerChar(s[i])
  {
    if s == [] then [] else [LowerChar(s[0])] + Lower(s[1..])
  }

  // ---------------------------------------------------------------------------
  // Searching

  predicate StartsWith(s: string, p: string) { |p| <= |s| && s[..|p|] == p }

  predicate EndsWith(s: string, p: string) { |p| <= |s| && s[|s| - |p|..] == p }

  /** `s.contains(sub)` for a string pattern. */
  predicate Contains(s: string, sub: string)
  {
    exists i | 0 <= i <= |s| - |sub| :: OccursAt(s, sub, i)
  }

  predicate OccursAt(s: string, sub: string, i: nat)
  {
    i + |sub| <= |s| && s[i..i + |sub|] == sub
  }

  /** `s.strip_prefix(p)`. */
  function StripPrefix(s: string, p: string): (r: Option<string>)
    ensures r.Some? <==> StartsWith(s, p)
    ensures r.Some? ==> s == p + r.value
  {
    if StartsWith(s, p) then Some(s[|p|..]) else None
  }

  /** `s.find(c)`: the first position of `c`. */
  function IndexOf(s: string, c: char): (r: Option<nat>)
    ensures r.None? <==> c !in s
    ensures r.Some? ==> r.value < |s| && s[r.value] == c && c !in s[..r.value]
  {
    if s == [] then None
    else if s[0] == c then Some(0)
    else match IndexOf(s[1..], c)
      case None => None
      case Some(i) => Some(i + 1)
  }

  /** `s.rfind(c)`: the last position of `c`. */
  function LastIndexOf(s: string, c: char): (r: Option<nat>)
    ensures r.None? <==> c !in s
    ensures r.Some? ==> r.value < |s| && s[r.value] == c && c !in s[r.value + 1..]
    decreases |s|
  {
    if s == [] then None
    else if s[|s| - 1] == c then Some(|s| - 1)
    else LastIndexOf(s[..|s| - 1], c)
  }

  /** The last `c` of `a + [c] + b` is the one after `a` when `b` holds none. */
  lemma {:induction false} LastIndexOfSeparator(a: string, c: char, b: string)
    requires c !in b
    ensures LastIndexOf(a + [c] + b, c) == Some(|a|)
    decreases |b|
  {
    var s := a + [c] + b;
    if b != [] {
      assert s[|s| - 1] == b[|b| - 1];
      assert s[..|s| - 1] == a + [c] + b[..|b| - 1];
      LastIndexOfSeparator(a, c, b[..|b| - 1]);
    }
  }

  // ---------------------------------------------------------------------------
  // Trimming

  /** `char::is_whitespace`: the Unicode White_Space property. */
  predicate IsWhitespace(c: char)
  {
    || '\t' <= c <= '\r'
    || c == ' '
    || c == '\U{0085}' || c == '\U{00A0}' || c == '\U{1680}'
    || '\U{2000}' <= c <= '\U{200A}'
    || c == '\U{2028}' || c == '\U{2029}' || c == '\U{202F}' || c == '\U{205F}' || c == '\U{3000}'
  }

  function TrimStart(s: string): string
  {
    if s != [] && IsWhitespace(s[0]) then TrimStart(s[1..]) else s
  }

  function TrimEnd(s: string): string
    decreases |s|
  {
    if s != [] && IsWhitespace(s[|s| - 1]) then TrimEnd(s[..|s| - 1]) else s
  }

  /** What `trim_start` leaves is a suffix that starts with a non-whitespace character. */
  lemma {:induction false} TrimStartShape(s: string)
    ensures |TrimStart(s)| <= |s| && TrimStart(s) == s[|s| - |TrimStart(s)|..]
    ensures TrimStart(s) != [] ==> !IsWhitespace(TrimStart(s)[0])
    ensures TrimStart(s) == [] <==> Blank(s)
  {
    if s != [] && IsWhitespace(s[0]) {
      TrimStartShape(s[1..]);
      assert forall i | 1 <= i < |s| :: s[i] == s[1..][i - 1];
    }
  }

  /** What `trim_end` leaves is a prefix that ends with a non-whitespace character. */
  lemma {:induction false} TrimEndShape(s: string)
    ensures |TrimEnd(s)| <= |s| && TrimEnd(s) == s[..|TrimEnd(s)|]
    ensures TrimEnd(s) != [] ==> !IsWhitespace(TrimEnd(s)[|TrimEnd(s)| - 1])
    ensures TrimEnd(s) == [] <==> Blank(s)
    decreases |s|
  {
    if s != [] && IsWhitespace(s[|s| - 1]) {
      TrimEndShape(s[..|s| - 1]);
      assert forall i | 0 <= i < |s| - 1 :: s[i] == s[..|s| - 1][i];
    }
  }

  /** `s.trim()`. */
  function Trim(s: string): string
  {
    TrimEnd(TrimStart(s))
  }

  /** Every character is whitespace. */
  predicate Blank(s: string)
  {
    forall i | 0 <= i < |s| :: IsWhitespace(s[i])
  }

  /** `s.trim().is_empty()` holds exactly for blank strings. */
  lemma TrimEmpty(s: string)
    ensures Trim(s) == [] <==> Blank(s)
  {
    TrimStartShape(s);
    TrimEndShape(TrimStart(s));
  }

  /** A string with no whitespace at either end trims to itself. */
  lemma TrimUnchanged(s: string)
    requires s == [] || (!IsWhitespace(s[0]) && !IsWhitespace(s[|s| - 1]))
    ensures Trim(s) == s
  {
  }

  /** Leading spaces do not change the trimmed string. */
  lemma {:induction false} TrimLeadingSpace(sp: string, s: string)
    requires forall i | 0 <= i < |sp| :: IsWhitespace(sp[i])
    ensures Trim(sp + s) == Trim(s)
    decreases |sp|
  {
    if sp != [] {
      assert (sp + s)[1..] == sp[1..] + s;
      TrimLeadingSpace(sp[1..], s);
    } else {
      assert sp + s == s;
    }
  }

  function TrimStartMatches(s: string, c: char): (r: string)
    ensures |r| <= |s| && r == s[|s| - |r|..]
    ensures r != [] ==> r[0] != c
  {
    if s != [] && s[0] == c then TrimStartMatches(s[1..], c) else s
  }

  function TrimEndMatches(s: string, c: char): (r: string)
    ensures |r| <= |s| && r == s[..|r|]
    ensures r != [] ==> r[|r| - 1] != c
    decreases |s|
  {
    if s != [] && s[|s| - 1] == c then TrimEndMatches(s[..|s| - 1], c) else s
  }

  /** `s.trim_matches(c)`: every leading and trailing `c` removed. */
  function TrimMatches(s: string, c: char): (r: string)
    ensures r != [] ==> r[0] != c && r[|r| - 1] != c
  {
    TrimEndMatches(TrimStartMatches(s, c), c)
  }

  /** One pair of enclosing quotes comes off a value that does not itself start or end with one. */
  lemma TrimMatchesQuoted(v: string)
    requires v == [] || (v[0] != '"' && v[|v| - 1] != '"')
    ensures TrimMatches("\"" + v + "\"", '"') == v
  {
    var tail := v + "\"";
    assert "\"" + v + "\"" == "\"" + tail;
    if v == [] {
      TrimStartOne(tail, '"', '"');
    } else {
      TrimStartOne(tail, '"', v[0]);
      TrimEndOne(v, '"');
    }
  }

  /** One leading `c` comes off a string whose next character is `d`, not `c`. */
  lemma TrimStartOne(w: string, c: char, d: char)
    requires w == [] || w[0] == d
    requires d != c || w == [c]
    ensures TrimStartMatches([c] + w, c) == (if w == [c] then [] else w)
  {
    assert ([c] + w)[1..] == w;
    if w == [c] {
      assert w[1..] == [];
    }
  }

  /** One trailing `c` comes off a string that does not end in `c`. */
  lemma TrimEndOne(w: string, c: char)
    requires w == [] || w[|w| - 1] != c
    ensures TrimEndMatches(w + [c], c) == w
  {
    assert (w + [c])[..|w|] == w;
  }

  // ---------------------------------------------------------------------------
  // Lines

  function StripCarriageReturn(line: string): string
  {
    if line != [] && line[|line| - 1] == '\r' then line[..|line| - 1] else line
  }

  /**
   * `s.lines()`: split after every `\n`, drop that `\n` and a `\r` just before
   * it; a final piece without `\n` is kept as it is, and no empty line follows
   * a trailing `\n`.
   */
  function Lines(s: string): (r: seq<string>)
    ensures forall k | 0 <= k < |r| :: '\n' !in r[k]
    decreases |s|
  {
    if s == [] then []
    else match IndexOf(s, '\n')
      case None => [s]
      case Some(i) => [StripCarriageReturn(s[..i])] + Lines(s[i + 1..])
  }

  lemma LinesOfTwo(a: string, b: string)
    requires '\n' !in a && (a == [] || a[|a| - 1] != '\r')
    requires '\n' !in b && (b == [] || b[|b| - 1] != '\r')
    ensures Lines(a + "\n" + b + "\n") == [a, b]
  {
    assert a + "\n" + b + "\n" == a + "\n" + (b + "\n" + []);
    LinesOfJoined(a, b + "\n" + []);
    LinesOfJoined(b, []);
  }

  lemma {:induction false} LinesOfJoined(a: string, b: string)
    requires '\n' !in a && (a == [] || a[|a| - 1] != '\r')
    ensures Lines(a + "\n" + b) == [a] + Lines(b)
  {
    var s := a + "\n" + b;
    assert s[..|a|] == a;
    assert s[|a| + 1..] == b;
    assert s[|a|] == '\n';
    assert IndexOf(s, '\n') == Some(|a|);
  }

  /** Each line followed by a `\n`: the text that `Lines` splits back. */
  function Unlines(lines: seq<string>): (r: string)
    ensures lines != [] ==> r != [] && r[|r| - 1] == '\n'
  {
    if lines == [] then [] else lines[0] + "\n" + Unlines(lines[1..])
  }

  lemma UnlinesCons(line: string, lines: seq<string>)
    ensures Unlines([line] + lines) == line + "\n" + Unlines(lines)
  {
    assert ([line] + lines)[1..] == lines;
  }

  /**
   * Without carriage returns, the lines put back together with a `\n` after
   * each give the text again, with a final `\n` added when it had none.
   */
  lemma {:induction false} LinesRejoin(s: string)
    requires '\r' !in s
    ensures Unlines(Lines(s)) == if s == [] || s[|s| - 1] == '\n' then s else s + "\n"
    decreases |s|
  {
    if s != [] {
      var n := IndexOf(s, '\n');
      if n.None? {
        UnlinesCons(s, []);
      } else {
        var head := s[..n.value];
        var rest := s[n.value + 1..];
        assert s == head + "\n" + rest;
        assert '\r' !in head && '\r' !in rest;
        LinesOfJoined(head, rest);
        UnlinesCons(head, Lines(rest));
        LinesRejoin(rest);
        RejoinTail(head, rest, Unlines(Lines(rest)));
      }
    }
  }

  /** The last step of `LinesRejoin`: one line put back in front of the rest. */
  lemma RejoinTail(head: string, rest: string, joined: string)
    requires joined == if rest == [] || rest[|rest| - 1] == '\n' then rest else rest + "\n"
    ensures var s := head + "\n" + rest;
      head + "\n" + joined == if s[|s| - 1] == '\n' then s else s + "\n"
  {
  }
}
