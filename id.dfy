/**
 * Issue identifiers (crates/trx-core/src/id.rs): root ids `<prefix>-<hash>`,
 * child ids `<parent>.<n>`, and the functions that take them apart.
 */
module Ids {
  import opened Wrappers
  import opened Text

  /** Crockford's base-32 alphabet, lower-cased. */
  const CrockfordLower: string := "0123456789abcdefghjkmnpqrstvwxyz"

  /** The big-endian 32-bit value of the first four digest bytes. */
  function Leading32(digest: seq<u8>): nat
    requires |digest| >= 4
  {
    var b0: nat, b1: nat, b2: nat, b3: nat := digest[0], digest[1], digest[2], digest[3];
    ((b0 * 0x100 + b1) * 0x100 + b2) * 0x100 + b3
  }

  /**
   * `generate_id`: the SHA-256 digest of a random UUID and the clock is an input
   * here. Its first four bytes are base-32 encoded (Crockford), lower-cased, and
   * the first four characters, that is the top twenty bits, form the hash part.
   */
  function GenerateId(prefix: string, digest: seq<u8>): string
    requires |digest| == 32
  {
    var v := Leading32(digest);
    var hash := [CrockfordLower[v / 0x800_0000 % 32], CrockfordLower[v / 0x40_0000 % 32],
                 CrockfordLower[v / 0x2_0000 % 32], CrockfordLower[v / 0x1000 % 32]];
    prefix + "-" + hash
  }

  /** `generate_child_id`. */
  function ChildId(parentId: string, n: u32): string
  {
    parentId + "." + Decimal(n)
  }

  /** `is_child_id`: the id contains a dot. */
  predicate IsChildId(id: string)
  {
    '.' in id
  }

  /** `get_parent_id`: everything before the last dot. */
  function ParentId(id: string): Option<string>
  {
    match LastIndexOf(id, '.')
    case None => None
    case Some(pos) => Some(id[..pos])
  }

  /** `parse_id`: split at the first `-` only. */
  function ParseId(id: string): Option<(string, string)>
  {
    match IndexOf(id, '-')
    case None => None
    case Some(pos) => Some((id[..pos], id[pos + 1..]))
  }

  /**
   * A generated id is the prefix, a dash and four characters of the alphabet; it
   * is a root id whenever the prefix is, and `parse_id` gives back the prefix.
   */
  lemma GeneratedIdShape(prefix: string, digest: seq<u8>)
    requires |digest| == 32
    ensures var id := GenerateId(prefix, digest);
      |id| == |prefix| + 5 && StartsWith(id, prefix + "-")
      && (forall k | |prefix| + 1 <= k < |id| :: id[k] in CrockfordLower)
      && ('.' !in prefix ==> !IsChildId(id) && ParentId(id) == None)
      && ('-' !in prefix ==> ParseId(id) == Some((prefix, id[|prefix| + 1..])))
  {
    var id := GenerateId(prefix, digest);
    var hash := id[|prefix| + 1..];
    assert id == prefix + "-" + hash;
    assert forall k | 0 <= k < |hash| :: hash[k] in CrockfordLower;
    assert '.' !in CrockfordLower;
    if '.' !in prefix {
      assert forall k | 0 <= k < |id| :: id[k] != '.' by {
        forall k | 0 <= k < |id| ensures id[k] != '.' {
          if k < |prefix| { assert id[k] == prefix[k]; }
          else if k > |prefix| { assert id[k] == hash[k - |prefix| - 1]; }
        }
      }
    }
    if '-' !in prefix {
      assert id[|prefix|] == '-';
      assert id[..|prefix|] == prefix;
    }
  }

  /** The id of the test: prefix `trx` gives `trx-` and four characters, eight in all. */
  lemma GeneratedIdExample(digest: seq<u8>)
    requires |digest| == 32
    ensures |GenerateId("trx", digest)| == 8 && StartsWith(GenerateId("trx", digest), "trx-")
  {
    GeneratedIdShape("trx", digest);
  }

  /** The child id is the parent, a dot, and the number in decimal, which reads back as `n`. */
  lemma ChildIdShape(parentId: string, n: u32)
    ensures var c := ChildId(parentId, n);
      StartsWith(c, parentId + ".") && IsChildId(c)
      && '.' !in c[|parentId| + 1..]
      && ParseU32(c[|parentId| + 1..]) == Some(n)
  {
    var c := ChildId(parentId, n);
    assert c[|parentId| + 1..] == Decimal(n);
    assert c[|parentId|] == '.';
    assert forall k | 0 <= k < |Decimal(n)| :: Decimal(n)[k] != '.';
    ParseU32OfDecimal(n);
  }

  /** `get_parent_id(generate_child_id(p, n)) == Some(p)`. */
  lemma ParentOfChild(parentId: string, n: u32)
    ensures ParentId(ChildId(parentId, n)) == Some(parentId)
  {
    var c := ChildId(parentId, n);
    assert forall k | 0 <= k < |Decimal(n)| :: Decimal(n)[k] != '.';
    assert '.' !in Decimal(n);
    assert c == parentId + ['.'] + Decimal(n);
    LastIndexOfSeparator(parentId, '.', Decimal(n));
    assert c[..|parentId|] == parentId;
  }

  /** An id has no parent exactly when it is not a child id. */
  lemma ParentIffChild(id: string)
    ensures ParentId(id).None? <==> !IsChildId(id)
    ensures ParentId(id).Some? ==> |ParentId(id).value| < |id| && StartsWith(id, ParentId(id).value + ".")
  {
    if ParentId(id).Some? {
      var pos := LastIndexOf(id, '.').value;
      assert id[..pos + 1] == id[..pos] + ".";
    }
  }

  /** `parse_id` fails exactly without a dash, and otherwise splits the id at its first dash. */
  lemma ParseIdSplit(id: string)
    ensures ParseId(id).None? <==> '-' !in id
    ensures ParseId(id).Some? ==>
      var (prefix, hash) := ParseId(id).value;
      id == prefix + "-" + hash && '-' !in prefix
  {
    if ParseId(id).Some? {
      var pos := IndexOf(id, '-').value;
      assert id == id[..pos] + "-" + id[pos + 1..];
    }
  }

  /** The hash part may itself contain a dash. */
  lemma ParseIdExample()
    ensures ParseId("trx-ab-c") == Some(("trx", "ab-c"))
  {
    assert "trx-ab-c"[3] == '-';
    assert '-' !in "trx-ab-c"[..3];
    assert IndexOf("trx-ab-c", '-') == Some(3);
    assert "trx-ab-c"[..3] == "trx" && "trx-ab-c"[4..] == "ab-c";
  }
}
