/** The canonical form of a stored object, `"<type> <length>\0<dump>"`,
    its digest, and the header regular expressions that read it back
    (`/^(\w+) (\d+)\0/` in the loose-object engine, `/(\w+) (\d+)\0(.*)/m`
    in the SHA-1 file engine). */
module CanonicalForm {
  import opened Bytes
  import opened Wrappers
  import opened Numerals
  import opened Externals
  import opened ObjectType

  /** The object types a store file may declare. */
  const VALID_OBJECTS: seq<Bytes> := [BLOB, COMMIT, TREE, TAG]

  /** `OUTPUT_FORMAT % [type, dump.length, dump]` with `OUTPUT_FORMAT = "%s %d\0%s"`. */
  function Canonical(kind: Bytes, dump: Bytes): (r: Bytes)
    ensures |r| == |kind| + 1 + |Decimal(|dump|)| + 1 + |dump|
    ensures r[..|kind|] == kind && r[|kind|] == SP
    ensures r[|r| - |dump|..] == dump && r[|r| - |dump| - 1] == NUL
  {
    kind + [SP] + Decimal(|dump|) + [NUL] + dump
  }

  /** `Git::Object.hash(type, dump)`: the hex SHA-1 of the canonical form. */
  function ObjectHash(p: Primitives, kind: Bytes, dump: Bytes): Bytes {
    p.sha1Hex(Canonical(kind, dump))
  }

  /** What a header match yields: `match[1]`, `match[2]` and the text after
      the NUL (`post_match`, or the `(.*)` group under `/m`). */
  datatype Header = Header(kind: Bytes, digits: Bytes, body: Bytes)

  /** The end of the longest run of `wanted` bytes starting at `i`. */
  function RunEnd(c: Bytes, i: nat, wanted: byte -> bool): (j: nat)
    requires i <= |c|
    ensures i <= j <= |c|
    ensures forall k | i <= k < j :: wanted(c[k])
    ensures j == |c| || !wanted(c[j])
    decreases |c| - i
  {
    if i < |c| && wanted(c[i]) then RunEnd(c, i + 1, wanted) else i
  }

  /** `(\w+) (\d+)\0` matched at position `i`. Backtracking cannot help
      either greedy run: a shorter word run is followed by a word
      character, not a space, and a shorter digit run by a digit. */
  function MatchAt(c: Bytes, i: nat): (r: Option<Header>)
    requires i <= |c|
    ensures r.Some? ==>
      && 0 < |r.value.kind| && AllWordChars(r.value.kind)
      && 0 < |r.value.digits| && AllDigits(r.value.digits)
      && c[i..] == r.value.kind + [SP] + r.value.digits + [NUL] + r.value.body
  {
    var j := RunEnd(c, i, IsWordChar);
    if j == i || j == |c| || c[j] != SP then None
    else
      var k := RunEnd(c, j + 1, IsDigit);
      if k == j + 1 || k == |c| || c[k] != NUL then None
      else
        assert c[i..] == c[i..j] + [SP] + c[j + 1..k] + [NUL] + c[k + 1..];
        Some(Header(c[i..j], c[j + 1..k], c[k + 1..]))
  }

  /** Where `^` may match: the start of the text or just after a newline. */
  predicate LineStart(c: Bytes, i: nat)
    requires i <= |c|
  {
    i == 0 || c[i - 1] == LF
  }

  /** `String#match`: the leftmost position at or after `i` where the
      header matches, restricted to line starts when the pattern begins
      with `^`. */
  function FirstMatch(c: Bytes, i: nat, anchored: bool): (r: Option<Header>)
    requires i <= |c|
    ensures r.Some? ==>
      exists k :: i <= k <= |c| && (anchored ==> LineStart(c, k)) && MatchAt(c, k) == r &&
        forall j | i <= j < k && (anchored ==> LineStart(c, j)) :: MatchAt(c, j).None?
    ensures r.None? ==> forall k | i <= k <= |c| && (anchored ==> LineStart(c, k)) :: MatchAt(c, k).None?
    decreases |c| - i
  {
    if (!anchored || LineStart(c, i)) && MatchAt(c, i).Some? then MatchAt(c, i)
    else if i == |c| then None
    else FirstMatch(c, i + 1, anchored)
  }

  lemma {:induction false} RunEndStopsAt(c: Bytes, i: nat, j: nat, wanted: byte -> bool)
    requires i <= j < |c|
    requires forall k | i <= k < j :: wanted(c[k])
    requires !wanted(c[j])
    ensures RunEnd(c, i, wanted) == j
    decreases j - i
  {
    if i < j {
      RunEndStopsAt(c, i + 1, j, wanted);
    }
  }

  /** Any text laid out as a header matches, yielding exactly its parts. */
  lemma MatchAtHeader(c: Bytes, i: nat, kind: Bytes, digits: Bytes, body: Bytes)
    requires i <= |c|
    requires 0 < |kind| && AllWordChars(kind)
    requires 0 < |digits| && AllDigits(digits)
    requires c[i..] == kind + [SP] + digits + [NUL] + body
    ensures MatchAt(c, i) == Some(Header(kind, digits, body))
  {
    var j := i + |kind|;
    var k := j + 1 + |digits|;
    HeaderLayout(c, i, kind, digits, body);
    RunEndStopsAt(c, i, j, IsWordChar);
    RunEndStopsAt(c, j + 1, k, IsDigit);
  }

  lemma HeaderLayout(c: Bytes, i: nat, kind: Bytes, digits: Bytes, body: Bytes)
    requires i <= |c|
    requires c[i..] == kind + [SP] + digits + [NUL] + body
    ensures i + |kind| + 1 + |digits| < |c|
    ensures c[i + |kind|] == SP && c[i + |kind| + 1 + |digits|] == NUL
    ensures forall m | i <= m < i + |kind| :: c[m] == kind[m - i]
    ensures forall m | i + |kind| + 1 <= m < i + |kind| + 1 + |digits| :: c[m] == digits[m - i - |kind| - 1]
    ensures c[i..i + |kind|] == kind
    ensures c[i + |kind| + 1..i + |kind| + 1 + |digits|] == digits
    ensures c[i + |kind| + 1 + |digits| + 1..] == body
  {
    var s := c[i..];
    assert forall m | 0 <= m < |s| :: s[m] == c[i + m];
    assert s[..|kind|] == kind;
    assert s[|kind| + 1..|kind| + 1 + |digits|] == digits;
    assert s[|kind| + 1 + |digits| + 1..] == body;
  }

  /** Round trip: both header patterns read the canonical form back as the
      type, the decimal length of the dump, and the dump itself. */
  lemma HeaderRoundTrip(kind: Bytes, dump: Bytes, anchored: bool)
    requires 0 < |kind| && AllWordChars(kind)
    ensures FirstMatch(Canonical(kind, dump), 0, anchored) == Some(Header(kind, Decimal(|dump|), dump))
    ensures Value(Decimal(|dump|)) == |dump|
  {
    var c := Canonical(kind, dump);
    assert c[0..] == kind + [SP] + Decimal(|dump|) + [NUL] + dump;
    MatchAtHeader(c, 0, kind, Decimal(|dump|), dump);
    ValueOfDecimal(|dump|);
  }

  /** Every valid type name is a word, so it survives the header pattern. */
  lemma ValidObjectsAreWords(kind: Bytes)
    requires kind in VALID_OBJECTS
    ensures 0 < |kind| && AllWordChars(kind)
  {
  }
}
