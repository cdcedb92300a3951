/** Tree entries (lib/git/object/tree.rb): mode decoding, git's ordering
    of entry names, the binary search for an entry and the insertion that
    uses its result. */
module Tree {
  import opened Bytes
  import opened Wrappers
  import opened ObjectType

  /** The permission bits of a mode, `0777`. */
  const MODE_MASK: nat := 511

  /** The kinds of file a tree entry can record. */
  datatype FileType = TreeType | BlobType | LinkType

  /** `MODE_FOR`: the type bits of each file type (octal 040000, 0100000
      and 0120000). */
  function ModeFor(t: FileType): nat {
    match t
    case TreeType => 16384
    case BlobType => 32768
    case LinkType => 40960
  }

  /** `mode & ~MODE_MASK` for a non-negative mode: the mode with its low
      nine bits cleared. */
  function TypeBits(mode: nat): nat {
    mode - mode % (MODE_MASK + 1)
  }

  /** `Tree.type`: looks the type bits up in `TYPE_FOR`, the inverse of
      `MODE_FOR`. */
  function TypeOf(mode: nat): (r: Option<FileType>)
    ensures r.Some? ==> ModeFor(r.value) == TypeBits(mode)
    ensures r.None? ==> forall t: FileType :: ModeFor(t) != TypeBits(mode)
  {
    var bits := TypeBits(mode);
    if bits == ModeFor(TreeType) then Some(TreeType)
    else if bits == ModeFor(BlobType) then Some(BlobType)
    else if bits == ModeFor(LinkType) then Some(LinkType)
    else None
  }

  /** `Tree.mode`: the permission bits of a blob's mode, and 0 for every
      other type. */
  function Perm(mode: nat): (r: nat)
    ensures r <= MODE_MASK
    ensures TypeOf(mode) == Some(BlobType) ==> ModeFor(BlobType) + r == mode
    ensures TypeOf(mode) != Some(BlobType) ==> r == 0
  {
    if TypeOf(mode) == Some(BlobType) then mode % (MODE_MASK + 1) else 0
  }

  /** Decoding inverts `MODE_FOR`: a mode built from a type's bits and any
      permission bits decodes to that type, and only blobs keep the
      permissions. */
  lemma DecodeMode(t: FileType, perm: nat)
    requires perm <= MODE_MASK
    ensures TypeOf(ModeFor(t) + perm) == Some(t)
    ensures Perm(ModeFor(t) + perm) == if t == BlobType then perm else 0
  {
    var m := ModeFor(t) + perm;
    assert ModeFor(t) % 512 == 0;
    assert m % 512 == perm;
  }

  /** Every decodable mode is such a combination. */
  lemma ModeIsTypeAndPerm(mode: nat)
    requires TypeOf(mode).Some?
    ensures mode == ModeFor(TypeOf(mode).value) + mode % (MODE_MASK + 1)
  {
  }

  /** A tree entry: a name, its permission bits, and the object it names
      (its kind and id). */
  datatype Entry = Entry(name: Bytes, mode: nat, kind: Kind, id: Bytes)

  /** `TREE_SUFFIX`. */
  const TREE_SUFFIX: byte := SLASH

  /** `Entry.sort_key` as documented: the name's bytes, with `/` appended
      for a tree whose name does not already end in `/`. */
  function SortKey(e: Entry): (r: Bytes)
    ensures |r| == |e.name| || (|r| == |e.name| + 1 && r[|e.name|] == TREE_SUFFIX)
    ensures r[..|e.name|] == e.name
    ensures e.kind != TreeKind ==> r == e.name
    ensures e.kind == TreeKind ==> 0 < |r| && r[|r| - 1] == TREE_SUFFIX
    ensures e.kind == TreeKind ==> (r == e.name <==> 0 < |e.name| && e.name[|e.name| - 1] == TREE_SUFFIX)
  {
    var name := e.name;
    if e.kind == TreeKind && (|name| == 0 || name[|name| - 1] != TREE_SUFFIX)
    then name + [TREE_SUFFIX]
    else name
  }

  /** `Array#<=>` on byte arrays: lexicographic, a proper prefix first. */
  function Compare(a: Bytes, b: Bytes): (r: int)
    ensures -1 <= r <= 1
  {
    if |a| == 0 && |b| == 0 then 0
    else if |a| == 0 then -1
    else if |b| == 0 then 1
    else if a[0] < b[0] then -1
    else if a[0] > b[0] then 1
    else Compare(a[1..], b[1..])
  }

  /** `a` orders before `b`: it is a proper prefix of `b`, or the two first
      differ at a position where `a` holds the smaller byte. */
  predicate LexLess(a: Bytes, b: Bytes) {
    (|a| < |b| && a == b[..|a|]) ||
    exists k | 0 <= k < |a| && k < |b| :: a[..k] == b[..k] && a[k] < b[k]
  }

  lemma {:induction false} CompareZeroIffEqual(a: Bytes, b: Bytes)
    ensures Compare(a, b) == 0 <==> a == b
  {
    if |a| > 0 && |b| > 0 && a[0] == b[0] {
      CompareZeroIffEqual(a[1..], b[1..]);
      assert a == [a[0]] + a[1..] && b == [b[0]] + b[1..];
    }
  }

  lemma {:induction false} CompareAntisymmetric(a: Bytes, b: Bytes)
    ensures Compare(b, a) == -Compare(a, b)
  {
    if |a| > 0 && |b| > 0 && a[0] == b[0] {
      CompareAntisymmetric(a[1..], b[1..]);
    }
  }

  lemma {:induction false} CompareTransitive(a: Bytes, b: Bytes, c: Bytes)
    requires Compare(a, b) < 0 && Compare(b, c) < 0
    ensures Compare(a, c) < 0
  {
    if |a| > 0 && |b| > 0 && |c| > 0 && a[0] == b[0] && b[0] == c[0] {
      CompareTransitive(a[1..], b[1..], c[1..]);
    }
  }

  /** `Compare` is the lexicographic order, in both directions. */
  lemma {:induction false} CompareIsLexicographic(a: Bytes, b: Bytes)
    ensures Compare(a, b) < 0 <==> LexLess(a, b)
  {
    if |a| == 0 || |b| == 0 {
      if |a| == 0 && |b| > 0 {
        assert a == b[..0];
      }
    } else if a[0] != b[0] {
      if a[0] < b[0] {
        assert a[..0] == b[..0];
      } else {
        forall k | 0 <= k < |a| && k < |b| && a[..k] == b[..k]
          ensures !(a[k] < b[k])
        {
        }
      }
    } else {
      CompareIsLexicographic(a[1..], b[1..]);
      LexLessTail(a, b);
    }
  }

  /** Two sequences with the same first byte compare as their tails do. */
  lemma LexLessTail(a: Bytes, b: Bytes)
    requires 0 < |a| && 0 < |b| && a[0] == b[0]
    ensures LexLess(a, b) <==> LexLess(a[1..], b[1..])
  {
    if LexLess(a, b) {
      if |a| < |b| && a == b[..|a|] {
        assert a[1..] == b[1..][..|a[1..]|];
      } else {
        var k :| 0 <= k < |a| && k < |b| && a[..k] == b[..k] && a[k] < b[k];
        assert k > 0;
        assert a[1..][..k - 1] == a[..k][1..];
        assert b[1..][..k - 1] == b[..k][1..];
        assert a[1..][k - 1] == a[k];
      }
    }
    if LexLess(a[1..], b[1..]) {
      if |a[1..]| < |b[1..]| && a[1..] == b[1..][..|a[1..]|] {
        assert a == [a[0]] + a[1..];
        assert b[..|a|] == [b[0]] + b[1..][..|a[1..]|];
      } else {
        var k :| 0 <= k < |a[1..]| && k < |b[1..]| && a[1..][..k] == b[1..][..k] && a[1..][k] < b[1..][k];
        assert a[..k + 1] == [a[0]] + a[1..][..k];
        assert b[..k + 1] == [b[0]] + b[1..][..k];
        assert a[k + 1] < b[k + 1];
      }
    }
  }

  /** `Entry#<=>`: entries compare by their sort keys. */
  function Cmp(e: Entry, f: Entry): int {
    Compare(SortKey(e), SortKey(f))
  }

  /** Entries in strictly increasing order of sort key, as git keeps them. */
  predicate Sorted(entries: seq<Entry>) {
    forall i, j | 0 <= i < j < |entries| :: Cmp(entries[i], entries[j]) < 0
  }

  /** `Tree.invert_index`. */
  function InvertIndex(i: int): int {
    -(i + 1)
  }

  lemma InvertIndexInvolution(i: int)
    ensures InvertIndex(InvertIndex(i)) == i
    ensures i >= 0 <==> InvertIndex(i) < 0
  {
  }

  /** What a search answers: a non-negative result is the position of an
      entry comparing equal; a negative one encodes the position `p` that
      keeps the entries sorted, all entries before it ordering below and all
      from it ordering above. */
  predicate SearchAnswer(entries: seq<Entry>, entry: Entry, r: int) {
    if r >= 0 then r < |entries| && Cmp(entry, entries[r]) == 0
    else
      var p := InvertIndex(r);
      p <= |entries| &&
      (forall i | 0 <= i < p :: Cmp(entries[i], entry) < 0) &&
      (forall i | p <= i < |entries| :: Cmp(entry, entries[i]) < 0)
  }

  /** `Tree.search` as documented: binary search over the half-open range
      `[low, high)`. */
  method Search(entries: seq<Entry>, entry: Entry) returns (r: int)
    requires Sorted(entries)
    ensures SearchAnswer(entries, entry, r)
    ensures r >= 0 <==> exists i | 0 <= i < |entries| :: Cmp(entry, entries[i]) == 0
  {
    var low, high := 0, |entries|;
    while low < high
      invariant 0 <= low <= high <= |entries|
      invariant forall i | 0 <= i < low :: Cmp(entries[i], entry) < 0
      invariant forall i | high <= i < |entries| :: Cmp(entry, entries[i]) < 0
    {
      var mid := (low + high) / 2;
      var c := Cmp(entry, entries[mid]);
      if c < 0 {
        AboveFrom(entries, entry, mid);
        high := mid;
      } else if c == 0 {
        r := mid;
        return;
      } else {
        BelowThrough(entries, entry, mid);
        low := mid + 1;
      }
    }
    NoEqualEntry(entries, entry, low);
    r := InvertIndex(low);
  }

  /** An entry ordering below `entries[mid]` orders below every later
      entry too. */
  lemma AboveFrom(entries: seq<Entry>, entry: Entry, mid: nat)
    requires Sorted(entries) && mid < |entries|
    requires Cmp(entry, entries[mid]) < 0
    ensures forall i | mid <= i < |entries| :: Cmp(entry, entries[i]) < 0
  {
    forall i | mid < i < |entries|
      ensures Cmp(entry, entries[i]) < 0
    {
      CompareTransitive(SortKey(entry), SortKey(entries[mid]), SortKey(entries[i]));
    }
  }

  /** An entry ordering above `entries[mid]` orders above every earlier
      entry too. */
  lemma BelowThrough(entries: seq<Entry>, entry: Entry, mid: nat)
    requires Sorted(entries) && mid < |entries|
    requires Cmp(entry, entries[mid]) > 0
    ensures forall i | 0 <= i <= mid :: Cmp(entries[i], entry) < 0
  {
    CompareAntisymmetric(SortKey(entry), SortKey(entries[mid]));
    forall i | 0 <= i < mid
      ensures Cmp(entries[i], entry) < 0
    {
      CompareTransitive(SortKey(entries[i]), SortKey(entries[mid]), SortKey(entry));
    }
  }

  /** Around a gap where the entry would go, no entry compares equal. */
  lemma NoEqualEntry(entries: seq<Entry>, entry: Entry, p: nat)
    requires p <= |entries|
    requires forall i | 0 <= i < p :: Cmp(entries[i], entry) < 0
    requires forall i | p <= i < |entries| :: Cmp(entry, entries[i]) < 0
    ensures forall i | 0 <= i < |entries| :: Cmp(entry, entries[i]) != 0
  {
    forall i | 0 <= i < p
      ensures Cmp(entry, entries[i]) != 0
    {
      CompareAntisymmetric(SortKey(entries[i]), SortKey(entry));
    }
  }

  /** `Tree.insert` as documented: a non-negative index from `search`
      replaces that slot; a negative one is decoded with `invert_index` and
      the entry is spliced in there. The entry itself is returned too. */
  function Insert(entries: seq<Entry>, index: int, entry: Entry): (r: (seq<Entry>, Entry))
    requires -|entries| - 1 <= index < |entries|
    ensures r.1 == entry
    ensures index >= 0 ==>
      |r.0| == |entries| && r.0[index] == entry &&
      forall i | 0 <= i < |entries| && i != index :: r.0[i] == entries[i]
    ensures index < 0 ==>
      var p := InvertIndex(index);
      |r.0| == |entries| + 1 && r.0[p] == entry &&
      r.0[..p] == entries[..p] && r.0[p + 1..] == entries[p..]
  {
    if index >= 0 then (entries[index := entry], entry)
    else
      var p := InvertIndex(index);
      (entries[..p] + [entry] + entries[p..], entry)
  }

  /** Inserting at the place a search answers keeps the entries sorted, and
      the entry is then present. */
  lemma InsertKeepsSorted(entries: seq<Entry>, entry: Entry, index: int)
    requires Sorted(entries)
    requires SearchAnswer(entries, entry, index)
    ensures Sorted(Insert(entries, index, entry).0)
    ensures entry in Insert(entries, index, entry).0
  {
    var r := Insert(entries, index, entry).0;
    if index >= 0 {
      ReplaceKeepsSorted(entries, entry, index);
      assert r[index] == entry;
    } else {
      SpliceKeepsSorted(entries, entry, InvertIndex(index));
      assert r[InvertIndex(index)] == entry;
    }
  }

  /** Overwriting an entry with one of the same key keeps the order. */
  lemma ReplaceKeepsSorted(entries: seq<Entry>, entry: Entry, index: nat)
    requires Sorted(entries)
    requires index < |entries| && Cmp(entry, entries[index]) == 0
    ensures Sorted(entries[index := entry])
  {
    CompareZeroIffEqual(SortKey(entry), SortKey(entries[index]));
    var r := entries[index := entry];
    forall i, j | 0 <= i < j < |r|
      ensures Cmp(r[i], r[j]) < 0
    {
      assert SortKey(r[i]) == SortKey(entries[i]);
      assert SortKey(r[j]) == SortKey(entries[j]);
    }
  }

  /** Splicing an entry into the gap its key belongs in keeps the order. */
  lemma SpliceKeepsSorted(entries: seq<Entry>, entry: Entry, p: nat)
    requires Sorted(entries)
    requires p <= |entries|
    requires forall i | 0 <= i < p :: Cmp(entries[i], entry) < 0
    requires forall i | p <= i < |entries| :: Cmp(entry, entries[i]) < 0
    ensures Sorted(entries[..p] + [entry] + entries[p..])
  {
    var r := entries[..p] + [entry] + entries[p..];
    SpliceAt(entries, entry, p);
    forall i, j | 0 <= i < j < |r|
      ensures Cmp(r[i], r[j]) < 0
    {
      var x := if i < p then entries[i] else if i == p then entry else entries[i - 1];
      var y := if j < p then entries[j] else if j == p then entry else entries[j - 1];
      assert r[i] == x && r[j] == y;
    }
  }

  /** Where each entry of a splice comes from. */
  lemma SpliceAt(entries: seq<Entry>, entry: Entry, p: nat)
    requires p <= |entries|
    ensures var r := entries[..p] + [entry] + entries[p..];
      && |r| == |entries| + 1 && r[p] == entry
      && (forall k | 0 <= k < p :: r[k] == entries[k])
      && (forall k | p < k < |r| :: r[k] == entries[k - 1])
  {
  }

  /** `search` followed by `insert`, as `add_entry` does once it has the
      entry: afterwards the entries are sorted, hold the entry, and hold
      every old entry whose key differs from it. */
  method Add(entries: seq<Entry>, entry: Entry) returns (r: seq<Entry>)
    requires Sorted(entries)
    ensures Sorted(r)
    ensures entry in r
    ensures forall e | e in entries && SortKey(e) != SortKey(entry) :: e in r
    ensures |r| == |entries| || |r| == |entries| + 1
  {
    var index := Search(entries, entry);
    InsertKeepsSorted(entries, entry, index);
    r := Insert(entries, index, entry).0;
    forall e | e in entries && SortKey(e) != SortKey(entry)
      ensures e in r
    {
      var i :| 0 <= i < |entries| && entries[i] == e;
      if index >= 0 {
        if i == index {
          CompareZeroIffEqual(SortKey(entry), SortKey(entries[index]));
        }
        assert r[i] == e;
      } else {
        var p := InvertIndex(index);
        if i < p { assert r[i] == e; } else { assert r[i + 1] == e; }
      }
    }
  }
}
