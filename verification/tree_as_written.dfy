/** The tree operations as lib/git/object/tree.rb writes them, where the
    code departs from its own documentation, with an input that shows each
    departure. The rest of the model uses the documented versions in
    `Tree`. */
module TreeAsWritten {
  import opened Bytes
  import opened ObjectType
  import opened Tree

  /** `Tree.search` as written: on `entry < entries[mid]` it sets
      `high = mid - 1` although `high` is an exclusive bound, so the entry
      at `mid - 1` is never looked at again. A hit is still a real hit. */
  function SearchAsWritten(entries: seq<Entry>, entry: Entry, low: int, high: int): (r: int)
    requires 0 <= low && high <= |entries|
    ensures r >= 0 ==> r < |entries| && Cmp(entry, entries[r]) == 0
    decreases high - low
  {
    if low < high then
      var mid := (low + high) / 2;
      var c := Cmp(entry, entries[mid]);
      if c < 0 then SearchAsWritten(entries, entry, low, mid - 1)
      else if c == 0 then mid
      else SearchAsWritten(entries, entry, mid + 1, high)
    else InvertIndex(low)
  }

  /** Two blobs, `a` and `b`. */
  function BlobA(): Entry { Entry([97], 33188, BlobKind, []) }
  function BlobB(): Entry { Entry([98], 33188, BlobKind, []) }

  /** Searching `[a, b]` for `a` looks at `b`, moves `high` to 0 and reports
      `a` missing, although it sits at index 0. */
  lemma SearchAsWrittenMissesFirstEntry()
    ensures Sorted([BlobA(), BlobB()])
    ensures SearchAsWritten([BlobA(), BlobB()], BlobA(), 0, 2) == -1
    ensures !SearchAnswer([BlobA(), BlobB()], BlobA(), -1)
  {
    var es := [BlobA(), BlobB()];
    assert Cmp(BlobA(), BlobB()) == -1;
    assert Cmp(BlobA(), es[0]) == 0;
  }

  /** Ruby's `Array#insert`: a negative position counts from the end and
      inserts after the element it names, so `-1` appends. */
  function RubyInsert(a: seq<Entry>, j: int, x: Entry): (r: seq<Entry>)
    requires -|a| - 1 <= j <= |a|
    ensures |r| == |a| + 1
    ensures j >= 0 ==> r == a[..j] + [x] + a[j..]
    ensures j < 0 ==> r == a[..|a| + j + 1] + [x] + a[|a| + j + 1..]
  {
    var p := if j >= 0 then j else |a| + j + 1;
    a[..p] + [x] + a[p..]
  }

  /** `Tree.insert` as written: it replaces only for `index > 0`, so a hit
      at index 0 falls through to `insert(invert_index(0))`, i.e.
      `insert(-1)`, which appends a second copy at the end. */
  function InsertAsWritten(entries: seq<Entry>, index: int, entry: Entry): (r: seq<Entry>)
    requires -|entries| - 1 <= index < |entries|
    ensures index != 0 ==> r == Insert(entries, index, entry).0
    ensures index == 0 ==> r == entries + [entry]
  {
    if index > 0 then entries[index := entry]
    else RubyInsert(entries, InvertIndex(index), entry)
  }

  /** Overwriting `a` in `[a, b]` (a hit at index 0) yields `[a, b, a]`,
      which is longer and no longer sorted; the documented insert leaves
      `[a, b]`. */
  lemma InsertAsWrittenDuplicatesHitAtZero()
    ensures InsertAsWritten([BlobA(), BlobB()], 0, BlobA()) == [BlobA(), BlobB(), BlobA()]
    ensures !Sorted([BlobA(), BlobB(), BlobA()])
    ensures Insert([BlobA(), BlobB()], 0, BlobA()).0 == [BlobA(), BlobB()]
  {
    var r := [BlobA(), BlobB(), BlobA()];
    assert Cmp(r[0], r[2]) == 0;
  }

  /** `Entry.sort_key` as written: the line that appends `/` discards its
      result (and compares the type string with the symbol `:tree`, which
      never holds), so the key is the bare name. */
  function SortKeyAsWritten(e: Entry): (r: Bytes)
    ensures e.kind != TreeKind ==> r == SortKey(e)
  {
    e.name
  }

  function TreeFoo(): Entry { Entry(Ascii("foo"), 0, TreeKind, []) }
  function BlobFooTxt(): Entry { Entry(Ascii("foo.txt"), 420, BlobKind, []) }

  /** With the bare name, the tree `foo` orders before the blob `foo.txt`;
      git's rule, with `foo/`, puts it after, since `.` sorts below `/`. */
  lemma SortKeyAsWrittenMisordersTree()
    ensures Compare(SortKeyAsWritten(TreeFoo()), SortKeyAsWritten(BlobFooTxt())) < 0
    ensures Cmp(TreeFoo(), BlobFooTxt()) > 0
  {
    assert Ascii("foo") == [102, 111, 111];
    assert Ascii("foo.txt") == [102, 111, 111, 46, 116, 120, 116];
    assert SortKey(TreeFoo()) == [102, 111, 111, 47];
  }
}
