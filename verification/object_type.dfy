/** Object types and their names (lib/git/object.rb): an object's `type`
    is its class name lower-cased with the namespace stripped, and
    `Git::Object.load` goes back from a type name to a class with
    `const_get(type.capitalize)`. Only the classes Blob, Tree and Commit
    exist; a type name without a class (`tag`) fails the lookup. */
module ObjectType {
  import opened Bytes
  import opened Wrappers

  datatype Kind = BlobKind | TreeKind | CommitKind

  /** The type names a store may hold, as bytes: `blob`, `tree` and
      `commit`, one per class, and `tag`, which no class here has. */
  const BLOB: Bytes := [98, 108, 111, 98]
  const TREE: Bytes := [116, 114, 101, 101]
  const COMMIT: Bytes := [99, 111, 109, 109, 105, 116]
  const TAG: Bytes := [116, 97, 103]

  /** The namespace every object class lives in. */
  const NAMESPACE: Bytes := Ascii("Git::Object::")

  /** The class's own name, without the namespace. */
  function BaseName(k: Kind): Bytes {
    match k
    case BlobKind => Ascii("Blob")
    case TreeKind => Ascii("Tree")
    case CommitKind => Ascii("Commit")
  }

  /** `self.class.name`. */
  function ClassName(k: Kind): Bytes {
    NAMESPACE + BaseName(k)
  }

  function Lower(b: byte): byte {
    if 65 <= b <= 90 then b + 32 else b
  }

  function Upper(b: byte): byte {
    if 97 <= b <= 122 then b - 32 else b
  }

  /** `String#downcase` on ASCII. */
  function Downcase(s: Bytes): (r: Bytes)
    ensures |r| == |s|
  {
    seq(|s|, i requires 0 <= i < |s| => Lower(s[i]))
  }

  /** `String#capitalize` on ASCII: the first letter up, the rest down. */
  function Capitalize(s: Bytes): (r: Bytes)
    ensures |r| == |s|
  {
    if |s| == 0 then [] else [Upper(s[0])] + Downcase(s[1..])
  }

  /** `s[..i]` ends with `::`. */
  predicate SeparatorEndsAt(s: Bytes, i: nat)
    requires 2 <= i <= |s|
  {
    s[i - 2] == 58 && s[i - 1] == 58
  }

  /** The position just after the last `::` in `s[..end]`, if any. */
  function AfterLastSeparator(s: Bytes, end: nat): (r: Option<nat>)
    requires end <= |s|
    ensures r.Some? ==> 2 <= r.value <= end && SeparatorEndsAt(s, r.value)
    ensures r.Some? ==> forall i | r.value < i <= end :: !SeparatorEndsAt(s, i)
    ensures r.None? ==> forall i | 2 <= i <= end :: !SeparatorEndsAt(s, i)
  {
    if end < 2 then None
    else if SeparatorEndsAt(s, end) then Some(end)
    else AfterLastSeparator(s, end - 1)
  }

  /** `sub!(/^.*::/, '')` on a one-line name: drop everything up to the
      last `::`; nil when there is none. */
  function StripNamespace(s: Bytes): (r: Option<Bytes>)
    ensures r.Some? ==> |r.value| <= |s| - 2 && s[|s| - |r.value|..] == r.value
    ensures r.Some? ==> s[|s| - |r.value| - 2] == 58 && s[|s| - |r.value| - 1] == 58
  {
    match AfterLastSeparator(s, |s|)
    case None => None
    case Some(k) => Some(s[k..])
  }

  /** `Git::Object#type`: the lower-cased class name without namespace. */
  function TypeName(k: Kind): Bytes {
    var stripped := StripNamespace(Downcase(ClassName(k)));
    if stripped.Some? then stripped.value else Downcase(ClassName(k))
  }

  /** `const_get(name)` within `Git::Object`. */
  function ClassNamed(name: Bytes): (r: Option<Kind>)
    ensures r.Some? ==> name == BaseName(r.value)
  {
    if name == BaseName(BlobKind) then Some(BlobKind)
    else if name == BaseName(TreeKind) then Some(TreeKind)
    else if name == BaseName(CommitKind) then Some(CommitKind)
    else None
  }

  /** `Git::Object.load`'s dispatch: `const_get(type.capitalize)`. Any
      spelling that lower-cases to a type name finds that class. */
  function KindNamed(typeName: Bytes): (r: Option<Kind>)
    ensures r.Some? ==> Downcase(typeName) == TypeName(r.value)
  {
    var r := ClassNamed(Capitalize(typeName));
    if r.Some? then
      DowncaseCapitalize(typeName);
      TypeNames(r.value);
      r
    else r
  }

  lemma DowncaseCapitalize(s: Bytes)
    ensures Downcase(Capitalize(s)) == Downcase(s)
  {
  }

  lemma DowncaseConcat(a: Bytes, b: Bytes)
    ensures Downcase(a + b) == Downcase(a) + Downcase(b)
  {
  }

  /** Stripping the namespace from a lower-cased class name leaves the
      lower-cased base name, for any base name without a `:`. */
  lemma StripClassName(base: Bytes)
    requires forall i | 0 <= i < |base| :: base[i] != 58
    ensures StripNamespace(Downcase(NAMESPACE + base)) == Some(Downcase(base))
  {
    var s := Downcase(NAMESPACE + base);
    DowncaseConcat(NAMESPACE, base);
    assert NAMESPACE == [71, 105, 116, 58, 58, 79, 98, 106, 101, 99, 116, 58, 58];
    assert SeparatorEndsAt(s, 13);
    assert forall i | 13 <= i < |s| :: s[i] != 58;
    var r := AfterLastSeparator(s, |s|);
    assert r.Some? && r.value >= 13;
    assert r.value == 13;
    assert s[13..] == Downcase(base);
  }

  /** The lower-cased type name each class is stored under. */
  function Stored(k: Kind): Bytes {
    match k
    case BlobKind => BLOB
    case TreeKind => TREE
    case CommitKind => COMMIT
  }

  /** A capitalized word (one upper-case letter, then lower-case ones) has
      no `:`, lower-cases by lowering its first letter only, and
      capitalizing that gives the word back. */
  lemma CapitalizedWord(s: Bytes)
    requires 0 < |s| && 65 <= s[0] <= 90
    requires forall i | 1 <= i < |s| :: 97 <= s[i] <= 122
    ensures forall i | 0 <= i < |s| :: s[i] != 58
    ensures Downcase(s) == [s[0] + 32] + s[1..]
    ensures Capitalize(Downcase(s)) == s
  {
    var d := Downcase(s);
    assert d[1..] == s[1..] by {
      forall i | 1 <= i < |s|
        ensures d[i] == s[i]
      {
      }
    }
    assert d == [d[0]] + d[1..];
    assert Downcase(d[1..]) == d[1..];
    assert s == [s[0]] + s[1..];
  }

  /** The base names hold no `:`, lower-case to the stored type names, and
      capitalizing those gives the base names back. */
  lemma BaseNameFacts(k: Kind)
    ensures forall i | 0 <= i < |BaseName(k)| :: BaseName(k)[i] != 58
    ensures Downcase(BaseName(k)) == Stored(k)
    ensures Capitalize(Stored(k)) == BaseName(k)
  {
    var b := BaseName(k);
    match k {
      case BlobKind =>
        assert b == [66, 108, 111, 98];
        assert Stored(k) == [98] + b[1..];
      case TreeKind =>
        assert b == [84, 114, 101, 101];
        assert Stored(k) == [116] + b[1..];
      case CommitKind =>
        assert b == [67, 111, 109, 109, 105, 116];
        assert Stored(k) == [99] + b[1..];
    }
    CapitalizedWord(b);
  }

  /** The type names are the lower-cased base names. */
  lemma TypeNames(k: Kind)
    ensures TypeName(k) == Stored(k)
  {
    BaseNameFacts(k);
    StripClassName(BaseName(k));
  }

  /** Dispatch inverts `type`: every class is found again from its name. */
  lemma KindNamedInvertsTypeName(k: Kind)
    ensures KindNamed(TypeName(k)) == Some(k)
  {
    TypeNames(k);
    BaseNameFacts(k);
    assert Capitalize(TypeName(k)) == BaseName(k);
    BaseNamesDistinct();
  }

  lemma BaseNamesDistinct()
    ensures BaseName(BlobKind) != BaseName(TreeKind)
    ensures BaseName(BlobKind) != BaseName(CommitKind)
    ensures BaseName(TreeKind) != BaseName(CommitKind)
  {
    assert BaseName(BlobKind)[0] == 66 && BaseName(TreeKind)[0] == 84;
    assert |BaseName(CommitKind)| == 6;
  }

  /** `tag` is a valid stored type but has no class to load it. */
  lemma TagHasNoClass()
    ensures KindNamed(TAG) == None
  {
    assert Capitalize(TAG) == [84, 97, 103];
  }
}
