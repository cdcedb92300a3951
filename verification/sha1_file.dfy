/** The SHA-1 file engine (lib/git/store/sha1_file.rb): the same on-disk
    layout as the loose-object engine, reached through an object's type
    and dump. Its `find` checks the digest of the whole inflated file
    before it looks at the header. */
module Sha1File {
  import opened Bytes
  import opened Wrappers
  import opened Errors
  import opened Numerals
  import opened Externals
  import opened CanonicalForm
  import LooseObject

  const SUBDIR_LENGTH: nat := 2

  type Files = LooseObject.Files

  /** `hash[0, SUBDIR_LENGTH]`: at most the first two characters. */
  function Subdir(hash: Bytes): Bytes {
    if |hash| <= SUBDIR_LENGTH then hash else hash[..SUBDIR_LENGTH]
  }

  /** `hash[SUBDIR_LENGTH .. -1].to_s`: the rest, empty (from nil) when the
      hash is too short. */
  function Rest(hash: Bytes): Bytes {
    if |hash| <= SUBDIR_LENGTH then [] else hash[SUBDIR_LENGTH..]
  }

  /** `filename`: the subdirectory and the file name below it. */
  function Filename(hash: Bytes): (r: Bytes)
    ensures |r| == |hash| + 1
    ensures r[|Subdir(hash)|] == SLASH
    ensures r[..|Subdir(hash)|] + r[|Subdir(hash)| + 1..] == hash
  {
    var r := Subdir(hash) + [SLASH] + Rest(hash);
    assert r[..|Subdir(hash)|] == Subdir(hash);
    assert r[|Subdir(hash)| + 1..] == Rest(hash);
    r
  }

  /** `contents`: `"type len\0data"` with `len` the length of `data`; the
      header pattern reads back exactly that type, length and data. */
  function Contents(kind: Bytes, data: Bytes): (r: Bytes)
    ensures 0 < |kind| && AllWordChars(kind) ==>
      && FirstMatch(r, 0, false) == Some(Header(kind, Decimal(|data|), data))
      && Value(Decimal(|data|)) == |data|
  {
    if 0 < |kind| && AllWordChars(kind) then HeaderRoundTrip(kind, data, false); Canonical(kind, data)
    else Canonical(kind, data)
  }

  /** `hash`: the hex SHA-1 of the contents, a function of type and data
      alone, and the same digest the loose-object engine verifies. */
  function Hash(p: Primitives, kind: Bytes, data: Bytes): (r: Bytes)
    ensures r == ObjectHash(p, kind, data)
    ensures Sound(p) ==> IsHexDigest(r)
    ensures forall h :: LooseObject.Verify(p, h, kind, |data|, data).None? <==> kind in VALID_OBJECTS && h == r
  {
    p.sha1Hex(Contents(kind, data))
  }

  /** `exists?`. */
  function Exists(fs: Files, hash: Bytes): bool {
    Filename(hash) in fs
  }

  /** `Sha1File.find`: nil without a file; otherwise the checksum of the
      whole inflated file, then the header, then type and length. Returns
      the validated type and data (the caller turns them into an object). */
  function Find(fs: Files, hash: Bytes, p: Primitives): (r: Result<Option<(Bytes, Bytes)>, Error>)
    ensures r == Ok(None) <==> !Exists(fs, hash)
    ensures r.Ok? && r.value.Some? ==>
      && r.value.value.0 in VALID_OBJECTS
      && p.inflate(fs[Filename(hash)]).Some?
      && p.sha1Hex(p.inflate(fs[Filename(hash)]).value) == hash
  {
    if !Exists(fs, hash) then Ok(None)
    else
      var contents :- Inflate(p, fs[Filename(hash)]);
      if p.sha1Hex(contents) != hash then Err(CorruptSha1File(BadHash))
      else
        match FirstMatch(contents, 0, false)
        case None => Err(HeaderMismatch)
        case Some(h) =>
          if h.kind !in VALID_OBJECTS then Err(CorruptSha1File(BadType))
          else if |h.body| != Value(h.digits) then Err(CorruptSha1File(BadLength))
          else Ok(Some((h.kind, h.body)))
  }

  /** `saved?`. */
  function Saved(fs: Files, p: Primitives, kind: Bytes, data: Bytes): bool {
    Exists(fs, Hash(p, kind, data))
  }

  /** `save`: writes the deflated contents under the object's hash unless
      a file is already there. No validation happens on this path. */
  function Save(fs: Files, p: Primitives, kind: Bytes, data: Bytes): (r: Files)
    ensures Saved(fs, p, kind, data) ==> r == fs
    ensures r.Keys == fs.Keys + {Filename(Hash(p, kind, data))}
    ensures forall k | k in fs :: r[k] == fs[k]
  {
    if Saved(fs, p, kind, data) then fs
    else fs[Filename(Hash(p, kind, data)) := p.deflate(Contents(kind, data))]
  }

  /** `Sha1File.destroy`: true iff a file existed, and it is gone after. */
  function Destroy(fs: Files, hash: Bytes): (r: (Files, bool))
    ensures r.1 <==> Exists(fs, hash)
    ensures !Exists(r.0, hash)
    ensures r.0 == fs - {Filename(hash)}
  {
    if Exists(fs, hash) then (fs - {Filename(hash)}, true) else (fs, false)
  }

  /** After a fresh `save`, the file under the hash inflates to the contents. */
  lemma SavedFile(fs: Files, p: Primitives, kind: Bytes, data: Bytes)
    requires Sound(p)
    requires !Saved(fs, p, kind, data)
    ensures Exists(Save(fs, p, kind, data), Hash(p, kind, data))
    ensures p.inflate(Save(fs, p, kind, data)[Filename(Hash(p, kind, data))]) == Some(Contents(kind, data))
  {
    var c := Contents(kind, data);
    assert Save(fs, p, kind, data)[Filename(Hash(p, kind, data))] == p.deflate(c);
  }

  /** `find` on a present file whose checksum holds, given the header match. */
  lemma FindReadsHeader(fs: Files, hash: Bytes, p: Primitives, c: Bytes, h: Header)
    requires Exists(fs, hash)
    requires p.inflate(fs[Filename(hash)]) == Some(c)
    requires p.sha1Hex(c) == hash
    requires FirstMatch(c, 0, false) == Some(h)
    ensures h.kind !in VALID_OBJECTS ==> Find(fs, hash, p) == Err(CorruptSha1File(BadType))
    ensures h.kind in VALID_OBJECTS && AllDigits(h.digits) && |h.body| != Value(h.digits) ==>
      Find(fs, hash, p) == Err(CorruptSha1File(BadLength))
    ensures h.kind in VALID_OBJECTS && AllDigits(h.digits) && |h.body| == Value(h.digits) ==>
      Find(fs, hash, p) == Ok(Some((h.kind, h.body)))
  {
    assert Inflate(p, fs[Filename(hash)]) == Ok(c);
  }

  /** The subdirectory and file name concatenate back to the hash. */
  lemma FilenameSplitsHash(hash: Bytes)
    ensures Subdir(hash) + Rest(hash) == hash
    ensures |hash| >= SUBDIR_LENGTH ==> |Subdir(hash)| == SUBDIR_LENGTH
  {
  }

  /** For any hash of two or more characters both engines use one file. */
  lemma SameFileAsLooseObject(hash: Bytes)
    requires |hash| >= SUBDIR_LENGTH
    ensures LooseObject.Path(hash) == Ok(Filename(hash))
  {
    if |hash| == SUBDIR_LENGTH {
      assert hash[..SUBDIR_LENGTH] == hash && hash[SUBDIR_LENGTH..] == [];
    }
  }

  /** What `save` writes, `find` returns, provided the type is valid. */
  lemma SaveThenFind(fs: Files, p: Primitives, kind: Bytes, data: Bytes)
    requires Sound(p)
    requires kind in VALID_OBJECTS
    requires !Saved(fs, p, kind, data)
    ensures Find(Save(fs, p, kind, data), Hash(p, kind, data), p) == Ok(Some((kind, data)))
  {
    ValidObjectsAreWords(kind);
    var c := Contents(kind, data);
    var h := Hash(p, kind, data);
    var fs' := Save(fs, p, kind, data);
    SavedFile(fs, p, kind, data);
    assert FirstMatch(c, 0, false) == Some(Header(kind, Decimal(|data|), data));
    FindReadsHeader(fs', h, p, c, Header(kind, Decimal(|data|), data));
  }

  /** Saving twice writes once. */
  lemma SaveTwiceWritesOnce(fs: Files, p: Primitives, kind: Bytes, data: Bytes)
    ensures Save(Save(fs, p, kind, data), p, kind, data) == Save(fs, p, kind, data)
  {
  }

  /** `save` does not validate: an object saved under a word that is not a
      valid type is written, and `find` then refuses it. */
  lemma SavedInvalidTypeIsRejected(fs: Files, p: Primitives, kind: Bytes, data: Bytes)
    requires Sound(p)
    requires 0 < |kind| && AllWordChars(kind) && kind !in VALID_OBJECTS
    requires !Saved(fs, p, kind, data)
    ensures Find(Save(fs, p, kind, data), Hash(p, kind, data), p) == Err(CorruptSha1File(BadType))
  {
    var c := Contents(kind, data);
    var h := Hash(p, kind, data);
    var fs' := Save(fs, p, kind, data);
    SavedFile(fs, p, kind, data);
    assert FirstMatch(c, 0, false) == Some(Header(kind, Decimal(|data|), data));
    FindReadsHeader(fs', h, p, c, Header(kind, Decimal(|data|), data));
  }

  /** The checksum comes first: a file whose inflated bytes do not hash to
      the name is refused whatever its header says. */
  lemma FindChecksumFirst(fs: Files, hash: Bytes, p: Primitives, contents: Bytes)
    requires Exists(fs, hash)
    requires p.inflate(fs[Filename(hash)]) == Some(contents)
    requires p.sha1Hex(contents) != hash
    ensures Find(fs, hash, p) == Err(CorruptSha1File(BadHash))
  {
  }

  /** After the checksum, the type is checked before the length. */
  lemma FindChecksTypeThenLength(fs: Files, hash: Bytes, p: Primitives, kind: Bytes, digits: Bytes, body: Bytes)
    requires Exists(fs, hash)
    requires 0 < |kind| && AllWordChars(kind) && 0 < |digits| && AllDigits(digits)
    requires p.inflate(fs[Filename(hash)]) == Some(kind + [SP] + digits + [NUL] + body)
    requires p.sha1Hex(kind + [SP] + digits + [NUL] + body) == hash
    ensures kind !in VALID_OBJECTS ==> Find(fs, hash, p) == Err(CorruptSha1File(BadType))
    ensures kind in VALID_OBJECTS && Value(digits) != |body| ==>
      Find(fs, hash, p) == Err(CorruptSha1File(BadLength))
    ensures kind in VALID_OBJECTS && Value(digits) == |body| ==>
      Find(fs, hash, p) == Ok(Some((kind, body)))
  {
    var c := kind + [SP] + digits + [NUL] + body;
    assert c[0..] == c;
    MatchAtHeader(c, 0, kind, digits, body);
  }

  /** The two engines share one store: what this engine's `save` writes
      for a valid type, the loose-object engine's `find` reads back as an
      object with that hash, type and data. */
  lemma SavedFileIsLooseObject(fs: Files, p: Primitives, kind: Bytes, data: Bytes)
    requires Sound(p)
    requires kind in VALID_OBJECTS
    requires !Saved(fs, p, kind, data)
    ensures LooseObject.Find(Save(fs, p, kind, data), Hash(p, kind, data), p) ==
      Ok(Some(LooseObject.LooseObject(Hash(p, kind, data), kind, data)))
  {
    var h := Hash(p, kind, data);
    var fs' := Save(fs, p, kind, data);
    SameFileAsLooseObject(h);
    SavedFile(fs, p, kind, data);
    LooseObject.FindCanonical(fs', h, kind, data, p);
  }

  /** And the other way: what the loose-object engine's `save` writes for
      a new object, this engine's `find` returns as its type and data. */
  lemma LooseObjectFileIsFound(fs: Files, o: LooseObject.LooseObject, p: Primitives)
    requires Sound(p)
    requires LooseObject.Save(fs, o, p).Ok?
    requires LooseObject.Path(o.hash).value !in fs
    ensures Find(LooseObject.Save(fs, o, p).value.0, o.hash, p) == Ok(Some((o.kind, o.dump)))
  {
    var fs' := LooseObject.Save(fs, o, p).value.0;
    var c := Canonical(o.kind, o.dump);
    ValidObjectsAreWords(o.kind);
    SameFileAsLooseObject(o.hash);
    assert fs'[Filename(o.hash)] == p.deflate(c);
    HeaderRoundTrip(o.kind, o.dump, false);
    FindReadsHeader(fs', o.hash, p, c, Header(o.kind, Decimal(|o.dump|), o.dump));
  }
}
