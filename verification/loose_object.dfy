/** The loose-object engine (lib/git/store/loose_object.rb): one deflated
    file per object, named by the object's hash with a directory separator
    after its first two characters. The filesystem is the map `Files` from
    a path below the objects directory to the bytes of the file. */
module LooseObject {
  import opened Bytes
  import opened Wrappers
  import opened Errors
  import opened Numerals
  import opened Externals
  import opened CanonicalForm

  const SUBDIR_LENGTH: nat := 2

  /** The objects directory: path below it to deflated file contents. */
  type Files = map<Bytes, Bytes>

  datatype LooseObject = LooseObject(hash: Bytes, kind: Bytes, dump: Bytes)

  /** `hash.dup.insert(SUBDIR_LENGTH, File::SEPARATOR)`; Ruby raises an
      IndexError when the hash is shorter than the insertion point. */
  function Path(hash: Bytes): (r: Result<Bytes, Error>)
    ensures r.Ok? <==> |hash| >= SUBDIR_LENGTH
    ensures r.Ok? ==>
      && |r.value| == |hash| + 1
      && r.value[SUBDIR_LENGTH] == SLASH
      && r.value[..SUBDIR_LENGTH] + r.value[SUBDIR_LENGTH + 1..] == hash
    ensures r.Err? ==> r.error == IndexOutOfString
  {
    if |hash| < SUBDIR_LENGTH then Err(IndexOutOfString)
    else
      var path := hash[..SUBDIR_LENGTH] + [SLASH] + hash[SUBDIR_LENGTH..];
      assert path[..SUBDIR_LENGTH] == hash[..SUBDIR_LENGTH];
      assert path[SUBDIR_LENGTH + 1..] == hash[SUBDIR_LENGTH..];
      Ok(path)
  }

  /** `verify_type`, `verify_length` and `verify_hash`, in that order: the
      first failing check names the error. */
  function Verify(p: Primitives, hash: Bytes, kind: Bytes, length: nat, dump: Bytes): (r: Option<Error>)
    ensures r.None? <==> kind in VALID_OBJECTS && length == |dump| && hash == ObjectHash(p, kind, dump)
  {
    if kind !in VALID_OBJECTS then Some(CorruptLooseObject(BadType))
    else if length != |dump| then Some(CorruptLooseObject(BadLength))
    else if hash != ObjectHash(p, kind, dump) then Some(CorruptLooseObject(BadHash))
    else None
  }

  /** `exists?`: whether a file is present for the hash. */
  function Exists(fs: Files, hash: Bytes): (r: Result<bool, Error>)
    ensures r.Ok? <==> Path(hash).Ok?
    ensures r.Ok? ==> (r.value <==> Path(hash).value in fs)
  {
    var path :- Path(hash);
    Ok(path in fs)
  }

  /** `LooseObject.find`: nil when no file exists; otherwise the header is
      matched, then type, length and hash are verified before the object
      is returned. */
  function Find(fs: Files, hash: Bytes, p: Primitives): (r: Result<Option<LooseObject>, Error>)
    ensures r == Ok(None) <==> Path(hash).Ok? && Path(hash).value !in fs
    ensures r.Ok? && r.value.Some? ==>
      var o := r.value.value;
      && o.hash == hash
      && o.kind in VALID_OBJECTS
      && hash == ObjectHash(p, o.kind, o.dump)
  {
    var path :- Path(hash);
    if path !in fs then Ok(None)
    else
      var contents :- Inflate(p, fs[path]);
      match FirstMatch(contents, 0, true)
      case None => Err(HeaderMismatch)
      case Some(h) =>
        var failure := Verify(p, hash, h.kind, Value(h.digits), h.body);
        if failure.Some? then Err(failure.value)
        else Ok(Some(LooseObject(hash, h.kind, h.body)))
  }

  /** `saved?`: a file already exists for the object's hash. */
  function Saved(fs: Files, o: LooseObject): Result<bool, Error> {
    Exists(fs, o.hash)
  }

  /** `save`: when no file exists yet, verify the object and write its
      deflated canonical form; otherwise do nothing. Returns the object.
      A new object that fails verification raises `CorruptLooseObject`
      with the first failing check. */
  function Save(fs: Files, o: LooseObject, p: Primitives): (r: Result<(Files, LooseObject), Error>)
    ensures r.Ok? <==>
      Path(o.hash).Ok? && (Path(o.hash).value in fs || Verify(p, o.hash, o.kind, |o.dump|, o.dump).None?)
    ensures r.Err? && Path(o.hash).Ok? ==> r.error == Verify(p, o.hash, o.kind, |o.dump|, o.dump).value
    ensures r.Err? && Path(o.hash).Err? ==> r.error == IndexOutOfString
    ensures r.Ok? ==> r.value.1 == o
    ensures r.Ok? ==> Path(o.hash).Ok?
    ensures r.Ok? && Path(o.hash).value in fs ==> r.value.0 == fs
    ensures r.Ok? ==>
      && r.value.0.Keys == fs.Keys + {Path(o.hash).value}
      && forall k | k in fs :: r.value.0[k] == fs[k]
    ensures r.Ok? && Path(o.hash).value !in fs ==>
      r.value.0[Path(o.hash).value] == p.deflate(Canonical(o.kind, o.dump))
  {
    var path :- Path(o.hash);
    if path in fs then Ok((fs, o))
    else
      var failure := Verify(p, o.hash, o.kind, |o.dump|, o.dump);
      if failure.Some? then Err(failure.value)
      else Ok((fs[path := p.deflate(Canonical(o.kind, o.dump))], o))
  }

  /** `LooseObject.create`: construct and save. */
  function Create(fs: Files, hash: Bytes, kind: Bytes, dump: Bytes, p: Primitives): (r: Result<(Files, LooseObject), Error>)
    ensures r.Ok? ==> r.value.1 == LooseObject(hash, kind, dump)
  {
    Save(fs, LooseObject(hash, kind, dump), p)
  }

  /** `LooseObject.destroy`: removes the file and returns the hash, or
      returns nil when there was no file. */
  function Destroy(fs: Files, hash: Bytes): (r: Result<(Files, Option<Bytes>), Error>)
    ensures r.Ok? <==> Path(hash).Ok?
    ensures r.Ok? ==>
      && r.value.0 == fs - {Path(hash).value}
      && (r.value.1 == Some(hash) <==> Path(hash).value in fs)
      && (r.value.1 == None <==> Path(hash).value !in fs)
  {
    var path :- Path(hash);
    if path in fs then Ok((fs - {path}, Some(hash))) else Ok((fs, None))
  }

  /** Distinct hashes never share a file. */
  lemma PathInjective(a: Bytes, b: Bytes)
    requires Path(a).Ok? && Path(b).Ok? && Path(a).value == Path(b).value
    ensures a == b
  {
  }

  /** A file holding the deflated canonical form of a valid object under
      its own hash is found as that object. */
  lemma FindCanonical(fs: Files, hash: Bytes, kind: Bytes, dump: Bytes, p: Primitives)
    requires Path(hash).Ok? && Path(hash).value in fs
    requires p.inflate(fs[Path(hash).value]) == Some(Canonical(kind, dump))
    requires kind in VALID_OBJECTS && hash == ObjectHash(p, kind, dump)
    ensures Find(fs, hash, p) == Ok(Some(LooseObject(hash, kind, dump)))
  {
    ValidObjectsAreWords(kind);
    HeaderRoundTrip(kind, dump, true);
  }

  /** What `save` writes, `find` reads back as the same object. */
  lemma SaveThenFind(fs: Files, o: LooseObject, p: Primitives)
    requires Sound(p)
    requires Save(fs, o, p).Ok?
    requires Path(o.hash).value !in fs
    ensures Find(Save(fs, o, p).value.0, o.hash, p) == Ok(Some(o))
  {
    var path := Path(o.hash).value;
    var fs' := Save(fs, o, p).value.0;
    assert fs'[path] == p.deflate(Canonical(o.kind, o.dump));
    assert p.inflate(p.deflate(Canonical(o.kind, o.dump))) == Some(Canonical(o.kind, o.dump));
    FindCanonical(fs', o.hash, o.kind, o.dump, p);
  }

  /** A second `save` of the same object is a no-op returning the object. */
  lemma SaveTwiceWritesOnce(fs: Files, o: LooseObject, p: Primitives)
    requires Save(fs, o, p).Ok?
    ensures Save(Save(fs, o, p).value.0, o, p) == Ok((Save(fs, o, p).value.0, o))
  {
  }

  /** After `destroy`, `find` reports the object absent. */
  lemma DestroyThenFind(fs: Files, hash: Bytes, p: Primitives)
    requires Destroy(fs, hash).Ok?
    ensures Find(Destroy(fs, hash).value.0, hash, p) == Ok(None)
  {
  }

  /** `find` checks a well-formed file in the order type, length, hash: a
      bad type is reported whatever the length and hash, a bad length
      whatever the hash. */
  lemma FindChecksInOrder(fs: Files, hash: Bytes, p: Primitives, kind: Bytes, digits: Bytes, body: Bytes)
    requires Path(hash).Ok? && Path(hash).value in fs
    requires 0 < |kind| && AllWordChars(kind) && 0 < |digits| && AllDigits(digits)
    requires p.inflate(fs[Path(hash).value]) == Some(kind + [SP] + digits + [NUL] + body)
    ensures kind !in VALID_OBJECTS ==> Find(fs, hash, p) == Err(CorruptLooseObject(BadType))
    ensures kind in VALID_OBJECTS && Value(digits) != |body| ==>
      Find(fs, hash, p) == Err(CorruptLooseObject(BadLength))
    ensures kind in VALID_OBJECTS && Value(digits) == |body| && hash != ObjectHash(p, kind, body) ==>
      Find(fs, hash, p) == Err(CorruptLooseObject(BadHash))
    ensures kind in VALID_OBJECTS && Value(digits) == |body| && hash == ObjectHash(p, kind, body) ==>
      Find(fs, hash, p) == Ok(Some(LooseObject(hash, kind, body)))
  {
    var c := kind + [SP] + digits + [NUL] + body;
    assert c[0..] == c;
    MatchAtHeader(c, 0, kind, digits, body);
  }
}
