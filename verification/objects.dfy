/** Objects and their route to disk (lib/git/object.rb, with the
    per-object half of lib/git/store/sha1_file.rb): an object's `type`,
    `Git::Object.load`'s dispatch on a type name, and `find`/`save`
    through the SHA-1 file engine. */
module Objects {
  import opened Bytes
  import opened Wrappers
  import opened Errors
  import opened Externals
  import opened CanonicalForm
  import opened ObjectType
  import opened CommitText
  import opened Proxyable
  import Tree
  import Blob
  import Commit
  import Sha1File
  import LooseObject

  datatype GitObject =
    | BlobObject(blob: Blob.Blob)
    | TreeObject(entries: seq<Tree.Entry>)
    | CommitObject(commit: Lazy<Commit.Fields>)

  /** The readings `Commit#_dump` takes from the environment:
      `Git::Author.default` and two `DateTime.now`. */
  datatype Env = Env(committer: Person, now1: Timestamp, now2: Timestamp)

  function KindOf(o: GitObject): Kind {
    match o
    case BlobObject(_) => BlobKind
    case TreeObject(_) => TreeKind
    case CommitObject(_) => CommitKind
  }

  /** `type`: one of the types a stored file may hold, and the name `load`
      dispatches back to the same class. */
  function Type(o: GitObject): (r: Bytes)
    ensures r == Stored(KindOf(o))
    ensures r in VALID_OBJECTS
    ensures KindNamed(r) == Some(KindOf(o))
  {
    TypeNames(KindOf(o));
    KindNamedInvertsTypeName(KindOf(o));
    StoredIsValid(KindOf(o));
    TypeName(KindOf(o))
  }

  lemma StoredIsValid(k: Kind)
    ensures Stored(k) in VALID_OBJECTS
  {
    match k
    case BlobKind => assert Stored(k) == VALID_OBJECTS[0];
    case TreeKind => assert Stored(k) == VALID_OBJECTS[2];
    case CommitKind => assert Stored(k) == VALID_OBJECTS[1];
  }

  /** `dump`, i.e. the class's `_dump`. A tree's `_dump` is an empty stub
      and a blob may hold `nil`; either has no dump to store. */
  function Dump(o: GitObject, env: Env): (r: Result<(GitObject, Bytes), Error>)
    ensures r.Ok? ==> KindOf(r.value.0) == KindOf(o)
    ensures o.TreeObject? ==> r == Err(NilDump)
    ensures o.BlobObject? ==> (r.Ok? <==> o.blob.contents.Some?)
    ensures o.BlobObject? && r.Ok? ==> r.value == (o, o.blob.contents.value)
    ensures o.CommitObject? && o.commit.Proxied? ==> r == Ok((o, o.commit.dump))
  {
    match o
    case BlobObject(b) =>
      if Blob.Dump(b).None? then Err(NilDump) else Ok((o, Blob.Dump(b).value))
    case TreeObject(_) => Err(NilDump)
    case CommitObject(c) =>
      var p :- Commit.DumpObject(c, env.committer, env.now1, env.now2);
      Ok((CommitObject(p.0), p.1))
  }

  /** `Git::Object.load(type, data)`: the class named by the capitalized
      type, given the data through its `_load`. A tree's `_load` is an empty
      stub, so a loaded tree has no entries. */
  function Load(typeName: Bytes, data: Bytes): (r: Result<GitObject, Error>)
    ensures r.Err? <==> KindNamed(typeName).None?
    ensures r.Err? ==> r.error == UnknownClass
    ensures r.Ok? ==> Some(KindOf(r.value)) == KindNamed(typeName)
  {
    match KindNamed(typeName)
    case None => Err(UnknownClass)
    case Some(k) => Ok(LoadAs(k, data))
  }

  /** `klass.load(data)`: a new object of the class, given the data
      through its `_load`. */
  function LoadAs(k: Kind, data: Bytes): (r: GitObject)
    ensures KindOf(r) == k
  {
    match k
    case BlobKind => BlobObject(Blob.Load(data))
    case TreeKind => TreeObject([])
    case CommitKind => CommitObject(Commit.Load(data))
  }

  /** `Git::Object.find(id)`: nil when no file holds the id, otherwise the
      stored object, loaded from the file's type and data. */
  function Find(fs: Sha1File.Files, p: Primitives, id: Bytes): (r: Result<Option<GitObject>, Error>)
    ensures r == Ok(None) <==> !Sha1File.Exists(fs, id)
    ensures r.Ok? && r.value.Some? ==>
      && Sha1File.Find(fs, id, p).Ok? && Sha1File.Find(fs, id, p).value.Some?
      && Some(KindOf(r.value.value)) == KindNamed(Sha1File.Find(fs, id, p).value.value.0)
  {
    var found :- Sha1File.Find(fs, id, p);
    match found
    case None => Ok(None)
    case Some((kind, data)) =>
      var o :- Load(kind, data);
      Ok(Some(o))
  }

  /** `hash` of the object's Sha1File. */
  function Hash(p: Primitives, o: GitObject, env: Env): (r: Result<Bytes, Error>)
    ensures r.Ok? <==> Dump(o, env).Ok?
    ensures r.Ok? ==> r.value == ObjectHash(p, Type(o), Dump(o, env).value.1)
    ensures r.Ok? && Sound(p) ==> IsHexDigest(r.value)
    ensures r.Ok? ==> forall h ::
      LooseObject.Verify(p, h, Type(o), |Dump(o, env).value.1|, Dump(o, env).value.1).None? <==> h == r.value
  {
    var d :- Dump(o, env);
    Ok(Sha1File.Hash(p, Type(o), d.1))
  }

  /** `save`: `Sha1File.new(self).save`, writing the contents only if no
      file has them yet. Ruby returns the Sha1File; the model returns the
      object it holds, with the defaults `_dump` filled in. */
  function Save(fs: Sha1File.Files, p: Primitives, o: GitObject, env: Env): (r: Result<(Sha1File.Files, GitObject), Error>)
    ensures r.Err? <==> Dump(o, env).Err?
    ensures r.Ok? ==> Hash(p, o, env).Ok? && Sha1File.Exists(r.value.0, Hash(p, o, env).value)
    ensures r.Ok? ==> r.value.0.Keys == fs.Keys + {Sha1File.Filename(Hash(p, o, env).value)}
    ensures r.Ok? ==> forall k | k in fs :: r.value.0[k] == fs[k]
    ensures r.Ok? ==> r.value.1 == Dump(o, env).value.0 && KindOf(r.value.1) == KindOf(o)
  {
    var d :- Dump(o, env);
    Ok((Sha1File.Save(fs, p, Type(o), d.1), d.0))
  }

  /** `find` returns nil when no file holds the id. */
  lemma FindMissing(fs: Sha1File.Files, p: Primitives, id: Bytes)
    requires !Sha1File.Exists(fs, id)
    ensures Find(fs, p, id) == Ok(None)
  {
  }

  /** Every class loads back from its own type name. */
  lemma LoadDispatchesOnType(o: GitObject, data: Bytes)
    ensures Load(Type(o), data).Ok? && KindOf(Load(Type(o), data).value) == KindOf(o)
  {
  }

  /** `tag` passes the store's type check but has no class to load. */
  lemma TagCannotLoad(data: Bytes)
    ensures Load(TAG, data) == Err(UnknownClass)
  {
    TagHasNoClass();
  }

  /** A saved blob is found again under its hash, with the same contents. */
  lemma SaveThenFindBlob(fs: Sha1File.Files, p: Primitives, b: Blob.Blob, env: Env)
    requires Sound(p)
    requires b.contents.Some?
    requires !Sha1File.Saved(fs, p, Type(BlobObject(b)), b.contents.value)
    ensures Save(fs, p, BlobObject(b), env).Ok?
    ensures Hash(p, BlobObject(b), env).Ok?
    ensures Find(Save(fs, p, BlobObject(b), env).value.0, p, Hash(p, BlobObject(b), env).value) == Ok(Some(BlobObject(b)))
  {
    var o := BlobObject(b);
    SaveThenFindDump(fs, p, o, env, (o, b.contents.value));
  }

  /** A saved commit is found again under its hash as a proxied commit
      holding exactly the text that was written. */
  lemma SaveThenFindCommit(fs: Sha1File.Files, p: Primitives, c: Lazy<Commit.Fields>, env: Env)
    requires Sound(p)
    requires Dump(CommitObject(c), env).Ok?
    requires !Sha1File.Saved(fs, p, Type(CommitObject(c)), Dump(CommitObject(c), env).value.1)
    ensures Save(fs, p, CommitObject(c), env).Ok?
    ensures Find(Save(fs, p, CommitObject(c), env).value.0, p, Hash(p, CommitObject(c), env).value) ==
      Ok(Some(CommitObject(Commit.Load(Dump(CommitObject(c), env).value.1))))
  {
    SaveThenFindDump(fs, p, CommitObject(c), env, Dump(CommitObject(c), env).value);
  }

  /** Any object that dumps is found again under its hash, loaded from its
      dump as a new object of its class. */
  lemma SaveThenFindDump(fs: Sha1File.Files, p: Primitives, o: GitObject, env: Env, d: (GitObject, Bytes))
    requires Sound(p)
    requires Dump(o, env) == Ok(d)
    requires !Sha1File.Saved(fs, p, Type(o), d.1)
    ensures Save(fs, p, o, env).Ok? && Hash(p, o, env).Ok?
    ensures Find(Save(fs, p, o, env).value.0, p, Hash(p, o, env).value) == Ok(Some(LoadAs(KindOf(o), d.1)))
  {
    Sha1File.SaveThenFind(fs, p, Type(o), d.1);
  }

  /** Dumping fills in the defaults once; dumping the result again writes
      the same text and changes nothing more. */
  lemma DumpSettles(o: GitObject, env: Env)
    requires Dump(o, env).Ok?
    ensures Dump(Dump(o, env).value.0, env) == Dump(o, env)
  {
  }

  /** Saving an object twice writes once: the second save finds the file
      the first one wrote. */
  lemma SaveTwiceWritesOnce(fs: Sha1File.Files, p: Primitives, o: GitObject, env: Env)
    requires Save(fs, p, o, env).Ok?
    ensures var (fs1, o1) := Save(fs, p, o, env).value;
      Save(fs1, p, o1, env) == Ok((fs1, o1))
  {
    var d := Dump(o, env).value;
    DumpSettles(o, env);
    Sha1File.SaveTwiceWritesOnce(fs, p, Type(o), d.1);
  }
}
