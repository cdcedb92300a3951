/** The commit object (lib/git/object/commit.rb): seven proxied attributes,
    `_dump` filling in the unset ones and writing the text, and `_load`
    deferring the parse of a dump until an attribute is used. The tree and
    the parents are kept as the ids the text names. */
module Commit {
  import opened Bytes
  import opened Wrappers
  import opened Errors
  import opened Seqs
  import opened CommitText
  import opened Proxyable

  /** A commit's attributes; `None` is Ruby's `nil`. */
  datatype Fields = Fields(
    tree: Option<Bytes>,
    parents: seq<Bytes>,
    author: Option<Person>,
    committer: Option<Person>,
    authoredAt: Option<Timestamp>,
    committedAt: Option<Timestamp>,
    message: Option<Bytes>)

  /** The `attr_proxied` declarations, in order. */
  function Declarations(): seq<Bytes> {
    [Ascii("author"), Ascii("committer"), Ascii("message"), Ascii("tree"),
     Ascii("parents"), Ascii("authored_at"), Ascii("committed_at")]
  }

  /** `proxied_attributes` of the commit class: seven distinct names, so
      every proxied write loads the dump first. */
  lemma CommitAttributes()
    ensures AttrProxied([], Declarations()) == Declarations()
    ensures |AttrProxied([], Declarations())| == 7
  {
    var d := Declarations();
    assert d[2][0] != d[4][0] by {
      assert Ascii("message")[0] == 109 && Ascii("parents")[0] == 112;
    }
    assert NoDup(d);
    assert [] + d == d;
    UniqOfNoDup(d);
  }

  /** `initialize(tree = nil, message = nil, *parents)`. */
  function New(tree: Option<Bytes>, message: Option<Bytes>, parents: seq<Bytes>): (r: Fields)
    ensures r.tree == tree && r.message == message && r.parents == parents
    ensures r.author.None? && r.committer.None? && r.authoredAt.None? && r.committedAt.None?
  {
    Fields(tree, parents, None, None, None, None, message)
  }

  /** The `||=` lines of `_dump`. `Git::Author.default` and the two
      `DateTime.now` readings are parameters. */
  function WithDefaults(f: Fields, defaultCommitter: Person, now1: Timestamp, now2: Timestamp): (r: Fields)
    ensures r.committer.Some? && r.author.Some? && r.authoredAt.Some? && r.committedAt.Some?
    ensures f.committer.Some? ==> r.committer == f.committer
    ensures f.author.Some? ==> r.author == f.author
    ensures f.author.None? ==> r.author == r.committer
    ensures f.authoredAt.Some? ==> r.authoredAt == f.authoredAt
    ensures f.committedAt.Some? ==> r.committedAt == f.committedAt
    ensures r.tree == f.tree && r.parents == f.parents && r.message == f.message
  {
    var committer := Some(f.committer.GetOr(defaultCommitter));
    f.(committer := committer,
       author := if f.author.Some? then f.author else committer,
       authoredAt := Some(f.authoredAt.GetOr(now1)),
       committedAt := Some(f.committedAt.GetOr(now2)))
  }

  /** The text fields of a commit whose attributes are all set; a `nil`
      message is written as the empty string. */
  function DataOf(f: Fields): (c: CommitData)
    requires f.tree.Some? && f.author.Some? && f.committer.Some?
    requires f.authoredAt.Some? && f.committedAt.Some?
    ensures c.tree == f.tree.value && c.parents == f.parents
    ensures Some(c.author) == f.author && Some(c.committer) == f.committer
    ensures f.message.Some? ==> c.message == f.message.value
    ensures f.message.None? ==> c.message == []
  {
    CommitData(f.tree.value, f.parents, f.author.value, f.authoredAt.value,
      f.committer.value, f.committedAt.value, f.message.GetOr([]))
  }

  /** The attributes `_load` assigns from the text fields. */
  function FieldsOf(c: CommitData): (f: Fields)
    ensures f.tree == Some(c.tree) && f.parents == c.parents && f.message == Some(c.message)
    ensures f.author == Some(c.author) && f.authoredAt == Some(c.authoredAt)
    ensures f.committer == Some(c.committer) && f.committedAt == Some(c.committedAt)
  {
    Fields(Some(c.tree), c.parents, Some(c.author), Some(c.committer),
      Some(c.authoredAt), Some(c.committedAt), Some(c.message))
  }

  /** `_dump` of a loaded commit: the attributes with defaults filled in,
      and their text. A commit without a tree has no id to write. */
  function Dump(f: Fields, defaultCommitter: Person, now1: Timestamp, now2: Timestamp): (r: Result<(Fields, Bytes), Error>)
    ensures r.Err? <==> f.tree.None?
    ensures r.Err? ==> r.error == NilDump
    ensures r.Ok? ==> r.value.0 == WithDefaults(f, defaultCommitter, now1, now2)
  {
    var g := WithDefaults(f, defaultCommitter, now1, now2);
    if g.tree.None? then Err(NilDump) else Ok((g, Serialize(DataOf(g))))
  }

  /** The loader block of `_load`: read the text with the grammar and
      assign every attribute from it. */
  function LoadFields(dump: Bytes): (r: Option<Fields>)
    ensures r.Some? <==> Parse(dump).Some?
    ensures r.Some? ==> r.value == FieldsOf(Parse(dump).value)
  {
    match Parse(dump)
    case None => None
    case Some(c) => Some(FieldsOf(c))
  }

  /** `_load(dump)` on a new commit: nothing is parsed yet. */
  function Load(dump: Bytes): (r: Lazy<Fields>)
    ensures r.Proxied? && r.dump == dump && r.fields == New(None, None, [])
    ensures forall f :: r.loader(f) == LoadFields(dump)
  {
    Proxy(New(None, None, []), dump, (_: Fields) => LoadFields(dump))
  }

  /** `_dump` of a commit object in either state. */
  function DumpObject(o: Lazy<Fields>, defaultCommitter: Person, now1: Timestamp, now2: Timestamp): (r: Result<(Lazy<Fields>, Bytes), Error>)
    ensures o.Proxied? ==> r == Ok((o, o.dump))
    ensures o.Loaded? ==> (r.Ok? <==> o.fields.tree.Some?)
  {
    match VerbatimDump(o)
    case Some(d) => Ok((o, d))
    case None =>
      var p :- Dump(o.fields, defaultCommitter, now1, now2);
      Ok((Loaded(p.0), p.1))
  }

  /** Loading what `_dump` wrote gives back the attributes it wrote,
      every parent in order, with a `nil` message read back as empty. */
  lemma DumpThenLoad(f: Fields, defaultCommitter: Person, now1: Timestamp, now2: Timestamp)
    requires f.tree.Some?
    requires WellFormed(DataOf(WithDefaults(f, defaultCommitter, now1, now2)))
    ensures Dump(f, defaultCommitter, now1, now2).Ok?
    ensures var g := Dump(f, defaultCommitter, now1, now2).value.0;
      LoadFields(Dump(f, defaultCommitter, now1, now2).value.1) == Some(g.(message := Some(g.message.GetOr([]))))
  {
    var g := WithDefaults(f, defaultCommitter, now1, now2);
    ParseSerialize(DataOf(g));
  }

  /** A commit read from a store is dumped again verbatim, parsed or not,
      and the first attribute read parses it. */
  lemma LoadedCommitIsLazy(c: CommitData, defaultCommitter: Person, now1: Timestamp, now2: Timestamp)
    requires WellFormed(c)
    ensures DumpObject(Load(Serialize(c)), defaultCommitter, now1, now2) == Ok((Load(Serialize(c)), Serialize(c)))
    ensures Read(Load(Serialize(c)), (f: Fields) => f.parents) == Ok((Loaded(FieldsOf(c)), c.parents))
  {
    ParseSerialize(c);
  }
}
