/** The storage façade (lib/git/store.rb): a list of reader engines and
    one writer engine among them. An engine is abstract: what it contains,
    and its own answer to `disambiguate`, which no shown engine defines. */
module Store {
  import opened Bytes
  import opened Wrappers
  import opened Errors
  import opened Seqs

  /** An object as an engine returns it from `get`: `[type, dump]`. */
  datatype Stored = Stored(kind: Bytes, dump: Bytes)

  datatype Engine = Engine(objects: map<Bytes, Stored>, disambiguate: Bytes -> seq<Bytes>)

  /** `readers`, and the writer given as its position among them, so that
      a write through the writer is seen by the reader it aliases. */
  datatype Store = Store(readers: seq<Engine>, writer: nat) {
    predicate Valid() {
      writer < |readers|
    }
  }

  /** `initialize`: one engine, which is both the only reader and the writer. */
  function Open(engine: Engine): (s: Store)
    ensures s.Valid() && |s.readers| == 1
    ensures s.readers[s.writer] == engine
  {
    Store([engine], 0)
  }

  /** `readers.detect {|store| store.contains?(id) }`: the first reader
      containing `id`, if any. */
  function Detect(readers: seq<Engine>, id: Bytes): (r: Option<nat>)
    ensures r.Some? ==>
      && r.value < |readers|
      && id in readers[r.value].objects
      && forall j | 0 <= j < r.value :: id !in readers[j].objects
    ensures r.None? ==> forall j | 0 <= j < |readers| :: id !in readers[j].objects
  {
    if |readers| == 0 then None
    else if id in readers[0].objects then Some(0)
    else
      match Detect(readers[1..], id)
      case None => None
      case Some(k) => Some(k + 1)
  }

  /** `contains?`: true iff some reader contains `id`. */
  function Contains(s: Store, id: Bytes): (r: bool)
    ensures r <==> exists j :: 0 <= j < |s.readers| && id in s.readers[j].objects
  {
    Detect(s.readers, id).Some?
  }

  /** `get`: the first containing reader's `[type, dump]`; ObjectNotFound
      when no reader contains `id`. */
  function Get(s: Store, id: Bytes): (r: Result<Stored, Error>)
    ensures r.Err? <==> !Contains(s, id)
    ensures r.Err? ==> r.error == ObjectNotFound(Missing)
    ensures r.Ok? ==> exists k ::
      && 0 <= k < |s.readers|
      && id in s.readers[k].objects
      && r.value == s.readers[k].objects[id]
      && forall j | 0 <= j < k :: id !in s.readers[j].objects
  {
    match Detect(s.readers, id)
    case None => Err(ObjectNotFound(Missing))
    case Some(k) => Ok(s.readers[k].objects[id])
  }

  /** `put`: the writer stores the object only when no reader already
      contains `id`; returns the id when it wrote, nil when it did not. */
  function Put(s: Store, id: Bytes, kind: Bytes, dump: Bytes): (r: (Store, Option<Bytes>))
    requires s.Valid()
    ensures r.0.Valid() && |r.0.readers| == |s.readers| && r.0.writer == s.writer
    ensures Contains(s, id) ==> r == (s, None)
    ensures !Contains(s, id) ==>
      && r.1 == Some(id)
      && r.0.readers[s.writer].objects == s.readers[s.writer].objects[id := Stored(kind, dump)]
      && forall j | 0 <= j < |s.readers| && j != s.writer :: r.0.readers[j] == s.readers[j]
  {
    if Contains(s, id) then (s, None)
    else
      var w := s.readers[s.writer];
      var w' := w.(objects := w.objects[id := Stored(kind, dump)]);
      (s.(readers := s.readers[s.writer := w']), Some(id))
  }

  /** Every reader's answer to `disambiguate(id)`, in reader order. */
  function Answers(s: Store, id: Bytes): seq<seq<Bytes>> {
    seq(|s.readers|, i requires 0 <= i < |s.readers| => s.readers[i].disambiguate(id))
  }

  /** The distinct ids any reader offers for `id`. */
  function Candidates(s: Store, id: Bytes): set<Bytes> {
    set i, x | 0 <= i < |s.readers| && x in s.readers[i].disambiguate(id) :: x
  }

  /** `disambiguate`: `readers.map { disambiguate }.flatten.uniq`; the id
      when exactly one remains, ObjectNotFound for none or several. */
  function Disambiguate(s: Store, id: Bytes): (r: Result<Bytes, Error>)
    ensures r.Ok? <==> |Candidates(s, id)| == 1
    ensures r.Ok? ==> Candidates(s, id) == {r.value}
    ensures r == Err(ObjectNotFound(Missing)) <==> Candidates(s, id) == {}
    ensures r == Err(ObjectNotFound(Ambiguous)) <==> |Candidates(s, id)| > 1
  {
    var ids := Uniq(Flatten(Answers(s, id)));
    DistinctAnswers(s, id);
    if |ids| == 1 then
      SingletonElements(ids);
      Ok(ids[0])
    else if |ids| == 0 then
      Err(ObjectNotFound(Missing))
    else
      Err(ObjectNotFound(Ambiguous))
  }

  lemma SingletonElements<T>(s: seq<T>)
    requires |s| == 1
    ensures Elements(s) == {s[0]}
  {
  }

  /** The uniq'd answers are exactly the candidates, one entry each. */
  lemma DistinctAnswers(s: Store, id: Bytes)
    ensures Elements(Uniq(Flatten(Answers(s, id)))) == Candidates(s, id)
    ensures |Uniq(Flatten(Answers(s, id)))| == |Candidates(s, id)|
  {
    CandidatesAreFlattened(s, id);
    UniqLength(Flatten(Answers(s, id)));
  }

  lemma CandidatesAreFlattened(s: Store, id: Bytes)
    ensures Elements(Flatten(Answers(s, id))) == Candidates(s, id)
  {
    var flat := Flatten(Answers(s, id));
    forall x | x in Candidates(s, id)
      ensures x in Elements(flat)
    {
      var i, j :| 0 <= i < |s.readers| && 0 <= j < |s.readers[i].disambiguate(id)| && s.readers[i].disambiguate(id)[j] == x;
      assert Answers(s, id)[i][j] == x;
    }
    forall x | x in Elements(flat)
      ensures x in Candidates(s, id)
    {
      var k :| 0 <= k < |flat| && flat[k] == x;
      var i :| 0 <= i < |Answers(s, id)| && x in Answers(s, id)[i];
    }
  }

  /** After `put` of a new id, `get` yields the type and dump put. */
  lemma PutThenGet(s: Store, id: Bytes, kind: Bytes, dump: Bytes)
    requires s.Valid()
    requires !Contains(s, id)
    ensures Get(Put(s, id, kind, dump).0, id) == Ok(Stored(kind, dump))
  {
    var s' := Put(s, id, kind, dump).0;
    assert id in s'.readers[s.writer].objects;
    var k :| 0 <= k < |s'.readers| && id in s'.readers[k].objects && Get(s', id).value == s'.readers[k].objects[id]
      && forall j | 0 <= j < k :: id !in s'.readers[j].objects;
  }

  /** `put` of an id already present changes nothing that `get` sees. */
  lemma PutIsWriteOnce(s: Store, id: Bytes, kind: Bytes, dump: Bytes)
    requires s.Valid()
    requires Contains(s, id)
    ensures Get(Put(s, id, kind, dump).0, id) == Get(s, id)
    ensures Put(s, id, kind, dump).1 == None
  {
  }
}
