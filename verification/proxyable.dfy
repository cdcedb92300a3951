/** Deferred loading (lib/git/proxyable.rb). `proxy!` rewrites an object's
    methods at run time so that its dump is parsed only when a proxied
    attribute is first used; `unproxy!` puts the originals back. The model
    makes the two method tables two states of a datatype: `Proxied` holds
    the verbatim dump and the deferred loader, `Loaded` holds only fields.
    `inspect` switches together with `_dump`, so the same state bit stands
    for it. */
module Proxyable {
  import opened Bytes
  import opened Wrappers
  import opened Errors
  import opened Seqs

  /** `attr_proxied`: appends the attributes to the class's list and keeps
      the list free of duplicates (`uniq!`). */
  function AttrProxied<A(==)>(declared: seq<A>, attrs: seq<A>): (r: seq<A>)
    ensures NoDup(r)
    ensures Elements(r) == Elements(declared) + Elements(attrs)
  {
    Uniq(declared + attrs)
  }

  /** Declaring attributes already on the list changes nothing. */
  lemma AttrProxiedRedeclared<A>(declared: seq<A>, attrs: seq<A>)
    requires NoDup(declared)
    requires Elements(attrs) <= Elements(declared)
    ensures |AttrProxied(declared, attrs)| == |declared|
  {
    UniqLength(declared + attrs);
    NoDupCardinality(declared);
    assert Elements(declared + attrs) == Elements(declared) by {
      forall x | x in Elements(declared + attrs)
        ensures x in Elements(declared)
      {
        assert x in declared || x in attrs;
      }
    }
  }

  /** An object with deferred loading: `Proxied` between `proxy!` and
      `unproxy!`, with the dump, the current field values and the loader
      block (which fails on a dump it cannot read); `Loaded` afterwards. */
  datatype Lazy<!F> =
    | Proxied(dump: Bytes, fields: F, loader: F -> Option<F>)
    | Loaded(fields: F)

  /** `proxy!(dump, &loader)`. */
  function Proxy<F>(fields: F, dump: Bytes, loader: F -> Option<F>): (r: Lazy<F>)
    ensures r.Proxied? && r.dump == dump && r.fields == fields
  {
    Proxied(dump, fields, loader)
  }

  /** `unproxy!(load)`: back to the original methods, then the loader if
      `load` is set. It is only reached from a proxied accessor. */
  function Unproxy<F>(o: Lazy<F>, load: bool): (r: Result<Lazy<F>, Error>)
    requires o.Proxied?
    ensures r.Ok? ==> r.value.Loaded?
    ensures !load ==> r == Ok(Loaded(o.fields))
    ensures load ==> (r.Ok? <==> o.loader(o.fields).Some?)
    ensures load && r.Ok? ==> r.value.fields == o.loader(o.fields).value
  {
    if !load then Ok(Loaded(o.fields))
    else match o.loader(o.fields)
      case None => Err(MalformedDump)
      case Some(g) => Ok(Loaded(g))
  }

  /** `_dump` while proxied: exactly the dump given to `proxy!`. `None`
      when the class's own `_dump` is back in place. */
  function VerbatimDump<F>(o: Lazy<F>): (r: Option<Bytes>)
    ensures r.Some? <==> o.Proxied?
    ensures o.Proxied? ==> r.value == o.dump
  {
    if o.Proxied? then Some(o.dump) else None
  }

  /** A proxied reader: unproxies with the load, then reads. */
  function Read<F, V>(o: Lazy<F>, get: F -> V): (r: Result<(Lazy<F>, V), Error>)
    ensures o.Loaded? ==> r == Ok((o, get(o.fields)))
    ensures o.Proxied? ==> (r.Ok? <==> o.loader(o.fields).Some?)
    ensures o.Proxied? && r.Ok? ==>
      r.value.0 == Loaded(o.loader(o.fields).value) && r.value.1 == get(r.value.0.fields)
  {
    if o.Loaded? then Ok((o, get(o.fields)))
    else
      var l :- Unproxy(o, true);
      Ok((l, get(l.fields)))
  }

  /** A proxied writer: unproxies, loading first only when other proxied
      attributes could still be read (`count` is the number of proxied
      attributes), then writes. */
  function Write<F>(o: Lazy<F>, assign: F -> F, count: nat): (r: Result<Lazy<F>, Error>)
    ensures r.Ok? ==> r.value.Loaded?
    ensures o.Loaded? ==> r == Ok(Loaded(assign(o.fields)))
    ensures o.Proxied? && count <= 1 ==> r == Ok(Loaded(assign(o.fields)))
    ensures o.Proxied? && count > 1 ==> (r.Ok? <==> o.loader(o.fields).Some?)
    ensures o.Proxied? && count > 1 && r.Ok? ==> r.value.fields == assign(o.loader(o.fields).value)
  {
    if o.Loaded? then Ok(Loaded(assign(o.fields)))
    else
      var l :- Unproxy(o, count > 1);
      Ok(Loaded(assign(l.fields)))
  }

  /** What can happen to a proxyable object. */
  datatype Op<!F> = ReadOp | WriteOp(assign: F -> F) | DumpOp

  /** One operation, with the number of times it ran the loader. A dump
      changes nothing; a read or write leaves the object loaded, and fails
      only when it ran a loader that could not read the dump. */
  function Step<F>(o: Lazy<F>, op: Op<F>, count: nat): (r: Result<(Lazy<F>, nat), Error>)
    ensures op.DumpOp? ==> r == Ok((o, 0))
    ensures r.Ok? && !op.DumpOp? ==> r.value.0.Loaded?
    ensures o.Loaded? ==> r.Ok? && r.value.1 == 0 && r.value.0.Loaded?
    ensures r.Err? ==> o.Proxied? && o.loader(o.fields).None?
    ensures r.Ok? ==> r.value.1 <= 1
    ensures r.Ok? && r.value.1 == 1 ==> o.Proxied? && o.loader(o.fields).Some?
  {
    match op
    case DumpOp => Ok((o, 0))
    case ReadOp =>
      var p :- Read(o, (f: F) => f);
      Ok((p.0, if o.Proxied? then 1 else 0))
    case WriteOp(assign) =>
      var w :- Write(o, assign, count);
      Ok((w, if o.Proxied? && count > 1 then 1 else 0))
  }

  /** A run of operations, with the total number of loader runs. */
  function Run<F>(o: Lazy<F>, ops: seq<Op<F>>, count: nat): Result<(Lazy<F>, nat), Error>
    decreases |ops|
  {
    if |ops| == 0 then Ok((o, 0))
    else
      var s :- Step(o, ops[0], count);
      var t :- Run(s.0, ops[1..], count);
      Ok((t.0, s.1 + t.1))
  }

  /** Once loaded, an object stays loaded and never runs the loader. */
  lemma {:induction false} LoadedNeverLoads<F>(o: Lazy<F>, ops: seq<Op<F>>, count: nat)
    requires o.Loaded?
    ensures Run(o, ops, count).Ok?
    ensures Run(o, ops, count).value.1 == 0 && Run(o, ops, count).value.0.Loaded?
    decreases |ops|
  {
    if |ops| > 0 {
      var s := Step(o, ops[0], count);
      assert s.Ok? && s.value.1 == 0 && s.value.0.Loaded?;
      LoadedNeverLoads(s.value.0, ops[1..], count);
    }
  }

  /** Whatever happens to it, an object runs its loader at most once. */
  lemma {:induction false} LoaderRunsAtMostOnce<F>(o: Lazy<F>, ops: seq<Op<F>>, count: nat)
    requires Run(o, ops, count).Ok?
    ensures Run(o, ops, count).value.1 <= 1
    decreases |ops|
  {
    if |ops| > 0 {
      var s := Step(o, ops[0], count).value;
      if s.0.Loaded? {
        LoadedNeverLoads(s.0, ops[1..], count);
      } else {
        assert s.1 == 0;
        LoaderRunsAtMostOnce(s.0, ops[1..], count);
      }
    }
  }

  /** Reading a proxied attribute runs the loader and returns the loaded
      value; reading again returns the same without loading. */
  lemma ReadLoadsOnce<F, V>(o: Lazy<F>, get: F -> V, g: F)
    requires o.Proxied? && o.loader(o.fields) == Some(g)
    ensures Read(o, get) == Ok((Loaded(g), get(g)))
    ensures Read(Loaded(g), get) == Ok((Loaded(g), get(g)))
  {
  }

  /** Overwriting the only proxied attribute never parses the dump, even
      one the loader could not read. */
  lemma SoleWriteSkipsLoad<F>(o: Lazy<F>, assign: F -> F)
    requires o.Proxied? && o.loader(o.fields).None?
    ensures Write(o, assign, 1) == Ok(Loaded(assign(o.fields)))
    ensures Run(o, [WriteOp(assign)], 1) == Ok((Loaded(assign(o.fields)), 0))
  {
  }

  /** With several proxied attributes, the load comes first and the write
      is applied to its result, so a read afterwards sees the written
      value. */
  lemma WriteSurvivesLoad<F, V>(o: Lazy<F>, assign: F -> F, get: F -> V, count: nat, g: F)
    requires o.Proxied? && count > 1 && o.loader(o.fields) == Some(g)
    ensures Write(o, assign, count) == Ok(Loaded(assign(g)))
    ensures Read(Loaded(assign(g)), get) == Ok((Loaded(assign(g)), get(assign(g))))
  {
  }
}
