/** Blobs (lib/git/object/blob.rb): raw contents whose dump is the
    contents themselves. */
module Blob {
  import opened Bytes
  import opened Wrappers

  /** A blob; `None` is Ruby's `nil` contents. */
  datatype Blob = Blob(contents: Option<Bytes>)

  /** `initialize(store, contents = nil)`; the store argument is unused. */
  function New(contents: Option<Bytes>): (r: Blob)
    ensures r.contents == contents
  {
    Blob(contents)
  }

  /** `to_s`: `contents.to_s`, the empty string for `nil`. */
  function ToS(b: Blob): (r: Bytes)
    ensures b.contents.Some? ==> r == b.contents.value
    ensures b.contents.None? ==> r == []
  {
    b.contents.GetOr([])
  }

  /** `to_blob`: the receiver itself. */
  function ToBlob(b: Blob): Blob {
    b
  }

  /** `_load(dump)` on a new blob: the dump, verbatim, as contents. */
  function Load(dump: Bytes): (r: Blob)
    ensures r.contents == Some(dump)
  {
    New(Some(dump))
  }

  /** `_dump`: the contents, verbatim (`nil` stays `nil`). */
  function Dump(b: Blob): Option<Bytes> {
    b.contents
  }

  /** The blob codec is the identity both ways: dumping a loaded blob
      gives the dump back, loading a dumped blob gives the blob back, and
      `to_s` and `to_blob` show the same contents. */
  lemma BlobRoundTrip(dump: Bytes, b: Blob)
    ensures Dump(Load(dump)) == Some(dump)
    ensures ToS(Load(dump)) == dump && ToBlob(Load(dump)) == Load(dump)
    ensures b.contents.Some? ==> Load(Dump(b).value) == b
    ensures ToBlob(b) == b && (Dump(b).Some? ==> ToS(b) == Dump(b).value)
  {
  }
}
