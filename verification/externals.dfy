/** The two pieces of the store that are not logic: SHA-1 (FIPS 180-4),
    rendered as lower-case hex as `Digest::SHA1.hexdigest` does, and zlib
    (RFC 1950/1951) compression. They are parameters of the model, never
    computed; the only facts used about them are the ones `Sound` states. */
module Externals {
  import opened Bytes
  import opened Wrappers
  import opened Errors

  datatype Primitives = Primitives(
    sha1Hex: Bytes -> Bytes,          // Digest::SHA1.hexdigest
    deflate: Bytes -> Bytes,          // Zlib::Deflate.deflate
    inflate: Bytes -> Option<Bytes>)  // Zlib::Inflate.inflate; None when it raises

  /** Inflating what was deflated gives it back, and every digest is 40 hex
      characters. */
  ghost predicate Sound(p: Primitives) {
    && (forall x :: p.inflate(p.deflate(x)) == Some(x))
    && (forall x :: IsHexDigest(p.sha1Hex(x)))
  }

  /** `Zlib::Inflate.inflate`, whose failure escapes as an error. */
  function Inflate(p: Primitives, data: Bytes): (r: Result<Bytes, Error>)
    ensures r.Ok? <==> p.inflate(data).Some?
    ensures r.Ok? ==> Some(r.value) == p.inflate(data)
    ensures r.Err? ==> r.error == InflateFailed
  {
    match p.inflate(data)
    case Some(c) => Ok(c)
    case None => Err(InflateFailed)
  }
}
