/**
 * The older revision of change detection (src/cache.rs): `Load` always
 * reads and hashes, `Reload` answers "changed" with the new digest and text,
 * or "unchanged" with nothing at all.
 */
module LegacyCache {
  import opened Wrappers
  import opened FileDigest

  /** `load`: read the file unconditionally and fingerprint it. */
  function Load(fs: FileState, hash: string -> u128): (r: Result<(Digest, string), IoError>)
    ensures fs.Unavailable? ==> r == Err(fs.err)
    ensures fs.Present? && fs.contents.Err? ==> r == Err(fs.contents.error)
    ensures r.Ok? <==> fs.Present? && fs.contents.Ok?
    ensures r.Ok? ==> r.value.1 == fs.contents.value && r.value.0 == Digest(fs.mtime, fs.size, hash(r.value.1))
  {
    match fs
    case Unavailable(e) => Err(e)
    case Present(mtime, size, contents) =>
      match contents
      case Err(e) => Err(e)
      case Ok(text) => Ok((Digest(mtime, size, hash(text)), text))
  }

  /** `reload`: `None` when the file is unchanged, the new digest and text when it changed. */
  function Reload(fs: FileState, d: Digest, hash: string -> u128): (r: Result<Option<(Digest, string)>, IoError>)
    ensures fs.Unavailable? ==> r == Err(fs.err)
    // matching metadata: unchanged, whatever the contents would say
    ensures fs.Present? && SameMetadata(d, fs) ==> r == Ok(None)
    ensures fs.Present? && !SameMetadata(d, fs) && fs.contents.Err? ==> r == Err(fs.contents.error)
    // metadata moved: unchanged exactly when the hash is the old one
    ensures fs.Present? && !SameMetadata(d, fs) && fs.contents.Ok? ==>
              r.Ok? && (r.value.None? <==> hash(fs.contents.value) == d.hash)
    // a reported change carries the fresh metadata and the hash of the text
    ensures r.Ok? && r.value.Some? ==>
              fs.Present? && fs.contents.Ok? && r.value.value.1 == fs.contents.value &&
              r.value.value.0 == Digest(fs.mtime, fs.size, hash(fs.contents.value)) &&
              r.value.value.0.hash != d.hash
  {
    match fs
    case Unavailable(e) => Err(e)
    case Present(mtime, size, contents) =>
      if size == d.size && mtime == d.mtime then Ok(None)
      else
        match contents
        case Err(e) => Err(e)
        case Ok(text) =>
          var h := hash(text);
          if h == d.hash then Ok(None)
          else Ok(Some((Digest(mtime, size, h), text)))
  }

  /** Digest equality is field-wise equality (the derived `PartialEq`). */
  lemma DigestEqualityIsFieldwise(a: Digest, b: Digest)
    ensures a == b <==> (a.mtime == b.mtime && a.size == b.size && a.hash == b.hash)
  {
  }

  /** `load` is the newer `load_file` with no previous digest. */
  lemma LoadIsFirstLoadFile(fs: FileState, hash: string -> u128)
    ensures Load(fs, hash).Err? <==> LoadFile(fs, None, hash).Err?
    ensures Load(fs, hash).Err? ==> Load(fs, hash).error == LoadFile(fs, None, hash).error
    ensures Load(fs, hash).Ok? ==>
              var (d, text) := Load(fs, hash).value;
              LoadFile(fs, None, hash) == Ok(Fetched(d, Some(text), true))
  {
  }

  /**
   * `reload(d)` reports a change exactly when `load_file(Some(d))` returns
   * contents, with the same digest and text; the two differ only in that
   * `reload` drops the refreshed digest when only the metadata moved.
   */
  lemma ReloadAgreesWithLoadFile(fs: FileState, d: Digest, hash: string -> u128)
    ensures Reload(fs, d, hash).Err? <==> LoadFile(fs, Some(d), hash).Err?
    ensures Reload(fs, d, hash).Err? ==> Reload(fs, d, hash).error == LoadFile(fs, Some(d), hash).error
    ensures Reload(fs, d, hash).Ok? ==>
              (Reload(fs, d, hash).value.Some? <==> LoadFile(fs, Some(d), hash).value.contents.Some?)
    ensures Reload(fs, d, hash).Ok? && Reload(fs, d, hash).value.Some? ==>
              var (d', text) := Reload(fs, d, hash).value.value;
              LoadFile(fs, Some(d), hash) == Ok(Fetched(d', Some(text), true))
  {
  }
}
