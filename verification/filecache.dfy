/**
 * The intermediate revision (src/filecache.rs): `load_file1` is the same
 * decision procedure as `load_file`, written over a cloned digest, and
 * `Digest2` is a draft of a combined "checked at / digest" state.
 */
module FileCache {
  import opened Wrappers
  import opened FileDigest

  /** The draft state: nothing yet, only a check time, or a check time and a digest. */
  datatype Digest2 = Empty | OnlyTime(checkedAt: int) | Both(checkedAt: int, digest: Digest)

  /** `Digest2::default()`. */
  const DefaultDigest2: Digest2 := Empty

  /** `load_file1`, step by step with its early returns. */
  method LoadFile1(fs: FileState, prev: Option<Digest>, hash: string -> u128)
    returns (r: Result<Fetched, IoError>)
    ensures fs.Unavailable? ==> r.Err?
    ensures fs.Present? && FastPath(fs, prev) ==> r == Ok(Fetched(prev.value, None, false))
    ensures r.Ok? && r.value.contents.Some? ==> r.value.digest.hash == hash(r.value.contents.value)
    ensures r == LoadFile(fs, prev, hash)
  {
    if fs.Unavailable? {
      return Err(fs.err);
    }
    var size := fs.size;
    var mtime := fs.mtime;
    if prev.Some? {
      var digest := prev.value;
      if size == digest.size && mtime == digest.mtime {
        return Ok(Fetched(digest, None, false));
      }
    }
    if fs.contents.Err? {
      return Err(fs.contents.error);
    }
    var contents := fs.contents.value;
    var h := hash(contents);
    var newDigest := Digest(mtime, size, h);
    if prev.Some? {
      if h == prev.value.hash {
        return Ok(Fetched(newDigest, None, true));
      }
    }
    r := Ok(Fetched(newDigest, Some(contents), true));
  }
}
