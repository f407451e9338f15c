/**
 * Change detection for one file (src/cache/digest.rs). A `Digest` records
 * the modification time, the size and a content hash; `LoadFile` compares
 * fresh metadata with a previous digest and reads the contents only when the
 * metadata moved.
 */
module FileDigest {
  import opened Wrappers

  /** The integer widths of the Rust fields. */
  type i64 = x: int | -0x8000_0000_0000_0000 <= x < 0x8000_0000_0000_0000
  type u64 = x: int | 0 <= x < 0x1_0000_0000_0000_0000
  type u128 = x: int | 0 <= x < 0x1_0000_0000_0000_0000_0000_0000_0000_0000

  /** Fingerprint of a file: modification time (seconds), size (bytes) and content hash. */
  datatype Digest = Digest(mtime: i64, size: u64, hash: u128)

  datatype IoError = NotFound | PermissionDenied | InvalidUtf8 | OtherIo

  /**
   * What the filesystem shows for one path when it is probed: either opening
   * the file or reading its metadata fails, or both succeed and the later
   * `read_to_string` yields the text or its own error.
   */
  datatype FileState =
    | Unavailable(err: IoError)
    | Present(mtime: i64, size: u64, contents: Result<string, IoError>)

  /**
   * A successful probe: the digest to remember, the contents when they
   * changed, and whether the contents were read at all.
   */
  datatype Fetched = Fetched(digest: Digest, contents: Option<string>, read: bool)

  /** Size and modification time of `fs` equal those recorded in `d`. */
  predicate SameMetadata(d: Digest, fs: FileState)
    requires fs.Present?
  {
    fs.size == d.size && fs.mtime == d.mtime
  }

  /** The fast path applies: a previous digest whose metadata match. */
  predicate FastPath(fs: FileState, prev: Option<Digest>)
    requires fs.Present?
  {
    prev.Some? && SameMetadata(prev.value, fs)
  }

  /** `load_file`: probe `fs` against the previous digest `prev`. */
  function LoadFile(fs: FileState, prev: Option<Digest>, hash: string -> u128): (r: Result<Fetched, IoError>)
    // open or metadata failure: an error and no digest
    ensures fs.Unavailable? ==> r == Err(fs.err)
    // the digest handed back always carries the current metadata
    ensures r.Ok? ==> fs.Present? && r.value.digest.mtime == fs.mtime && r.value.digest.size == fs.size
    // fast path: the old digest itself, no contents, nothing read
    ensures fs.Present? && FastPath(fs, prev) ==> r == Ok(Fetched(prev.value, None, false))
    // a failing read surfaces only when the read is attempted
    ensures fs.Present? && !FastPath(fs, prev) && fs.contents.Err? ==> r == Err(fs.contents.error)
    ensures fs.Present? && !FastPath(fs, prev) && fs.contents.Ok? ==> r.Ok? && r.value.read
    // after a read the digest hashes exactly the text that was read
    ensures r.Ok? && r.value.read ==>
              fs.contents.Ok? && r.value.digest == Digest(fs.mtime, fs.size, hash(fs.contents.value))
    // contents come back iff there was no digest, or metadata and hash both differ
    ensures r.Ok? && r.value.contents.Some? ==> r.value.read && r.value.contents.value == fs.contents.value
    ensures r.Ok? && r.value.read ==>
              (r.value.contents.Some? <==> (prev.None? || hash(fs.contents.value) != prev.value.hash))
  {
    match fs
    case Unavailable(e) => Err(e)
    case Present(mtime, size, contents) =>
      if prev.Some? && size == prev.value.size && mtime == prev.value.mtime then
        Ok(Fetched(prev.value, None, false))
      else
        match contents
        case Err(e) => Err(e)
        case Ok(text) =>
          var h := hash(text);
          var newDigest := Digest(mtime, size, h);
          if prev.Some? && h == prev.value.hash then Ok(Fetched(newDigest, None, true))
          else Ok(Fetched(newDigest, Some(text), true))
  }

  /** The returned digest makes an immediate second probe of the same file take the fast path. */
  lemma RefetchTakesFastPath(fs: FileState, prev: Option<Digest>, hash: string -> u128)
    requires LoadFile(fs, prev, hash).Ok?
    ensures var d := LoadFile(fs, prev, hash).value.digest;
            LoadFile(fs, Some(d), hash) == Ok(Fetched(d, None, false))
  {
  }

  /**
   * Contents are returned exactly when no digest was known, or when both
   * the metadata and the hash moved; in that case the digest is the hash of
   * the returned text.
   */
  lemma ContentsReturnedIff(fs: FileState, prev: Option<Digest>, hash: string -> u128)
    requires fs.Present? && fs.contents.Ok?
    ensures var r := LoadFile(fs, prev, hash);
            r.Ok? &&
            (r.value.contents.Some? <==>
               (prev.None? || (!SameMetadata(prev.value, fs) && hash(fs.contents.value) != prev.value.hash))) &&
            (r.value.contents.Some? ==> r.value.digest.hash == hash(r.value.contents.value))
  {
  }
}
