/**
 * The debounced, fail-soft cache entry (src/cache/base.rs). One call to
 * `Load` is one atomic step: it may skip the probe (debounce), or probe the
 * file and then keep, replace or fall back on the stored value.
 */
module CacheBase {
  import opened Wrappers
  import opened FileDigest

  /** Minimum whole seconds between two probes of the same entry. */
  const DebounceSecs: nat := 2

  /** Milliseconds from `last` to `now`; a clock reading before `last` counts as zero, as `Instant` saturates. */
  function Elapsed(last: int, now: int): (ms: nat)
    ensures now >= last ==> last + ms == now
  {
    if now >= last then now - last else 0
  }

  /** `last_check` is set and `elapsed().as_secs()` is below the debounce interval. */
  predicate WithinDebounce(lastCheck: Option<int>, now: int) {
    lastCheck.Some? && Elapsed(lastCheck.value, now) / 1000 < DebounceSecs
  }

  /** The whole-second comparison is the same as "less than 2000 ms have passed". */
  lemma WithinDebounceIff(lastCheck: Option<int>, now: int)
    ensures WithinDebounce(lastCheck, now) <==> lastCheck.Some? && now - lastCheck.value < 2000
  {
  }

  /** `Cached<T>`: time of the last probe, digest of the last read, last good value. */
  datatype Cached<T> = Cached(lastCheck: Option<int>, digest: Option<Digest>, value: T)

  /** The derived default: never checked, no digest, the default value. */
  function Initial<T>(seed: T): (c: Cached<T>)
    ensures c.lastCheck.None? && c.digest.None? && c.value == seed
  {
    Cached(None, None, seed)
  }

  /** The error paired with the fallback value: the file could not be read, or its text not processed. */
  datatype CacheError<E> = CannotRead(path: string, io: IoError) | CannotProcess(path: string, cause: E)

  /** `Ok(value)` or `Err((fallback value, error))`. */
  type Reply<T, E> = Result<T, (T, CacheError<E>)>

  /** The value a reply carries, in either case. */
  function ReplyValue<T, E>(reply: Reply<T, E>): T {
    match reply
    case Ok(v) => v
    case Err((v, _)) => v
  }

  /**
   * The outcome of one call: the new entry, the reply, and whether the file
   * was probed and whether `compute` ran.
   */
  datatype Step<T, E> = Step(state: Cached<T>, reply: Reply<T, E>, probed: bool, computed: bool)

  /** `CacheBase::load` on `path`, at clock reading `now` (ms), over the filesystem `fs`. */
  function Load<T, E>(st: Cached<T>, path: string, now: int, fs: string -> FileState,
                      hash: string -> u128, compute: string -> Result<T, E>): (r: Step<T, E>)
    // debounced: the stored value, no probe, no change
    ensures WithinDebounce(st.lastCheck, now) ==> r == Step(st, Ok(st.value), false, false)
    // otherwise the file is probed and the probe time recorded, success or failure
    ensures !WithinDebounce(st.lastCheck, now) ==> r.probed && r.state.lastCheck == Some(now)
    // unchanged: refreshed digest, old value
    ensures !WithinDebounce(st.lastCheck, now) && LoadFile(fs(path), st.digest, hash).Ok? &&
            LoadFile(fs(path), st.digest, hash).value.contents.None? ==>
              r.state == Cached(Some(now), Some(LoadFile(fs(path), st.digest, hash).value.digest), st.value) &&
              r.reply == Ok(st.value) && !r.computed
    // I/O error: digest and value kept, old value returned with the error
    ensures !WithinDebounce(st.lastCheck, now) && LoadFile(fs(path), st.digest, hash).Err? ==>
              r.state == Cached(Some(now), st.digest, st.value) &&
              r.reply == Err((st.value, CannotRead(path, LoadFile(fs(path), st.digest, hash).error))) &&
              !r.computed
    // changed: `compute` runs on the new text, the new digest is recorded either way
    ensures !WithinDebounce(st.lastCheck, now) && LoadFile(fs(path), st.digest, hash).Ok? &&
            LoadFile(fs(path), st.digest, hash).value.contents.Some? ==>
              var f := LoadFile(fs(path), st.digest, hash).value;
              var c := compute(f.contents.value);
              r.computed && r.state.digest == Some(f.digest) &&
              (c.Ok? ==> r.state.value == c.value && r.reply == Ok(c.value)) &&
              (c.Err? ==> r.state.value == st.value && r.reply == Err((st.value, CannotProcess(path, c.error))))
    // a value always comes back, and it is the one stored afterwards
    ensures ReplyValue(r.reply) == r.state.value
    // only a probe can compute, and a digest once known stays known
    ensures r.computed ==> r.probed
    ensures st.digest.Some? ==> r.state.digest.Some?
  {
    if WithinDebounce(st.lastCheck, now) then Step(st, Ok(st.value), false, false)
    else
      match LoadFile(fs(path), st.digest, hash)
      case Ok(Fetched(digest, None, _)) =>
        Step(Cached(Some(now), Some(digest), st.value), Ok(st.value), true, false)
      case Err(err) =>
        Step(st.(lastCheck := Some(now)), Err((st.value, CannotRead(path, err))), true, false)
      case Ok(Fetched(digest, Some(contents), _)) =>
        match compute(contents)
        case Ok(value) => Step(Cached(Some(now), Some(digest), value), Ok(value), true, true)
        case Err(err) => Step(Cached(Some(now), Some(digest), st.value), Err((st.value, CannotProcess(path, err))), true, true)
  }

  /** The stored value changes only through a successful `compute` of changed contents. */
  lemma ValueChangesOnlyOnRecompute<T, E>(st: Cached<T>, path: string, now: int, fs: string -> FileState,
                                          hash: string -> u128, compute: string -> Result<T, E>)
    ensures var r := Load(st, path, now, fs, hash, compute);
            r.state.value != st.value ==>
              r.computed && r.reply.Ok? &&
              var f := LoadFile(fs(path), st.digest, hash);
              f.Ok? && f.value.contents.Some? && compute(f.value.contents.value) == Ok(r.state.value)
  {
  }

  /** A fresh entry is always probed on its first call, whatever the clock says. */
  lemma FirstCallProbes<T, E>(seed: T, path: string, now: int, fs: string -> FileState,
                              hash: string -> u128, compute: string -> Result<T, E>)
    ensures Load(Initial(seed), path, now, fs, hash, compute).probed
    ensures fs(path).Present? && fs(path).contents.Ok? ==>
              Load(Initial(seed), path, now, fs, hash, compute).computed
  {
  }

  /** After a call that probed, a second call less than two seconds later neither probes nor computes. */
  lemma SecondCallDebounced<T, E>(st: Cached<T>, path: string, now: int, later: int,
                                  fs: string -> FileState, fs': string -> FileState,
                                  hash: string -> u128, compute: string -> Result<T, E>)
    requires Load(st, path, now, fs, hash, compute).probed
    requires now <= later < now + 2000
    ensures var s1 := Load(st, path, now, fs, hash, compute);
            var s2 := Load(s1.state, path, later, fs', hash, compute);
            !s2.probed && !s2.computed && s2.state == s1.state && s2.reply == Ok(s1.state.value)
  {
  }

  /** One call of a sequence: the clock reading and the filesystem at that moment. */
  datatype Call = Call(now: int, fs: string -> FileState)

  /** The entry after a sequence of calls, with the number of probes and of `compute` runs. */
  datatype Trace<T> = Trace(state: Cached<T>, probes: nat, computes: nat)

  /** Calls `Load` once per element of `calls`, in order. */
  function Run<T, E>(st: Cached<T>, path: string, calls: seq<Call>,
                     hash: string -> u128, compute: string -> Result<T, E>): (r: Trace<T>)
    ensures r.computes <= r.probes <= |calls|
    ensures st.digest.Some? ==> r.state.digest.Some?
    decreases |calls|
  {
    if |calls| == 0 then Trace(st, 0, 0)
    else
      var s := Load(st, path, calls[0].now, calls[0].fs, hash, compute);
      var t := Run(s.state, path, calls[1..], hash, compute);
      Trace(t.state, t.probes + (if s.probed then 1 else 0), t.computes + (if s.computed then 1 else 0))
  }

  /** While every call is under two seconds after the last probe, nothing is probed and nothing changes. */
  lemma {:induction false} QuietWhileDebounced<T, E>(st: Cached<T>, path: string, calls: seq<Call>,
                                                     hash: string -> u128, compute: string -> Result<T, E>)
    requires st.lastCheck.Some?
    requires forall k :: 0 <= k < |calls| ==> calls[k].now - st.lastCheck.value < 2000
    ensures Run(st, path, calls, hash, compute) == Trace(st, 0, 0)
    decreases |calls|
  {
    if |calls| > 0 {
      WithinDebounceIff(st.lastCheck, calls[0].now);
      QuietWhileDebounced(st, path, calls[1..], hash, compute);
    }
  }

  /**
   * Debounce bound: however many calls fall inside one two-second window,
   * the file is probed at most once and `compute` runs at most once.
   */
  lemma {:induction false} DebounceBound<T, E>(st: Cached<T>, path: string, calls: seq<Call>, start: int,
                                               hash: string -> u128, compute: string -> Result<T, E>)
    requires forall k :: 0 <= k < |calls| ==> start <= calls[k].now < start + 2000
    ensures Run(st, path, calls, hash, compute).probes <= 1
    ensures Run(st, path, calls, hash, compute).computes <= 1
    decreases |calls|
  {
    if |calls| > 0 {
      var s := Load(st, path, calls[0].now, calls[0].fs, hash, compute);
      if s.probed {
        QuietWhileDebounced(s.state, path, calls[1..], hash, compute);
      } else {
        DebounceBound(s.state, path, calls[1..], start, hash, compute);
      }
    }
  }
}
