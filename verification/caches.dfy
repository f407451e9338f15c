/**
 * The public cache API (src/cache/mod.rs): `Cache` binds one entry to one
 * path, `CacheMap` keeps one entry per path key and creates entries on demand.
 */
module Caches {
  import opened Wrappers
  import opened FileDigest
  import CacheBase

  /** A cache for one configured path. */
  datatype Cache<T> = Cache(path: string, base: CacheBase.Cached<T>)

  /** `Cache::new`: the path, and the default entry built from `T::default()` (here `seed`). */
  function New<T>(path: string, seed: T): (c: Cache<T>)
    ensures c.path == path
    ensures c.base.lastCheck.None? && c.base.digest.None? && c.base.value == seed
  {
    Cache(path, CacheBase.Initial(seed))
  }

  /** `Cache::load`: the entry's load on the stored path; the path never changes. */
  function Load<T, E>(c: Cache<T>, now: int, fs: string -> FileState,
                      hash: string -> u128, compute: string -> Result<T, E>): (r: (Cache<T>, CacheBase.Step<T, E>))
    ensures r.0.path == c.path
    ensures r.1 == CacheBase.Load(c.base, c.path, now, fs, hash, compute)
    ensures r.0.base == r.1.state
  {
    var step := CacheBase.Load(c.base, c.path, now, fs, hash, compute);
    (Cache(c.path, step.state), step)
  }

  /**
   * One entry per key. The source keys its map by `PathBuf`, whose equality
   * goes by path components, so `a/b`, `a/b/` and `a/./b` are one key; the
   * model takes that normalisation as the parameter `key`, the same
   * function on every call.
   * An entry holds no path: every load probes the spelling it was given.
   * `seed` is the `T::default()` every new entry starts from.
   */
  datatype CacheMap<K(==), T> = CacheMap(seed: T, entries: map<K, CacheBase.Cached<T>>)

  /** `CacheMap::new` and `CacheMap::default`: no entries, and `T::default()` as `seed`. */
  function NewMap<K(==), T>(seed: T): (m: CacheMap<K, T>)
    ensures m.entries == map[] && m.seed == seed
  {
    CacheMap(seed, map[])
  }

  /**
   * `CacheMap::load`: take the entry for the key of `path`, inserting the
   * default one when there is none, then load it on `path` as spelled.
   */
  function MapLoad<K(==), T, E>(m: CacheMap<K, T>, path: string, key: string -> K, now: int,
                                fs: string -> FileState, hash: string -> u128,
                                compute: string -> Result<T, E>): (r: (CacheMap<K, T>, CacheBase.Step<T, E>))
    ensures r.0.seed == m.seed
    // keys are only ever added
    ensures r.0.entries.Keys == m.entries.Keys + {key(path)}
    // no other entry moves
    ensures forall q :: q in m.entries && q != key(path) ==> q in r.0.entries && r.0.entries[q] == m.entries[q]
    ensures r.0.entries[key(path)] == r.1.state
    // a known key loads its own entry; an unseen key behaves like a fresh `Cache`
    ensures key(path) in m.entries ==> r.1 == CacheBase.Load(m.entries[key(path)], path, now, fs, hash, compute)
    ensures key(path) !in m.entries ==> r.1 == Load(New(path, m.seed), now, fs, hash, compute).1
  {
    var k := key(path);
    var entry := if k in m.entries then m.entries[k] else CacheBase.Initial(m.seed);
    var step := CacheBase.Load(entry, path, now, fs, hash, compute);
    (CacheMap(m.seed, m.entries[k := step.state]), step)
  }

  /** The first load through the map of a key probes the file, as a fresh `Cache` does. */
  lemma MapFirstLoadProbes<K, T, E>(m: CacheMap<K, T>, path: string, key: string -> K, now: int,
                                     fs: string -> FileState, hash: string -> u128,
                                     compute: string -> Result<T, E>)
    requires key(path) !in m.entries
    ensures MapLoad(m, path, key, now, fs, hash, compute).1.probed
  {
    CacheBase.FirstCallProbes(m.seed, path, now, fs, hash, compute);
  }

  /**
   * Two spellings of one key share an entry: after a load that probed, a
   * load of the other spelling under two seconds later is debounced and
   * returns the stored value.
   */
  lemma SpellingsShareEntry<K, T, E>(m: CacheMap<K, T>, p1: string, p2: string, key: string -> K,
                                      now: int, later: int, fs: string -> FileState, hash: string -> u128,
                                      compute: string -> Result<T, E>)
    requires key(p1) == key(p2)
    requires MapLoad(m, p1, key, now, fs, hash, compute).1.probed
    requires now <= later < now + 2000
    ensures var (m1, s1) := MapLoad(m, p1, key, now, fs, hash, compute);
            var (m2, s2) := MapLoad(m1, p2, key, later, fs, hash, compute);
            !s2.probed && !s2.computed && s2.reply == Ok(s1.state.value) && m2 == m1
  {
  }

  /** The file `page.md` holding `text` of `size` bytes, stamped `mtime`; every other path is missing. */
  function PageFile(text: string, mtime: i64, size: u64): string -> FileState {
    p => if p == "page.md" then Present(mtime, size, Ok(text)) else Unavailable(NotFound)
  }

  const NoFiles: string -> FileState := p => Unavailable(NotFound)

  /**
   * The concrete scenario: a page cache seeded with "" renders "# Hi", then
   * the rewritten "# Hi!", then keeps serving the last page with an I/O
   * error once the file is gone. The hash need only tell the two texts apart.
   */
  lemma PageScenario<E>(hash: string -> u128, render: string -> Result<string, E>, t0: int, t1: int, t2: int)
    requires render("# Hi") == Ok("<h1>Hi</h1>") && render("# Hi!") == Ok("<h1>Hi!</h1>")
    requires hash("# Hi") != hash("# Hi!")
    requires t1 >= t0 + 2000 && t2 >= t1 + 2000
    ensures var c0 := New("page.md", "");
            var (c1, s1) := Load(c0, t0, PageFile("# Hi", 100, 4), hash, render);
            var (c2, s2) := Load(c1, t1, PageFile("# Hi!", 200, 5), hash, render);
            var (c3, s3) := Load(c2, t2, NoFiles, hash, render);
            s1.reply == Ok("<h1>Hi</h1>") &&
            s2.reply == Ok("<h1>Hi!</h1>") &&
            s3.reply == Err(("<h1>Hi!</h1>", CacheBase.CannotRead("page.md", NotFound))) &&
            c3.base.value == "<h1>Hi!</h1>"
  {
  }
}
