/**
 * Request paths (src/url.rs). A `UrlPath` is a string that passed `Valid`:
 * it starts with `/`, and each `/`-separated segment is non-empty and
 * starts with neither `.` (hidden) nor `_` (private).
 */
module UrlPaths {
  import opened Wrappers
  import opened Text

  /** A segment that may be served: non-empty, not hidden, not private. */
  predicate SegmentAllowed(c: string) {
    c != [] && c[0] != '.' && c[0] != '_'
  }

  /** `valid`: drop the leading `/` and at most one trailing `/`, then check every segment. */
  predicate Valid(url: string) {
    match StripPrefix(url, "/")
    case None => false
    case Some(rest) =>
      rest == [] ||
      var segments := Split(DropOneSuffix(rest, '/'), '/');
      forall k :: 0 <= k < |segments| ==> SegmentAllowed(segments[k])
  }

  /** The characters a `/` must not be followed by, unless it ends the path. */
  const Reserved: set<char> := {'/', '.', '_'}

  /**
   * An independent reading of `Valid`: a leading `/`, and every `/` that is
   * not the last character is followed by something other than `/`, `.`, `_`.
   */
  predicate LocallyValid(url: string) {
    |url| >= 1 && url[0] == '/' && AllFollowGood(url, '/', Reserved)
  }

  /** Segments never hold `/`, so "allowed" is "non-empty, head outside `Reserved`". */
  lemma AllowedIsHeadGood(parts: seq<string>)
    requires forall k :: 0 <= k < |parts| ==> '/' !in parts[k]
    ensures (forall k :: 0 <= k < |parts| ==> SegmentAllowed(parts[k])) <==> AllHeadsGood(parts, Reserved)
  {
    forall k | 0 <= k < |parts| && parts[k] != []
      ensures SegmentAllowed(parts[k]) <==> HeadGood(parts[k], Reserved)
    {
      assert parts[k][0] in parts[k];
    }
  }

  /** `Valid` and `LocallyValid` agree on every string. */
  lemma ValidIffLocallyValid(url: string)
    ensures Valid(url) <==> LocallyValid(url)
  {
    if |url| >= 1 && url[0] == '/' {
      assert "/" <= url;
      var rest := url[1..];
      assert url == ['/'] + rest;
      if rest != [] {
        var t := DropOneSuffix(rest, '/');
        var segments := Split(t, '/');
        AllowedIsHeadGood(segments);
        SplitHeads(t, '/', Reserved);
        FollowCons(rest, '/', Reserved);
        if t != rest {
          assert rest == t + ['/'];
          if t != [] {
            FollowSnoc(t, '/', Reserved);
          }
        }
      }
    } else {
      assert !("/" <= url);
    }
  }

  /** A valid path contains no `//`. */
  lemma ValidHasNoDoubleSlash(url: string)
    requires Valid(url)
    ensures !Contains(url, "//")
  {
    ValidIffLocallyValid(url);
    FollowMono(url, '/', {'/'}, Reserved);
    DoubleSepIff(url, '/');
  }

  /** A path that passed `UrlPath::new` (or was cut from one by `parent`). */
  datatype UrlPath = UrlPath(path: string)

  /** `UrlPath::new`: accepts exactly the valid paths, unchanged. */
  function New(src: string): (r: Option<UrlPath>)
    ensures r.Some? <==> LocallyValid(src)
    ensures r.Some? ==> r.value.path == src
  {
    ValidIffLocallyValid(src);
    if Valid(src) then Some(UrlPath(src)) else None
  }

  /** `relative_path`: everything after the first character. */
  function RelativePath(u: UrlPath): (r: string)
    requires |u.path| >= 1
    ensures [u.path[0]] + r == u.path
    ensures LocallyValid(u.path) ==> "/" + r == u.path
  {
    u.path[1..]
  }

  /** `has_final_slash`. */
  predicate HasFinalSlash(u: UrlPath) {
    |u.path| > 0 && u.path[|u.path| - 1] == '/'
  }

  /** `last`: the text after the final `/` (the source panics when there is no `/`). */
  function Last(u: UrlPath): (r: string)
    requires '/' in u.path
    ensures '/' !in r
    ensures |r| < |u.path| && u.path[|u.path| - |r| - 1] == '/' && u.path[|u.path| - |r|..] == r
    ensures r == [] <==> HasFinalSlash(u)
  {
    var i := RFind(u.path, '/').value;
    u.path[i + 1..]
  }

  /** `extension`: the text after the last `.` of the last segment, if it has a `.`. */
  function Extension(u: UrlPath): (r: Option<string>)
    requires '/' in u.path
    ensures r.None? <==> '.' !in Last(u)
    ensures r.Some? ==>
              var name := Last(u);
              '.' !in r.value && |r.value| < |name| &&
              name[|name| - |r.value| - 1] == '.' && name[|name| - |r.value|..] == r.value
    ensures HasFinalSlash(u) ==> r.None?
  {
    var name := Last(u);
    match RFind(name, '.')
    case None => None
    case Some(i) => Some(name[i + 1..])
  }

  /**
   * `parent` as written: the index of the last `/` is taken in the path
   * before its trailing `/` is stripped, so a trailing `/` is all that is
   * removed from a directory path.
   */
  function Parent(u: UrlPath): (r: Option<UrlPath>)
    ensures r.None? <==> (RFind(u.path, '/').None? || RFind(u.path, '/').value == 0)
    ensures r.Some? ==> 0 < |r.value.path| < |u.path| && r.value.path == u.path[..|r.value.path|]
    ensures r.Some? && HasFinalSlash(u) ==> r.value.path + ['/'] == u.path
    ensures r.Some? && !HasFinalSlash(u) ==> r.value.path + ['/'] + Last(u) == u.path
  {
    var path := DropOneSuffix(u.path, '/');
    match RFind(u.path, '/')
    case None => None
    case Some(i) =>
      if i > 0 then
        assert u.path[..i] == path[..i];
        Some(UrlPath(path[..i]))
      else None
  }

  /** `parent` of a valid path is valid. */
  lemma ParentKeepsValid(u: UrlPath)
    requires LocallyValid(u.path) && Parent(u).Some?
    ensures LocallyValid(Parent(u).value.path)
  {
    var q := Parent(u).value.path;
    forall i | 0 <= i < |q| - 1 ensures FollowGood(q, '/', Reserved, i) {
      assert FollowGood(u.path, '/', Reserved, i);
    }
  }

  /**
   * `parent` with the index taken in the stripped path, as the strip
   * suggests was meant: the last segment is removed whether or not the path
   * ends with `/`.
   */
  function ParentOfSegment(u: UrlPath): (r: Option<UrlPath>)
    ensures var p := DropOneSuffix(u.path, '/');
            r.None? <==> (RFind(p, '/').None? || RFind(p, '/').value == 0)
    ensures r.Some? ==>
              var p := DropOneSuffix(u.path, '/');
              var q := r.value.path;
              0 < |q| < |p| && p[|q|] == '/' && p == q + ['/'] + p[|q| + 1..] && '/' !in p[|q| + 1..]
  {
    var path := DropOneSuffix(u.path, '/');
    match RFind(path, '/')
    case None => None
    case Some(i) =>
      if i > 0 then
        assert path == path[..i] + ['/'] + path[i + 1..];
        Some(UrlPath(path[..i]))
      else None
  }

  /** With the intended reading, `/a/b/` and `/a/b` have the same parent. */
  lemma {:induction false} ParentOfSegmentIgnoresFinalSlash(p: string)
    requires p != [] && p[|p| - 1] != '/'
    ensures ParentOfSegment(UrlPath(p + ['/'])) == ParentOfSegment(UrlPath(p))
  {
    assert DropOneSuffix(p + ['/'], '/') == p;
    assert DropOneSuffix(p, '/') == p;
  }

  /** The two readings part on `/a/b/`: as written its parent is `/a/b`, as intended `/a`. */
  lemma ParentOfDirectoryPath()
    ensures Parent(UrlPath("/a/b/")) == Some(UrlPath("/a/b"))
    ensures ParentOfSegment(UrlPath("/a/b/")) == Some(UrlPath("/a"))
  {
    RFindIs("/a/b/", '/', 4);
    assert DropOneSuffix("/a/b/", '/') == "/a/b";
    assert "/a/b"[3..] == "b";
    RFindIs("/a/b", '/', 2);
    assert "/a/b"[..2] == "/a";
  }

  /** The in-file test: a path without a leading `/` is rejected. */
  lemma RejectsRelativePath()
    ensures New("foo").None?
  {
    assert !LocallyValid("foo");
  }

  /** The in-file test: a path with a final `/` has no extension. */
  lemma DirectoryHasNoExtension()
    ensures New("/foo/bar.quz/").Some? && Extension(New("/foo/bar.quz/").value).None?
  {
    var s := "/foo/bar.quz/";
    assert LocallyValid(s) by {
      forall i | 0 <= i < |s| - 1 ensures FollowGood(s, '/', Reserved, i) {
      }
    }
    assert HasFinalSlash(UrlPath(s));
  }

  /** `/foo/bar.quz` is a valid path. */
  lemma FileIsValid()
    ensures LocallyValid("/foo/bar.quz")
  {
    var s := "/foo/bar.quz";
    forall i | 0 <= i < |s| - 1 ensures FollowGood(s, '/', Reserved, i) {
    }
  }

  /** The extension of `/foo/bar.quz`, computed step by step. */
  lemma ExtensionOfFile()
    ensures Extension(UrlPath("/foo/bar.quz")) == Some("quz")
  {
    var s := "/foo/bar.quz";
    assert s[5..] == "bar.quz";
    RFindIs(s, '/', 4);
    assert Last(UrlPath(s)) == "bar.quz";
    assert "bar.quz"[4..] == "quz";
    RFindIs("bar.quz", '.', 3);
  }

  /** The in-file test: the extension of `/foo/bar.quz` is `quz`. */
  lemma FileExtension()
    ensures New("/foo/bar.quz").Some? && Extension(New("/foo/bar.quz").value) == Some("quz")
  {
    FileIsValid();
    ExtensionOfFile();
  }
}
