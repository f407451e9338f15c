/**
 * Request-path decomposition in the web layer (src/web.rs): `to_components`
 * and the component check that turns a request path into `NotFound`.
 */
module Web {
  import opened Wrappers
  import opened Text
  import UrlPaths

  /** `to_components`: the segments of an absolute path, ignoring one trailing `/`. */
  function ToComponents(url: string): (r: Option<seq<string>>)
    ensures r.Some? <==> ("/" <= url && !Contains(url, "//"))
    ensures url == "/" ==> r == Some([])
    ensures r.Some? && url != "/" ==> "/" + Join(r.value, '/') == DropOneSuffix(url, '/')
    ensures r.Some? ==> forall k :: 0 <= k < |r.value| ==> '/' !in r.value[k]
  {
    if Contains(url, "//") then None
    else
      match StripPrefix(url, "/")
      case None => None
      case Some(rest) =>
        if rest == [] then Some([])
        else
          var t := DropOneSuffix(rest, '/');
          JoinSplit(t, '/');
          assert url == "/" + rest;
          assert rest == t || rest == t + ['/'];
          Some(Split(t, '/'))
  }

  /** Every component `to_components` returns is non-empty. */
  lemma ComponentsNonEmpty(url: string)
    requires ToComponents(url).Some?
    ensures forall k :: 0 <= k < |ToComponents(url).value| ==> ToComponents(url).value[k] != []
  {
    if url != "/" {
      var rest := url[1..];
      assert url == ['/'] + rest;
      var t := DropOneSuffix(rest, '/');
      DoubleSepIff(url, '/');
      FollowCons(rest, '/', {'/'});
      if t != rest {
        assert rest == t + ['/'];
        FollowSnoc(t, '/', {'/'});
      }
      SplitHeads(t, '/', {'/'});
      assert forall k :: 0 <= k < |Split(t, '/')| ==> HeadGood(Split(t, '/')[k], {'/'});
    }
  }

  /** Lines 64-70 of the handler: components that all pass the check, or `NotFound` (`None`). */
  function CheckedComponents(url: string): (r: Option<seq<string>>)
    ensures r.Some? ==> r == ToComponents(url)
    ensures r.Some? ==> forall k :: 0 <= k < |r.value| ==> UrlPaths.SegmentAllowed(r.value[k])
    ensures r.Some? <==> ToComponents(url).Some? &&
                         forall k :: 0 <= k < |ToComponents(url).value| ==> UrlPaths.SegmentAllowed(ToComponents(url).value[k])
  {
    match ToComponents(url)
    case None => None
    case Some(cs) =>
      if forall k :: 0 <= k < |cs| ==> UrlPaths.SegmentAllowed(cs[k]) then Some(cs) else None
  }

  /** The web layer's check and `UrlPath` validity accept exactly the same request paths. */
  lemma CheckedIffValid(url: string)
    ensures CheckedComponents(url).Some? <==> UrlPaths.Valid(url)
  {
    if UrlPaths.Valid(url) {
      UrlPaths.ValidHasNoDoubleSlash(url);
      assert "/" <= url;
    }
  }

  /** One trailing `/` makes no difference. */
  lemma TrailingSlashIgnored(url: string)
    requires url != [] && url[|url| - 1] != '/'
    ensures ToComponents(url + "/") == ToComponents(url)
  {
    var u := url + "/";
    if "/" <= url && url != "/" {
      assert "/" <= u;
      assert u[1..] == url[1..] + "/";
      assert DropOneSuffix(u[1..], '/') == url[1..];
      assert url[1..] != [] && url[1..][|url[1..]| - 1] != '/';
      assert DropOneSuffix(url[1..], '/') == url[1..];
      DoubleSepIff(url, '/');
      DoubleSepIff(u, '/');
      FollowSnoc(url, '/', {'/'});
    } else if url == "/" {
    } else {
      assert !("/" <= u);
    }
  }

  /** A literal check that `s` holds no `//`. */
  lemma NoDoubleSlash(s: string)
    requires forall i :: 0 <= i < |s| - 1 ==> s[i] != '/' || s[i + 1] != '/'
    ensures !Contains(s, "//")
  {
    DoubleSepIff(s, '/');
    forall i | 0 <= i < |s| - 1 ensures FollowGood(s, '/', {'/'}, i) {
    }
  }

  /** The in-file tests on the empty, relative and root paths. */
  lemma RootExamples()
    ensures ToComponents("") == None
    ensures ToComponents("bla") == None
    ensures ToComponents("/") == Some([])
  {
    assert "bla"[..1] == "b";
    NoDoubleSlash("/");
  }

  /** The in-file tests on one segment, with and without the final `/`. */
  lemma OneSegmentExamples()
    ensures ToComponents("/bla") == Some(["bla"])
    ensures ToComponents("/bla/") == Some(["bla"])
  {
    NoDoubleSlash("/bla");
    assert "/bla"[1..] == "bla";
    assert DropOneSuffix("bla", '/') == "bla";
    SplitJoin(["bla"], '/');
    assert "/bla" + "/" == "/bla/";
    TrailingSlashIgnored("/bla");
  }

  /** The in-file test on two segments without the final `/`. */
  lemma TwoSegmentExample()
    ensures ToComponents("/bla/blo") == Some(["bla", "blo"])
  {
    NoDoubleSlash("/bla/blo");
    assert "/bla/blo"[1..] == "bla/blo";
    assert DropOneSuffix("bla/blo", '/') == "bla/blo";
    TwoSegmentSplit();
  }

  /** `bla/blo` splits into its two segments. */
  lemma TwoSegmentSplit()
    ensures Split("bla/blo", '/') == ["bla", "blo"]
  {
    assert Join(["bla", "blo"], '/') == "bla/blo";
    SplitJoin(["bla", "blo"], '/');
  }

  /** The in-file test on two segments with the final `/`. */
  lemma TwoSegmentDirectoryExample()
    ensures ToComponents("/bla/blo/") == Some(["bla", "blo"])
  {
    TwoSegmentExample();
    assert "/bla/blo" + "/" == "/bla/blo/";
    TrailingSlashIgnored("/bla/blo");
  }
}
