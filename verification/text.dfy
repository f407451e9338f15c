/**
 * String helpers with the semantics of the Rust `str` methods the crate
 * calls (`find`, `rfind`, `split`, `strip_prefix`, `strip_suffix`,
 * `trim_start`). Strings are sequences of characters, so the indices here
 * count characters where Rust counts bytes. Every separator the crate
 * searches for is ASCII, so each cut sits next to an ASCII separator and
 * every substring cut here is the one the Rust code cuts.
 */
module Text {
  import opened Wrappers

  /** `pat` occurs in `s` starting at index `i`. */
  predicate OccursAt(s: string, pat: string, i: int) {
    0 <= i && i + |pat| <= |s| && s[i..i + |pat|] == pat
  }

  lemma OccursAtShift(s: string, pat: string, k: int)
    requires |s| > 0 && k >= 0
    ensures OccursAt(s[1..], pat, k) <==> OccursAt(s, pat, k + 1)
  {
    if k + |pat| <= |s| - 1 {
      assert s[1..][k..k + |pat|] == s[k + 1..k + 1 + |pat|];
    }
  }

  /** `str::find`: the (character) index of the first occurrence of `pat` in `s`. */
  function Find(s: string, pat: string): (r: Option<nat>)
    ensures r.Some? ==> OccursAt(s, pat, r.value)
    ensures r.Some? ==> forall j :: 0 <= j < r.value ==> !OccursAt(s, pat, j)
    ensures r.None? ==> forall j :: !OccursAt(s, pat, j)
    decreases |s|
  {
    if |s| < |pat| then None
    else if s[..|pat|] == pat then Some(0)
    else
      var rest := Find(s[1..], pat);
      assert !OccursAt(s, pat, 0);
      assert forall k :: k >= 0 ==> (OccursAt(s[1..], pat, k) <==> OccursAt(s, pat, k + 1)) by {
        forall k | k >= 0 ensures OccursAt(s[1..], pat, k) <==> OccursAt(s, pat, k + 1) {
          OccursAtShift(s, pat, k);
        }
      }
      assert forall j :: j >= 1 ==> (OccursAt(s, pat, j) <==> OccursAt(s[1..], pat, j - 1)) by {
        forall j | j >= 1 ensures OccursAt(s, pat, j) <==> OccursAt(s[1..], pat, j - 1) {
          OccursAtShift(s, pat, j - 1);
        }
      }
      match rest
      case None => None
      case Some(k) => Some(k + 1)
  }

  /** The first occurrence is the one `Find` reports. */
  lemma FindIs(s: string, pat: string, i: nat)
    requires OccursAt(s, pat, i)
    requires forall j :: 0 <= j < i ==> !OccursAt(s, pat, j)
    ensures Find(s, pat) == Some(i)
  {
  }

  /** An occurrence that ends inside a prefix of `s` is an occurrence in that prefix. */
  lemma OccursInPrefix(s: string, prefix: string, pat: string, j: int)
    requires prefix <= s && 0 <= j && j + |pat| <= |prefix|
    ensures OccursAt(s, pat, j) <==> OccursAt(prefix, pat, j)
  {
    assert s[j..j + |pat|] == prefix[j..j + |pat|];
  }

  /** `str::contains` for a string pattern. */
  predicate Contains(s: string, pat: string) {
    Find(s, pat).Some?
  }

  /** The character index of the first `c` in `s` (`str::find` for a character). */
  function IndexOf(s: string, c: char): (r: Option<nat>)
    ensures r.Some? ==> r.value < |s| && s[r.value] == c && c !in s[..r.value]
    ensures r.None? <==> c !in s
  {
    if |s| == 0 then None
    else if s[0] == c then Some(0)
    else
      match IndexOf(s[1..], c)
      case None => None
      case Some(k) =>
        assert s[..k + 1] == [s[0]] + s[1..][..k];
        Some(k + 1)
  }

  /** The character index of the last `c` in `s` (`str::rfind` for a character). */
  function RFind(s: string, c: char): (r: Option<nat>)
    ensures r.Some? ==> r.value < |s| && s[r.value] == c && c !in s[r.value + 1..]
    ensures r.None? <==> c !in s
  {
    if |s| == 0 then None
    else if s[|s| - 1] == c then Some(|s| - 1)
    else
      var init := s[..|s| - 1];
      match RFind(init, c)
      case None =>
        assert s == init + [s[|s| - 1]];
        None
      case Some(k) =>
        assert s[k + 1..] == init[k + 1..] + [s[|s| - 1]];
        Some(k)
  }

  /** A `c` with no `c` after it is the one `RFind` reports. */
  lemma RFindIs(s: string, c: char, i: nat)
    requires i < |s| && s[i] == c && c !in s[i + 1..]
    ensures RFind(s, c) == Some(i)
  {
  }

  /** `str::split` on a character: always at least one part, no part holds `sep`. */
  function Split(s: string, sep: char): (parts: seq<string>)
    ensures |parts| >= 1
    ensures forall k :: 0 <= k < |parts| ==> sep !in parts[k]
    decreases |s|
  {
    match IndexOf(s, sep)
    case None => [s]
    case Some(i) => [s[..i]] + Split(s[i + 1..], sep)
  }

  /** `join` of the parts with `sep` between consecutive parts. */
  function Join(parts: seq<string>, sep: char): string
  {
    if |parts| == 0 then []
    else if |parts| == 1 then parts[0]
    else parts[0] + [sep] + Join(parts[1..], sep)
  }

  /** Joining the parts of a split gives back the original string. */
  lemma {:induction false} JoinSplit(s: string, sep: char)
    ensures Join(Split(s, sep), sep) == s
    decreases |s|
  {
    match IndexOf(s, sep)
    case None =>
    case Some(i) =>
      var rest := Split(s[i + 1..], sep);
      JoinSplit(s[i + 1..], sep);
      assert Split(s, sep) == [s[..i]] + rest;
      assert s == s[..i] + [sep] + s[i + 1..];
  }

  /** Splitting a join of separator-free parts gives back the parts. */
  lemma {:induction false} SplitJoin(parts: seq<string>, sep: char)
    requires |parts| >= 1
    requires forall k :: 0 <= k < |parts| ==> sep !in parts[k]
    ensures Split(Join(parts, sep), sep) == parts
    decreases |parts|
  {
    if |parts| == 1 {
      assert IndexOf(parts[0], sep).None?;
    } else {
      var p := parts[0];
      var tail := Join(parts[1..], sep);
      var s := Join(parts, sep);
      assert s == p + [sep] + tail;
      assert s[..|p|] == p;
      assert s[|p|] == sep;
      var idx := IndexOf(s, sep);
      assert idx.Some? by {
        assert s[|p|] in s;
      }
      assert idx.value == |p| by {
        assert sep !in s[..|p|];
      }
      assert s[|p| + 1..] == tail;
      SplitJoin(parts[1..], sep);
    }
  }

  /** A part of a split is non-empty and does not start with a character of `bad`. */
  predicate HeadGood(p: string, bad: set<char>) {
    p != [] && p[0] !in bad
  }

  predicate AllHeadsGood(parts: seq<string>, bad: set<char>) {
    forall k :: 0 <= k < |parts| ==> HeadGood(parts[k], bad)
  }

  /** If index `i` holds `sep` and is not the last index, the next character is outside `bad`. */
  predicate FollowGood(s: string, sep: char, bad: set<char>, i: int) {
    0 <= i < |s| - 1 && s[i] == sep ==> s[i + 1] !in bad
  }

  predicate AllFollowGood(s: string, sep: char, bad: set<char>) {
    forall i :: 0 <= i < |s| - 1 ==> FollowGood(s, sep, bad, i)
  }

  /** The condition on `s` under which all parts of its split have good heads. */
  predicate SplitsWell(s: string, sep: char, bad: set<char>) {
    s != [] && s[0] !in bad && s[|s| - 1] != sep && AllFollowGood(s, sep, bad)
  }

  /** Splitting at the first `sep`: the heads are good iff the first part's is and the rest's are. */
  lemma HeadsAtFirstSep(s: string, sep: char, bad: set<char>, i: nat)
    requires IndexOf(s, sep) == Some(i)
    ensures AllHeadsGood(Split(s, sep), bad) <==> HeadGood(s[..i], bad) && AllHeadsGood(Split(s[i + 1..], sep), bad)
  {
    var rest := Split(s[i + 1..], sep);
    var parts := Split(s, sep);
    assert parts == [s[..i]] + rest;
    if AllHeadsGood(parts, bad) {
      assert parts[0] == s[..i];
      forall k | 0 <= k < |rest| ensures HeadGood(rest[k], bad) {
        assert rest[k] == parts[k + 1];
      }
    }
    if HeadGood(s[..i], bad) && AllHeadsGood(rest, bad) {
      forall k | 0 <= k < |parts| ensures HeadGood(parts[k], bad) {
        if k > 0 {
          assert parts[k] == rest[k - 1];
        }
      }
    }
  }

  /** At the first `sep`, `s` splits well iff the first part is a good head and the rest splits well. */
  lemma SplitsWellAtFirstSep(s: string, sep: char, bad: set<char>, i: nat)
    requires sep in bad
    requires i < |s| && s[i] == sep && sep !in s[..i]
    ensures SplitsWell(s, sep, bad) <==> HeadGood(s[..i], bad) && SplitsWell(s[i + 1..], sep, bad)
  {
    var r := s[i + 1..];
    if SplitsWell(s, sep, bad) {
      assert i > 0;
      assert r != [];
      assert FollowGood(s, sep, bad, i);
      assert r[0] == s[i + 1];
      assert r[|r| - 1] == s[|s| - 1];
      forall j | 0 <= j < |r| - 1 ensures FollowGood(r, sep, bad, j) {
        assert FollowGood(s, sep, bad, j + i + 1);
      }
    }
    if HeadGood(s[..i], bad) && SplitsWell(r, sep, bad) {
      assert s[0] == s[..i][0];
      assert s[|s| - 1] == r[|r| - 1];
      forall j | 0 <= j < |s| - 1 ensures FollowGood(s, sep, bad, j) {
        if j < i {
          assert s[j] == s[..i][j];
        } else if j > i {
          assert FollowGood(r, sep, bad, j - i - 1);
        }
      }
    }
  }

  /** Without any `sep`, `s` is its only part. */
  lemma SplitsWellWithoutSep(s: string, sep: char, bad: set<char>)
    requires sep in bad && sep !in s
    ensures AllHeadsGood(Split(s, sep), bad) <==> SplitsWell(s, sep, bad)
  {
    assert Split(s, sep) == [s];
    assert AllHeadsGood([s], bad) <==> HeadGood(s, bad) by {
      assert [s][0] == s;
    }
    if s != [] {
      assert s[|s| - 1] in s;
    }
    forall i | 0 <= i < |s| - 1 ensures FollowGood(s, sep, bad, i) {
      assert s[i] in s;
    }
  }

  /**
   * Every part of `Split(s, sep)` is non-empty and starts outside `bad`
   * exactly when `s` starts outside `bad`, does not end with `sep`, and
   * every inner `sep` is followed by a character outside `bad`.
   */
  lemma {:induction false} SplitHeads(s: string, sep: char, bad: set<char>)
    requires sep in bad
    ensures AllHeadsGood(Split(s, sep), bad) <==> SplitsWell(s, sep, bad)
    decreases |s|
  {
    match IndexOf(s, sep)
    case None =>
      SplitsWellWithoutSep(s, sep, bad);
    case Some(i) =>
      SplitHeads(s[i + 1..], sep, bad);
      HeadsAtFirstSep(s, sep, bad, i);
      SplitsWellAtFirstSep(s, sep, bad, i);
  }

  /** Prepending `sep`: the new first separator must be followed by a good character. */
  lemma FollowCons(t: string, sep: char, bad: set<char>)
    requires t != []
    ensures AllFollowGood([sep] + t, sep, bad) <==> t[0] !in bad && AllFollowGood(t, sep, bad)
  {
    var s := [sep] + t;
    if AllFollowGood(s, sep, bad) {
      assert FollowGood(s, sep, bad, 0);
      forall i | 0 <= i < |t| - 1 ensures FollowGood(t, sep, bad, i) {
        assert FollowGood(s, sep, bad, i + 1);
      }
    }
    if t[0] !in bad && AllFollowGood(t, sep, bad) {
      forall i | 0 <= i < |s| - 1 ensures FollowGood(s, sep, bad, i) {
        if i > 0 {
          assert FollowGood(t, sep, bad, i - 1);
        }
      }
    }
  }

  /** Appending `sep`: the old last character must not itself be `sep`. */
  lemma FollowSnoc(t: string, sep: char, bad: set<char>)
    requires sep in bad && t != []
    ensures AllFollowGood(t + [sep], sep, bad) <==> t[|t| - 1] != sep && AllFollowGood(t, sep, bad)
  {
    var s := t + [sep];
    if AllFollowGood(s, sep, bad) {
      assert FollowGood(s, sep, bad, |t| - 1);
      forall i | 0 <= i < |t| - 1 ensures FollowGood(t, sep, bad, i) {
        assert FollowGood(s, sep, bad, i);
      }
    }
    if t[|t| - 1] != sep && AllFollowGood(t, sep, bad) {
      forall i | 0 <= i < |s| - 1 ensures FollowGood(s, sep, bad, i) {
        if i < |t| - 1 {
          assert FollowGood(t, sep, bad, i);
        }
      }
    }
  }

  /** Fewer forbidden followers is a weaker condition. */
  lemma FollowMono(s: string, sep: char, small: set<char>, big: set<char>)
    requires small <= big
    ensures AllFollowGood(s, sep, big) ==> AllFollowGood(s, sep, small)
  {
    if AllFollowGood(s, sep, big) {
      forall i | 0 <= i < |s| - 1 ensures FollowGood(s, sep, small, i) {
        assert FollowGood(s, sep, big, i);
      }
    }
  }

  /** `s` contains two adjacent `sep` exactly when some `sep` is followed by `sep`. */
  lemma DoubleSepIff(s: string, sep: char)
    ensures Contains(s, [sep, sep]) <==> !AllFollowGood(s, sep, {sep})
  {
    if Contains(s, [sep, sep]) {
      var i := Find(s, [sep, sep]).value;
      assert s[i..i + 2] == [sep, sep];
      assert s[i] == s[i..i + 2][0] && s[i + 1] == s[i..i + 2][1];
      assert !FollowGood(s, sep, {sep}, i);
    }
    if !AllFollowGood(s, sep, {sep}) {
      var i :| 0 <= i < |s| - 1 && !FollowGood(s, sep, {sep}, i);
      assert s[i..i + 2] == [sep, sep];
      assert OccursAt(s, [sep, sep], i);
    }
  }

  /** `str::strip_prefix`: the rest of `s` after `prefix`, if `s` starts with it. */
  function StripPrefix(s: string, prefix: string): (r: Option<string>)
    ensures r.Some? <==> prefix <= s
    ensures r.Some? ==> prefix + r.value == s
  {
    if prefix <= s then Some(s[|prefix|..]) else None
  }

  /** `str::strip_suffix` for one character. */
  function StripSuffix(s: string, c: char): (r: Option<string>)
    ensures r.Some? <==> (|s| > 0 && s[|s| - 1] == c)
    ensures r.Some? ==> r.value + [c] == s
  {
    if |s| > 0 && s[|s| - 1] == c then Some(s[..|s| - 1]) else None
  }

  /** `s.strip_suffix(c).unwrap_or(s)`: drops at most one trailing `c`. */
  function DropOneSuffix(s: string, c: char): (r: string)
    ensures r == s || r + [c] == s
  {
    match StripSuffix(s, c)
    case Some(t) => t
    case None => s
  }

  /** `str::trim_start` for an abstract whitespace predicate. */
  function TrimStart(s: string, isSpace: char -> bool): (r: string)
    ensures |r| <= |s| && r == s[|s| - |r|..]
    ensures forall i :: 0 <= i < |s| - |r| ==> isSpace(s[i])
    ensures r == [] || !isSpace(r[0])
  {
    if |s| > 0 && isSpace(s[0]) then TrimStart(s[1..], isSpace) else s
  }
}
