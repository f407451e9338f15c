/**
 * Markdown pages with a front-matter header (src/markdown.rs). A page may
 * start, after leading whitespace, with `---\n`, a TOML header and a closing
 * `\n---\n`; the header's string entries become template variables and the
 * rendered body becomes the variable `contents`. The TOML parser, the
 * Markdown renderer and the whitespace class are parameters.
 */
module MarkdownPages {
  import opened Wrappers
  import opened Text

  const Opening: string := "---\n"
  const Closing: string := "\n---\n"

  /** The header up to its first closing marker: no marker starts before `|h|` in `h + Closing`. */
  predicate HeaderClean(h: string) {
    Find(h + Closing, Closing) == Some(|h|)
  }

  /** `split` after `trim_start`: the header and the body, if `text` opens and closes a front matter. */
  function SplitTrimmed(text: string): (r: Option<(string, string)>)
    // both markers present, in this order, around the header
    ensures r.Some? ==> text == Opening + r.value.0 + Closing + r.value.1
    // the first closing marker ends the header
    ensures r.Some? ==> HeaderClean(r.value.0)
    // absent only when the opening or the closing marker is missing
    ensures r.None? <==> !(Opening <= text) || !Contains(text[|Opening|..], Closing)
  {
    match StripPrefix(text, Opening)
    case None => None
    case Some(data) =>
      assert data == text[|Opening|..];
      match Find(data, Closing)
      case None => None
      case Some(i) =>
        FirstMarkerEndsHeader(data, i);
        assert data == data[..i] + Closing + data[i + |Closing|..];
        Some((data[..i], data[i + |Closing|..]))
  }

  /** `split`: trim leading whitespace, then cut out the front matter. */
  function Split(doc: string, isSpace: char -> bool): (r: Option<(string, string)>)
    ensures r.Some? ==> TrimStart(doc, isSpace) == Opening + r.value.0 + Closing + r.value.1
    ensures r.Some? ==> HeaderClean(r.value.0) && !Contains(r.value.0, Closing)
    ensures r.None? <==>
              (!(Opening <= TrimStart(doc, isSpace)) ||
               !Contains(TrimStart(doc, isSpace)[|Opening|..], Closing))
  {
    var r := SplitTrimmed(TrimStart(doc, isSpace));
    if r.Some? then
      CleanHeaderHasNoMarker(r.value.0);
      r
    else r
  }

  /** Cutting at the first closing marker leaves a clean header. */
  lemma FirstMarkerEndsHeader(data: string, i: nat)
    requires Find(data, Closing) == Some(i)
    ensures HeaderClean(data[..i])
  {
    var h := data[..i];
    assert h + Closing <= data;
    forall j | 0 <= j < |h| ensures !OccursAt(h + Closing, Closing, j) {
      if j + |Closing| <= |h + Closing| {
        OccursInPrefix(data, h + Closing, Closing, j);
      }
    }
    OccursInPrefix(data, h + Closing, Closing, |h|);
    FindIs(h + Closing, Closing, |h|);
  }

  /** A clean header holds no closing marker. */
  lemma CleanHeaderHasNoMarker(h: string)
    requires HeaderClean(h)
    ensures !Contains(h, Closing)
  {
    forall j | OccursAt(h, Closing, j) ensures false {
      OccursInPrefix(h + Closing, h, Closing, j);
    }
  }

  /** In a header-marker-body text the first marker is the one after the clean header. */
  lemma FirstMarkerAfterCleanHeader(h: string, b: string)
    requires HeaderClean(h)
    ensures Find(h + Closing + b, Closing) == Some(|h|)
  {
    var data := h + Closing + b;
    assert h + Closing <= data;
    forall j | 0 <= j < |h| ensures !OccursAt(data, Closing, j) {
      OccursInPrefix(data, h + Closing, Closing, j);
    }
    OccursInPrefix(data, h + Closing, Closing, |h|);
    FindIs(data, Closing, |h|);
  }

  /** Leading whitespace before a text that starts with a non-space is exactly what trimming removes. */
  lemma TrimStartOfPadded(lead: string, text: string, isSpace: char -> bool)
    requires forall k :: 0 <= k < |lead| ==> isSpace(lead[k])
    requires text != [] && !isSpace(text[0])
    ensures TrimStart(lead + text, isSpace) == text
  {
    var s := lead + text;
    assert s[|lead|..] == text;
  }

  /** Cutting a text assembled from the markers, a clean header and a body gives back both. */
  lemma SplitTrimmedOfAssembled(h: string, b: string)
    requires HeaderClean(h)
    ensures SplitTrimmed(Opening + h + Closing + b) == Some((h, b))
  {
    var text := Opening + h + Closing + b;
    var data := h + Closing + b;
    assert text == Opening + data;
    assert StripPrefix(text, Opening) == Some(data);
    FirstMarkerAfterCleanHeader(h, b);
    assert data[..|h|] == h;
    assert data[|h| + |Closing|..] == b;
  }

  /**
   * Splitting a page assembled from whitespace, the opening marker, a clean
   * header, the closing marker and a body gives back the header and the body.
   */
  lemma SplitOfAssembled(lead: string, h: string, b: string, isSpace: char -> bool)
    requires forall k :: 0 <= k < |lead| ==> isSpace(lead[k])
    requires !isSpace('-')
    requires HeaderClean(h)
    ensures Split(lead + Opening + h + Closing + b, isSpace) == Some((h, b))
  {
    var text := Opening + h + Closing + b;
    assert lead + Opening + h + Closing + b == lead + text;
    TrimStartOfPadded(lead, text, isSpace);
    SplitTrimmedOfAssembled(h, b);
  }

  /** The TOML values the header cares about: strings, and anything else. */
  datatype TomlValue = TomlString(s: string) | TomlOther

  type TomlTable = map<string, TomlValue>

  datatype MarkdownError = InvalidHeader

  /** Template variables. */
  type Header = map<string, string>

  predicate AllStrings(t: TomlTable) {
    forall k :: k in t ==> t[k].TomlString?
  }

  /** The header map built by the loop: every entry's string, under the same key. */
  function StringEntries(t: TomlTable): (h: Header)
    requires AllStrings(t)
    ensures h.Keys == t.Keys
    ensures forall k :: k in h ==> t[k] == TomlString(h[k])
  {
    map k | k in t :: t[k].s
  }

  /** `parse_header`: the header's string entries and the body, or `InvalidHeader`. */
  function ParseHeader(src: string, isSpace: char -> bool, parseToml: string -> Option<TomlTable>)
    : (r: Result<(Header, string), MarkdownError>)
    // no front matter: nothing parsed, the page is the body
    ensures Split(src, isSpace).None? ==> r == Ok((map[], src))
    // front matter: an error iff the header does not parse or holds a non-string value,
    // otherwise exactly the header's string entries and the text after the closing marker
    ensures Split(src, isSpace).Some? ==>
              var (h, b) := Split(src, isSpace).value;
              (r.Err? <==> parseToml(h).None? || !AllStrings(parseToml(h).value)) &&
              (r.Ok? ==> r.value.1 == b &&
                         r.value.0.Keys == parseToml(h).value.Keys &&
                         forall k :: k in r.value.0 ==> parseToml(h).value[k] == TomlString(r.value.0[k]))
  {
    match Split(src, isSpace)
    case None => Ok((map[], src))
    case Some((h, b)) =>
      match parseToml(h)
      case None => Err(InvalidHeader)
      case Some(table) =>
        if AllStrings(table) then Ok((StringEntries(table), b)) else Err(InvalidHeader)
  }

  /** The header variables with `contents` set to the rendered body, replacing any header entry of that name. */
  function WithContents(header: Header, rendered: string): (vars: Header)
    ensures vars.Keys == header.Keys + {"contents"}
    ensures vars["contents"] == rendered
    ensures forall k :: k in header && k != "contents" ==> vars[k] == header[k]
  {
    header["contents" := rendered]
  }

  /** `markdown`: the header variables plus `contents`, the rendered body, which wins over a header key. */
  function Markdown(doc: string, isSpace: char -> bool, parseToml: string -> Option<TomlTable>,
                    render: string -> string): (r: Result<Header, MarkdownError>)
    ensures r.Err? <==> ParseHeader(doc, isSpace, parseToml).Err?
    ensures r.Ok? ==>
              var parsed := ParseHeader(doc, isSpace, parseToml).value;
              r.value == WithContents(parsed.0, render(parsed.1))
  {
    var parsed := ParseHeader(doc, isSpace, parseToml);
    if parsed.Err? then Err(parsed.error)
    else Ok(WithContents(parsed.value.0, render(parsed.value.1)))
  }

  /**
   * What a rendered page holds: `contents` is the rendered body, every other
   * variable comes from the header's string entries, and a header that does
   * not parse, or holds a non-string value, fails the page.
   */
  lemma MarkdownVariables(doc: string, isSpace: char -> bool, parseToml: string -> Option<TomlTable>,
                          render: string -> string)
    requires Split(doc, isSpace).Some?
    ensures var (h, b) := Split(doc, isSpace).value;
            var r := Markdown(doc, isSpace, parseToml, render);
            (r.Err? <==> parseToml(h).None? || !AllStrings(parseToml(h).value)) &&
            (r.Ok? ==>
               r.value["contents"] == render(b) &&
               r.value.Keys == parseToml(h).value.Keys + {"contents"} &&
               forall k :: k in r.value && k != "contents" ==> parseToml(h).value[k] == TomlString(r.value[k]))
  {
  }

  /** A page without front matter renders in full, with `contents` its only variable. */
  lemma PlainPage(doc: string, isSpace: char -> bool, parseToml: string -> Option<TomlTable>,
                  render: string -> string)
    requires !(Opening <= TrimStart(doc, isSpace))
    ensures Markdown(doc, isSpace, parseToml, render) == Ok(map["contents" := render(doc)])
  {
  }
}
