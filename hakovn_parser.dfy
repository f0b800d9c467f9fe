/** The string helpers of the Hako parser (`vi.hakovn/src/parser.rs`): the image URL inside a CSS
    `url(...)`, the cover behind a `background-image` style, and the title of a volume. Every cut falls next
    to an ASCII character, so character positions stand for Rust's byte positions. */
module HakoParser {
  import opened Wrappers
  import opened Text

  // ---------------------------------------------------------------------------------------------------------
  // extract_url_from_style

  const UrlOpen: string := "url("

  /** The panic of `&url[1..url.len() - 1]` on a lone quote, where the slice would start after its end. */
  const LoneQuotePanic: string := "begin <= end (1 <= 0) when slicing a lone quote"

  /** `url` starts and ends with the same quote, single or double. */
  predicate Quoted(url: string) {
    (StartsWith(url, "'") && EndsWith(url, "'")) || (StartsWith(url, "\"") && EndsWith(url, "\""))
  }

  /** The `)` after `url(` is not one of its own four characters. */
  lemma CloseAfterOpen(style: string, start: nat, k: nat)
    requires OccursAt(style, UrlOpen, start) && k < |style| - start && style[start + k] == ')'
    ensures k >= 4
  {
  }

  /** The quotes test of `extract_url_from_style`: one pair of matching quotes is removed, and a lone quote
      panics. */
  function Unquote(url: string): (r: Exec<Option<string>>)
    ensures r.Done? ==> r.value.Some? && (r.value.value == url || (|url| >= 2 && r.value.value == url[1..|url| - 1]))
  {
    if !Quoted(url) then Done(Some(url))
    else if |url| < 2 then Panic(LoneQuotePanic)
    else Done(Some(url[1..|url| - 1]))
  }

  /** The rest of `extract_url_from_style`, once `url(` is found at `start`: the text up to the next `)`. */
  function ExtractFrom(style: string, start: nat): (r: Exec<Option<string>>)
    requires OccursAt(style, UrlOpen, start)
    ensures r.Done? && r.value.Some? ==> forall i :: 0 <= i < |r.value.value| ==> r.value.value[i] != ')'
  {
    match FirstIn(style[start..], {')'})
    case None => Done(None)
    case Some(k) =>
      CloseAfterOpen(style, start, k);
      var url := style[start + 4..start + k];
      assert forall i :: 0 <= i < |url| ==> url[i] == style[start..][4 + i];
      Unquote(url)
  }

  /** What `extract_url_from_style` returns: nothing without `url(` and a `)` after it; otherwise the text
      between them, with one pair of matching quotes removed. */
  function ExtractUrlFromStyle(style: string): (r: Exec<Option<string>>)
    ensures r.Done? && r.value.Some? ==> forall i :: 0 <= i < |r.value.value| ==> r.value.value[i] != ')'
  {
    match Find(style, UrlOpen)
    case None => Done(None)
    case Some(start) => ExtractFrom(style, start)
  }

  /** Without `url(` there is nothing to extract ... */
  lemma ExtractWithoutOpen(style: string)
    requires !Contains(style, UrlOpen)
    ensures ExtractUrlFromStyle(style) == Done(None)
  {
    FindNone(style, UrlOpen);
  }

  /** ... nor without a `)` after the first `url(`. */
  lemma ExtractWithoutClose(style: string, start: nat)
    requires Find(style, UrlOpen) == Some(start)
    requires forall i :: start <= i < |style| ==> style[i] != ')'
    ensures ExtractUrlFromStyle(style) == Done(None)
  {
    NoCloseAfter(style, start);
  }

  lemma NoCloseAfter(style: string, start: nat)
    requires start <= |style|
    requires forall i :: start <= i < |style| ==> style[i] != ')'
    ensures FirstIn(style[start..], {')'}).None?
  {
    var rest := style[start..];
    assert forall j :: 0 <= j < |rest| ==> rest[j] == style[start + j];
  }

  /** When the text before it holds no `url(`, the `url(` right after that text is the first one: a match
      starting earlier would lie inside that text, or would need a `(` among the first three characters of
      `url(`. */
  lemma FindUrlOpen(prefix: string, t: string)
    requires !Contains(prefix, UrlOpen)
    ensures Find(prefix + UrlOpen + t, UrlOpen) == Some(|prefix|)
  {
    var s := prefix + UrlOpen + t;
    assert s[|prefix|..|prefix| + 4] == UrlOpen;
    forall j: nat | j < |prefix| ensures !OccursAt(s, UrlOpen, j) {
      if j + 4 <= |s| {
        if j + 4 <= |prefix| {
          assert s[j..j + 4] == prefix[j..j + 4];
          assert !OccursAt(prefix, UrlOpen, j);
        } else {
          assert s[j..j + 4][3] == s[j + 3];
          assert s[j + 3] == UrlOpen[j + 3 - |prefix|];
        }
      }
    }
    FindFirst(s, UrlOpen, |prefix|);
  }

  /** `prefix` + `url(` + `mid` + `)` + `suffix`, with no `url(` in `prefix` and no `)` in `mid`, gives `mid`
      to the quote test. */
  lemma ExtractShape(prefix: string, mid: string, suffix: string)
    requires !Contains(prefix, UrlOpen)
    requires forall i :: 0 <= i < |mid| ==> mid[i] != ')'
    ensures var r := ExtractUrlFromStyle(prefix + UrlOpen + mid + ")" + suffix);
      if !Quoted(mid) then r == Done(Some(mid))
      else if |mid| < 2 then r == Panic(LoneQuotePanic)
      else r == Done(Some(mid[1..|mid| - 1]))
  {
    ExtractAfter(prefix, mid + ")" + suffix);
    ExtractMid(prefix, mid, suffix);
    assert prefix + UrlOpen + mid + ")" + suffix == prefix + UrlOpen + (mid + ")" + suffix);
  }

  /** Extraction from the `url(` after `prefix` gives the text between it and the `)` to the quote test. */
  lemma ExtractMid(prefix: string, mid: string, suffix: string)
    requires forall i :: 0 <= i < |mid| ==> mid[i] != ')'
    ensures OccursAt(prefix + UrlOpen + (mid + ")" + suffix), UrlOpen, |prefix|)
    ensures ExtractFrom(prefix + UrlOpen + (mid + ")" + suffix), |prefix|) == Unquote(mid)
  {
    var t := mid + ")" + suffix;
    var style, start, k := prefix + UrlOpen + t, |prefix|, 4 + |mid|;
    assert style[start..start + 4] == UrlOpen;
    assert t[|mid|] == ')' && t[..|mid|] == mid;
    assert forall i :: 0 <= i < |mid| ==> t[i] == mid[i];
    CloseAt(prefix, t, |mid|);
    ExtractFromAt(style, start, k, mid);
  }

  /** With no `url(` before it, extraction starts at the `url(` right after `prefix`. */
  lemma ExtractAfter(prefix: string, t: string)
    requires !Contains(prefix, UrlOpen)
    ensures OccursAt(prefix + UrlOpen + t, UrlOpen, |prefix|)
    ensures ExtractUrlFromStyle(prefix + UrlOpen + t) == ExtractFrom(prefix + UrlOpen + t, |prefix|)
  {
    FindUrlOpen(prefix, t);
  }

  /** Once the `)` after the `url(` is found, the quote test gets the text between them. */
  lemma ExtractFromAt(style: string, start: nat, k: nat, inner: string)
    requires OccursAt(style, UrlOpen, start) && FirstIn(style[start..], {')'}) == Some(k)
    requires 4 <= k && inner == style[start + 4..start + k]
    ensures ExtractFrom(style, start) == Unquote(inner)
  {
    var rest := style[start..];
    assert rest[k] == ')' && rest[k] == style[start + k];
  }

  /** ... and the first `)` after the `url(` is the first `)` of the text after it. */
  lemma CloseAt(prefix: string, t: string, m: nat)
    requires m < |t| && t[m] == ')' && forall i :: 0 <= i < m ==> t[i] != ')'
    ensures var style := prefix + UrlOpen + t;
      FirstIn(style[|prefix|..], {')'}) == Some(4 + m) && style[|prefix| + 4..|prefix| + 4 + m] == t[..m]
  {
    var style := prefix + UrlOpen + t;
    var rest := UrlOpen + t;
    assert style[|prefix|..] == rest;
    forall j | 0 <= j < 4 + m ensures rest[j] != ')' {
      if j >= 4 { assert rest[j] == t[j - 4]; }
    }
    assert rest[4 + m] == t[m];
    FirstInFirst(rest, {')'}, 4 + m);
    assert style[|prefix| + 4..|prefix| + 4 + m] == t[..m];
  }

  /** A URL in matching quotes comes back without them ... */
  lemma ExtractQuoted(prefix: string, q: char, u: string, suffix: string)
    requires !Contains(prefix, UrlOpen)
    requires q == '\'' || q == '"'
    requires forall i :: 0 <= i < |u| ==> u[i] != ')'
    ensures ExtractUrlFromStyle(prefix + UrlOpen + ([q] + u + [q]) + ")" + suffix) == Done(Some(u))
  {
    var mid := [q] + u + [q];
    assert mid[1..|mid| - 1] == u;
    assert mid[..1] == [q] && mid[|mid| - 1..] == [q];
    ExtractShape(prefix, mid, suffix);
  }

  /** ... a URL without them comes back as it is ... */
  lemma ExtractBare(prefix: string, u: string, suffix: string)
    requires !Contains(prefix, UrlOpen)
    requires forall i :: 0 <= i < |u| ==> u[i] != ')'
    requires !Quoted(u)
    ensures ExtractUrlFromStyle(prefix + UrlOpen + u + ")" + suffix) == Done(Some(u))
  {
    ExtractShape(prefix, u, suffix);
  }

  /** ... and a lone quote makes the slice panic. */
  lemma ExtractLoneQuote(prefix: string, q: char, suffix: string)
    requires !Contains(prefix, UrlOpen)
    requires q == '\'' || q == '"'
    ensures ExtractUrlFromStyle(prefix + UrlOpen + [q] + ")" + suffix) == Panic(LoneQuotePanic)
  {
    assert Quoted([q]) by { assert [q][..1] == [q]; assert [q][0..] == [q]; }
    ExtractShape(prefix, [q], suffix);
  }

  /** An earlier parenthesis does not get in the way: `color: rgb(0,0,0); background-image: url('a')` gives
      `a`. */
  lemma ExtractAfterOtherParens()
    ensures ExtractUrlFromStyle(ExampleStyleHead + UrlOpen + ("'" + "a" + "'") + ")") == Done(Some("a"))
  {
    assert !Contains(ExampleStyleHead, UrlOpen) by {
      forall j: nat | j <= |ExampleStyleHead| ensures !OccursAt(ExampleStyleHead, UrlOpen, j) {
        if j + 4 <= |ExampleStyleHead| {
          assert ExampleStyleHead[j..j + 4][0] == ExampleStyleHead[j];
          assert ExampleStyleHead[j..j + 4][3] == ExampleStyleHead[j + 3];
        }
      }
    }
    ExtractQuoted(ExampleStyleHead, '\'', "a", "");
    assert ExampleStyleHead + UrlOpen + ("'" + "a" + "'") + ")" + "" == ExampleStyleHead + UrlOpen + ("'" + "a" + "'") + ")";
  }

  /** The text before the `url(` of that style, which holds a `(` of its own. */
  const ExampleStyleHead: string := "color: rgb(0,0,0); background-image: "

  // ---------------------------------------------------------------------------------------------------------
  // The cover of `parse_manga_details`

  const CoverPrefix: string := "background-image: url('"
  const CoverSuffix: string := "')"

  /** The two strips, on the trimmed style. */
  function StripCoverStyle(t: string): string
  {
    match StripPrefix(t, CoverPrefix)
    case None => ""
    case Some(s) =>
      match StripSuffix(s, CoverSuffix)
      case None => ""
      case Some(u) => u
  }

  /** The cover: the trimmed style without its `background-image: url('` and `')`, or empty when either is
      missing. */
  function Cover(style: string): string
  {
    StripCoverStyle(Trim(style))
  }

  lemma StrippedShape(t: string)
    requires StripCoverStyle(t) != ""
    ensures t == CoverPrefix + StripCoverStyle(t) + CoverSuffix
  {
  }

  lemma StrippedMissing(t: string)
    requires !StartsWith(t, CoverPrefix) || !EndsWith(t, CoverSuffix)
    ensures StripCoverStyle(t) == ""
  {
  }

  lemma StrippedOf(u: string)
    ensures StripCoverStyle(CoverPrefix + u + CoverSuffix) == u
  {
    assert CoverPrefix + u + CoverSuffix == CoverPrefix + (u + CoverSuffix);
    StripPrefixOf(CoverPrefix, u + CoverSuffix);
    assert (u + CoverSuffix)[|u + CoverSuffix| - 2..] == CoverSuffix;
  }

  /** A non-empty cover sits between the prefix and the suffix of the trimmed style. */
  lemma CoverShape(style: string)
    requires Cover(style) != ""
    ensures Trim(style) == CoverPrefix + Cover(style) + CoverSuffix
  {
    StrippedShape(Trim(style));
  }

  /** Without the prefix, or without the suffix, the cover is empty. */
  lemma CoverMissing(style: string)
    requires !StartsWith(Trim(style), CoverPrefix) || !EndsWith(Trim(style), CoverSuffix)
    ensures Cover(style) == ""
  {
    StrippedMissing(Trim(style));
  }

  /** The style the site writes, with surrounding whitespace, gives back its URL. */
  lemma CoverRoundTrip(u: string, lead: string, trail: string)
    requires forall i :: 0 <= i < |lead| ==> IsWhitespace(lead[i])
    requires forall i :: 0 <= i < |trail| ==> IsWhitespace(trail[i])
    ensures Cover(lead + CoverPrefix + u + CoverSuffix + trail) == u
  {
    var core := CoverPrefix + u + CoverSuffix;
    assert core[0] == 'b' && core[|core| - 1] == ')';
    assert !IsWhitespace(core[0]) && !IsWhitespace(core[|core| - 1]);
    assert lead + CoverPrefix + u + CoverSuffix + trail == lead + core + trail;
    TrimAround(lead, core, trail);
    StrippedOf(u);
  }

  // ---------------------------------------------------------------------------------------------------------
  // The title of a volume in `parse_chapter_list`

  const TitleSeparators: set<char> := {'-', ':'}

  /** The title: the second piece of the raw title split at `-` and `:`, trimmed, when there are two pieces
      or more; the raw title otherwise. */
  function ChapterTitle(titleRaw: string): string
  {
    var parts := Split(titleRaw, TitleSeparators);
    if |parts| > 1 then Trim(parts[1]) else titleRaw
  }

  /** A raw title without separators is the title as it is. */
  lemma TitleWithoutSeparator(titleRaw: string)
    requires forall i :: 0 <= i < |titleRaw| ==> titleRaw[i] !in TitleSeparators
    ensures ChapterTitle(titleRaw) == titleRaw
  {
    SplitNoSeparator(titleRaw, TitleSeparators);
  }

  /** The piece after the first separator runs up to the next separator, or to the end. */
  lemma TitleAfterSeparator(head: string, sep: char, piece: string, tail: string)
    requires forall i :: 0 <= i < |head| ==> head[i] !in TitleSeparators
    requires sep in TitleSeparators
    requires forall i :: 0 <= i < |piece| ==> piece[i] !in TitleSeparators
    requires tail == [] || tail[0] in TitleSeparators
    ensures ChapterTitle(head + [sep] + piece + tail) == Trim(piece)
  {
    var s := head + [sep] + piece + tail;
    SplitAtFirst(s, TitleSeparators, |head|);
    var after := s[|head| + 1..];
    assert after == piece + tail;
    if tail == [] {
      assert after == piece;
      SplitNoSeparator(piece, TitleSeparators);
    } else {
      SplitAtFirst(after, TitleSeparators, |piece|);
      assert after[..|piece|] == piece;
    }
  }

  /** A title taken from a piece holds no separator. */
  lemma TitleFromPiece(titleRaw: string)
    requires |Split(titleRaw, TitleSeparators)| > 1
    ensures forall i :: 0 <= i < |ChapterTitle(titleRaw)| ==> ChapterTitle(titleRaw)[i] !in TitleSeparators
  {
    var parts := Split(titleRaw, TitleSeparators);
    assert forall i :: 0 <= i < |parts[1]| ==> parts[1][i] !in TitleSeparators;
    TrimKeepsOut(parts[1], TitleSeparators);
  }
}
