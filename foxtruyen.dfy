/** The id extractors of the FoxTruyen source (`wpcomics/sources/foxtruyen/src/lib.rs`) and the URLs they read
    ids back from: a manga's details page `BASE_URL/truyen-tranh/<id>` and a chapter's page
    `BASE_URL/truyen-tranh/<manga>-chap-<chapter>`. */
module FoxTruyen {
  import opened Wrappers
  import opened Text

  const BaseUrl: string := "https://foxtruyen.com"

  /** The pattern `manga_parse_id` splits at. */
  const Marker: string := "truyen-tranh/"

  /** The pattern `chapter_parse_id` splits at. */
  const ChapterSep: string := "-chap-"

  const Html: string := ".html"

  // ---------------------------------------------------------------------------------------------------------
  // The URL builders

  /** `format!("{}/truyen-tranh/{}", BASE_URL, id)`: the URL both `get_manga_details` and `get_chapter_list`
      request. */
  function MangaUrl(id: string): string
  {
    BaseUrl + "/" + Marker + id
  }

  /** `format!("{}/truyen-tranh/{}-chap-{}", BASE_URL, manga_id, chapter_id)`, requested by `get_page_list`. */
  function PageUrl(mangaId: string, chapterId: string): string
  {
    MangaUrl(mangaId) + ChapterSep + chapterId
  }

  // ---------------------------------------------------------------------------------------------------------
  // manga_parse_id

  /** `split("truyen-tranh/").nth(1)`: the text between the first and the second occurrence of the marker (or
      the end), if the marker occurs at all. */
  function SecondPiece(url: string): (r: Option<string>)
    ensures r.None? <==> !Contains(url, Marker)
  {
    FindNone(url, Marker);
    match Find(url, Marker)
    case None => None
    case Some(i) =>
      var after := url[i + |Marker|..];
      match Find(after, Marker)
      case None => Some(after)
      case Some(k) => Some(after[..k])
  }

  /** `split('/').next()`: the text before the first `/`. */
  function BeforeSlash(s: string): (r: string)
    ensures StartsWith(s, r)
    ensures forall i :: 0 <= i < |r| ==> r[i] != '/'
    ensures r == s || s[|r|] == '/'
  {
    match FirstIn(s, {'/'})
    case None => s
    case Some(j) => s[..j]
  }

  /** `manga_parse_id`: the piece after `truyen-tranh/` up to the next `/`, `.html` stripped from its end as
      often as it is there; the empty string when the marker is missing. */
  function MangaParseId(url: string): (id: string)
    ensures !Contains(url, Marker) ==> id == ""
    ensures forall i :: 0 <= i < |id| ==> id[i] != '/'
    ensures !EndsWith(id, Html)
  {
    var piece := match SecondPiece(url) case None => "" case Some(p) => BeforeSlash(p);
    TrimEndMatches(piece, Html)
  }

  /** The details URL's first marker is the one after the host: the host `foxtruyen.com` holds `truyen` but
      never `truyen-tranh/`. */
  lemma MarkerAfterHost(id: string)
    ensures Find(MangaUrl(id), Marker) == Some(|BaseUrl| + 1)
  {
    var prefix := "https://foxtruyen.com/truyen-tranh/";
    var s := MangaUrl(id);
    assert s == prefix + id;
    assert s[22..35] == Marker;
    forall j: nat | j < 22 ensures !OccursAt(s, Marker, j) {
      assert s[j..j + 13] == prefix[j..j + 13];
      if j == 9 {
        assert prefix[j] != Marker[0];
      } else {
        assert prefix[j + 12] != Marker[12];
      }
    }
    FindFirst(s, Marker, 22);
  }

  /** Text without `/` cannot hold the marker, which ends in one. */
  lemma NoMarkerWithoutSlash(s: string)
    requires forall i :: 0 <= i < |s| ==> s[i] != '/'
    ensures Find(s, Marker) == None
  {
    forall j: nat ensures !OccursAt(s, Marker, j) {
      if j + 13 <= |s| {
        assert s[j..j + 13][12] != Marker[12];
      }
    }
    FindNone(s, Marker);
  }

  /** The id reads back from its details URL when it holds no `/` and does not end in `.html`. */
  lemma MangaIdRoundTrip(id: string)
    requires forall i :: 0 <= i < |id| ==> id[i] != '/'
    requires !EndsWith(id, Html)
    ensures MangaParseId(MangaUrl(id)) == id
  {
    var s := MangaUrl(id);
    MarkerAfterHost(id);
    assert s[|BaseUrl| + 1 + |Marker|..] == id;
    NoMarkerWithoutSlash(id);
    assert SecondPiece(s) == Some(id);
  }

  /** An id that does end in `.html` loses every trailing `.html`. */
  lemma MangaIdStripsHtml(id: string)
    requires forall i :: 0 <= i < |id| ==> id[i] != '/'
    ensures MangaParseId(MangaUrl(id)) == TrimEndMatches(id, Html)
  {
    var s := MangaUrl(id);
    MarkerAfterHost(id);
    assert s[|BaseUrl| + 1 + |Marker|..] == id;
    NoMarkerWithoutSlash(id);
    assert SecondPiece(s) == Some(id);
  }

  // ---------------------------------------------------------------------------------------------------------
  // chapter_parse_id

  /** `rsplit("-chap-").next()`: the text after the last `-chap-`, or all of it when there is none. */
  function AfterLastSep(s: string): (r: string)
    ensures EndsWith(s, r)
    ensures r == s || (|r| + |ChapterSep| <= |s| && OccursAt(s, ChapterSep, |s| - |r| - |ChapterSep|))
    ensures !Contains(r, ChapterSep)
  {
    match RFind(s, ChapterSep)
    case None => s
    case Some(k) =>
      var r := s[k + |ChapterSep|..];
      forall j: nat | j <= |r| ensures !OccursAt(r, ChapterSep, j) {
        if j + |ChapterSep| <= |r| {
          assert r[j..j + |ChapterSep|] == s[k + |ChapterSep| + j..k + |ChapterSep| + j + |ChapterSep|];
          assert !OccursAt(s, ChapterSep, k + |ChapterSep| + j);
        }
      }
      r
  }

  /** `chapter_parse_id`: trailing `/` removed, then the text after the last `-chap-`, then trailing `.html`
      removed. */
  function ChapterParseId(url: string): (id: string)
    ensures !EndsWith(id, Html)
  {
    TrimEndMatches(AfterLastSep(TrimEndChar(url, '/')), Html)
  }

  /** The last match of a pattern is the one with none after it. */
  lemma RFindLast(s: string, p: string, i: nat)
    requires OccursAt(s, p, i) && forall j: nat :: i < j ==> !OccursAt(s, p, j)
    ensures RFind(s, p) == Some(i)
  {
  }

  /** No match starts in the written separator's last four characters but one: each starts with a letter of
      `chap`, and the separator with `-`. */
  lemma SepNotInside(pre: string, c: string, j: nat)
    requires |pre| < j < |pre| + 5
    ensures !OccursAt(pre + ChapterSep + c, ChapterSep, j)
  {
    var s := pre + ChapterSep + c;
    if j + 6 <= |s| {
      assert s[j..j + 6][0] == ChapterSep[j - |pre|];
    }
  }

  /** A match at the written separator's last `-` would need `c` to start with `chap-`. */
  lemma SepNotStraddling(pre: string, c: string)
    requires !StartsWith(c, "chap-")
    ensures !OccursAt(pre + ChapterSep + c, ChapterSep, |pre| + 5)
  {
    var s := pre + ChapterSep + c;
    var j := |pre| + 5;
    if j + 6 <= |s| {
      assert s[j..j + 6][1..] == c[..5];
    }
  }

  /** A match past the written separator would be a match in `c`. */
  lemma SepNotInRest(pre: string, c: string, j: nat)
    requires !Contains(c, ChapterSep) && |pre| + 6 <= j
    ensures !OccursAt(pre + ChapterSep + c, ChapterSep, j)
  {
    var s := pre + ChapterSep + c;
    if j + 6 <= |s| {
      assert s[j..j + 6] == c[j - |pre| - 6..j - |pre|];
      assert !OccursAt(c, ChapterSep, j - |pre| - 6);
    }
  }

  /** After `pre-chap-c`, with `c` free of `-chap-` and not starting with `chap-`, the last separator is the
      written one: no match starts inside it or inside `c`. */
  lemma LastSepWritten(pre: string, c: string)
    requires !Contains(c, ChapterSep) && !StartsWith(c, "chap-")
    ensures RFind(pre + ChapterSep + c, ChapterSep) == Some(|pre|)
  {
    var s := pre + ChapterSep + c;
    var k := |pre|;
    assert s[k..k + 6] == ChapterSep;
    forall j: nat | k < j ensures !OccursAt(s, ChapterSep, j) {
      if j >= k + 6 {
        SepNotInRest(pre, c, j);
      } else if j < k + 5 {
        SepNotInside(pre, c, j);
      } else {
        SepNotStraddling(pre, c);
      }
    }
    RFindLast(s, ChapterSep, k);
  }

  /** The chapter id reads back from the page URL when it holds no `-chap-`, does not start with `chap-`,
      and ends in neither `/` nor `.html`. */
  lemma ChapterIdRoundTrip(mangaId: string, chapterId: string)
    requires !Contains(chapterId, ChapterSep) && !StartsWith(chapterId, "chap-")
    requires chapterId == [] || chapterId[|chapterId| - 1] != '/'
    requires !EndsWith(chapterId, Html)
    ensures ChapterParseId(PageUrl(mangaId, chapterId)) == chapterId
  {
    var pre := MangaUrl(mangaId);
    var s := PageUrl(mangaId, chapterId);
    assert s == pre + ChapterSep + chapterId;
    assert s[|s| - 1] != '/' by {
      if chapterId == [] { assert s[|s| - 1] == ChapterSep[5]; }
      else { assert s[|s| - 1] == chapterId[|chapterId| - 1]; }
    }
    assert TrimEndChar(s, '/') == s;
    LastSepWritten(pre, chapterId);
    assert s[|pre| + |ChapterSep|..] == chapterId;
  }

  /** A chapter id starting with `chap-` is cut: the `-chap-` ending the manga part's separator and the id's
      own `chap-` overlap, and the last match starts inside the id. */
  lemma ChapterIdOverlap(mangaId: string, rest: string)
    requires !Contains(rest, ChapterSep) && !StartsWith(rest, "chap-")
    requires rest == [] || rest[|rest| - 1] != '/'
    requires !EndsWith(rest, Html)
    ensures ChapterParseId(PageUrl(mangaId, "chap-" + rest)) == rest
  {
    assert PageUrl(mangaId, "chap-" + rest) == PageUrl(mangaId + "-chap", rest);
    ChapterIdRoundTrip(mangaId + "-chap", rest);
  }
}
