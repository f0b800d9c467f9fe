/** The string helpers of the HentaiVN parser (`vi.hentaivn/src/parser.rs`): the id of a listed manga, its
    link with every `/` removed, and the title of a details page, the text before the first ` - `. */
module HentaiParser {
  import opened Wrappers
  import opened Text

  /** The id `parse_new_or_complete_page` gives a listed manga: its `href` with every `/` deleted. */
  function ListingId(href: string): (id: string)
    ensures forall i :: 0 <= i < |id| ==> id[i] != '/'
    ensures |id| + Count(href, '/') == |href|
  {
    RemoveChar(href, '/')
  }

  /** Deleting the slashes works piece by piece. */
  lemma ListingIdConcat(a: string, b: string)
    ensures ListingId(a + b) == ListingId(a) + ListingId(b)
  {
    RemoveCharConcat(a, b, '/');
  }

  /** A link `/slug/` gives back its slug, and so does a slug already without slashes. */
  lemma ListingIdOfLink(slug: string)
    requires forall i :: 0 <= i < |slug| ==> slug[i] != '/'
    ensures ListingId("/" + slug + "/") == slug
    ensures ListingId(slug) == slug
  {
    RemoveCharAbsent(slug, '/');
    ListingIdConcat("/" + slug, "/");
    ListingIdConcat("/", slug);
    assert ListingId("/") == [];
  }

  const TitleSeparator: string := " - "

  /** The title of `parse_manga_details`: the first piece of the heading split at ` - `. */
  function DetailsTitle(text: string): string
  {
    match Find(text, TitleSeparator)
    case None => text
    case Some(i) => text[..i]
  }

  /** The title is a prefix of the heading that holds no ` - `; it is the whole heading, or the separator
      follows it. */
  lemma DetailsTitleShape(text: string)
    ensures StartsWith(text, DetailsTitle(text))
    ensures !Contains(DetailsTitle(text), TitleSeparator)
    ensures DetailsTitle(text) == text || OccursAt(text, TitleSeparator, |DetailsTitle(text)|)
  {
    var r := DetailsTitle(text);
    assert text[..|r|] == r;
    forall j: nat | j <= |r| ensures !OccursAt(r, TitleSeparator, j) {
      if j + 3 <= |r| {
        assert r[j..j + 3] == text[j..j + 3];
        assert !OccursAt(text, TitleSeparator, j);
      }
    }
  }

  /** A heading without ` - ` is the title as it is. */
  lemma DetailsTitleWhole(text: string)
    requires !Contains(text, TitleSeparator)
    ensures DetailsTitle(text) == text
  {
    FindNone(text, TitleSeparator);
  }

  /** A title written before ` - ` is read back, when it holds no ` - ` and does not end in ` -` (which
      would make the separator start inside it). */
  lemma DetailsTitleOf(title: string, rest: string)
    requires !Contains(title, TitleSeparator) && !EndsWith(title, " -")
    ensures DetailsTitle(title + TitleSeparator + rest) == title
  {
    var s := title + TitleSeparator + rest;
    var n := |title|;
    assert s[n..n + 3] == TitleSeparator;
    forall j: nat | j < n ensures !OccursAt(s, TitleSeparator, j) {
      if j + 3 <= n {
        assert s[j..j + 3] == title[j..j + 3];
        assert !OccursAt(title, TitleSeparator, j);
      } else if j + 2 == n {
        assert s[j..j + 3][0] == title[n - 2] && s[j..j + 3][1] == title[n - 1];
        assert title[n - 2..] == [title[n - 2], title[n - 1]];
      } else {
        assert s[j + 1] == ' ' && TitleSeparator[1] == '-';
        assert s[j..j + 3][1] == s[j + 1];
      }
    }
    FindFirst(s, TitleSeparator, n);
    assert s[..n] == title;
  }
}
