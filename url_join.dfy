/** `absolute_url`, which `vi.hakovn` and `vi.hentaivn` each carry in an identical copy: it joins a link
    found in a page to the site's base URL. Rust slices strings by byte offset, so the offsets the code
    computes are byte offsets (`Utf8.EncodedLength` of the characters before them) and a slice ending where
    no character ends, or beyond the string, panics. */
module UrlJoin {
  import opened Wrappers
  import opened Text
  import Utf8

  /** The panics of `&base_url[..end]` when `end` is past the end, or inside a character. */
  const OutOfBoundsPanic: string := "byte index is out of bounds"
  const NotCharBoundaryPanic: string := "byte index is not a char boundary"

  /** The patterns the code searches for. */
  const SchemeSep: string := "://"
  const HttpPrefix: string := "http://"
  const HttpsPrefix: string := "https://"

  /** The characters of `s` making up its first `n` bytes, if some prefix of `s` has exactly `n` bytes. */
  function BytePrefix(s: string, n: nat): (r: Option<string>)
    ensures r.Some? ==> StartsWith(s, r.value) && Utf8.EncodedLength(r.value) == n
    decreases |s|
  {
    if n == 0 then Some([])
    else if s == [] then None
    else
      var w := Utf8.Width(s[0]);
      if n < w then None
      else match BytePrefix(s[1..], n - w)
        case None => None
        case Some(t) =>
          assert ([s[0]] + t)[1..] == t;
          Some([s[0]] + t)
  }

  /** A prefix ending where a character ends is found again from its byte length. */
  lemma {:induction false} BytePrefixOf(s: string, k: nat, n: nat)
    requires k <= |s| && n == Utf8.EncodedLength(s[..k])
    ensures BytePrefix(s, n) == Some(s[..k])
    decreases k
  {
    if k > 0 {
      assert s[..k][1..] == s[1..][..k - 1];
      BytePrefixOf(s[1..], k - 1, n - Utf8.Width(s[0]));
      assert [s[0]] + s[1..][..k - 1] == s[..k];
    }
  }

  /** A byte length with no prefix behind it: too long for the string, or ending inside a character. */
  lemma BytePrefixNone(s: string, n: nat)
    requires BytePrefix(s, n).None?
    ensures forall k :: 0 <= k <= |s| ==> Utf8.EncodedLength(s[..k]) != n
  {
    forall k | 0 <= k <= |s| ensures Utf8.EncodedLength(s[..k]) != n {
      if Utf8.EncodedLength(s[..k]) == n {
        BytePrefixOf(s, k, n);
        assert false;
      }
    }
  }

  /** A string has no prefix longer in bytes than itself. */
  lemma NoLongerPrefix(s: string, n: nat)
    requires n > Utf8.EncodedLength(s)
    ensures BytePrefix(s, n).None?
  {
    var e := BytePrefix(s, n);
    if e.Some? {
      assert s == e.value + s[|e.value|..];
      Utf8.EncodedLengthConcat(e.value, s[|e.value|..]);
    }
  }

  /** The panic that `&s[..n]` raises when `s` has no prefix of `n` bytes. */
  function SlicePanic(s: string, n: nat): string
  {
    if n > Utf8.EncodedLength(s) then OutOfBoundsPanic else NotCharBoundaryPanic
  }

  /** `str::find` gives a byte offset: the byte length of the characters before the match. */
  function ByteOffset(s: string, i: nat): nat
    requires i <= |s|
  {
    Utf8.EncodedLength(s[..i])
  }

  /** `base_url.find("://")`, then `base_url[pos + 3..].find('/')`: both positions (in characters), when both
      are found. */
  function SchemeAndSlash(baseUrl: string): (r: Option<(nat, nat)>)
    ensures r.Some? ==> var (pos, slashPos) := r.value;
      OccursAt(baseUrl, SchemeSep, pos) && pos + 3 + slashPos < |baseUrl| && baseUrl[pos + 3 + slashPos] == '/'
      && forall i :: pos + 3 <= i < pos + 3 + slashPos ==> baseUrl[i] != '/'
  {
    match Find(baseUrl, SchemeSep)
    case None => None
    case Some(pos) =>
      match FirstIn(baseUrl[pos + 3..], {'/'})
      case None => None
      case Some(slashPos) =>
        assert forall i :: pos + 3 <= i < pos + 3 + slashPos ==> baseUrl[i] == baseUrl[pos + 3..][i - pos - 3];
        Some((pos, slashPos))
  }

  /** `format!("{}{}", &base_url[..end], url)`. */
  function AfterDomain(baseUrl: string, end: nat, url: string): Exec<string>
  {
    match BytePrefix(baseUrl, end)
    case None => Panic(SlicePanic(baseUrl, end))
    case Some(domain) => Done(domain + url)
  }

  predicate IsAbsolute(url: string) {
    StartsWith(url, HttpPrefix) || StartsWith(url, HttpsPrefix)
  }

  /** A relative link: the base, a `/` unless the base ends in one, then the link. */
  function Relative(url: string, baseUrl: string): Exec<string>
  {
    Done(baseUrl + (if EndsWith(baseUrl, "/") then "" else "/") + url)
  }

  /** A rooted link (one starting with `/`), with the slice end `pos + 3 + slash_pos + pos + 3` as the code
      writes it. */
  function Rooted(url: string, baseUrl: string): Exec<string>
  {
    match SchemeAndSlash(baseUrl)
    case None => Done(baseUrl + url)
    case Some((pos, slashPos)) =>
      var p, s := ByteOffset(baseUrl, pos), ByteOffset(baseUrl[pos + 3..], slashPos);
      AfterDomain(baseUrl, p + 3 + s + p + 3, url)
  }

  /** What `absolute_url(url, base_url)` returns. */
  function Joined(url: string, baseUrl: string): Exec<string>
  {
    if IsAbsolute(url) then Done(url)
    else if StartsWith(url, "/") then Rooted(url, baseUrl)
    else Relative(url, baseUrl)
  }

  /** `absolute_url`: returns absolute links as they are; a rooted link goes after the scheme and host; a
      relative one is pushed onto a copy of the base, after a `/` when the base does not end in one. */
  method AbsoluteUrl(url: string, baseUrl: string) returns (r: Exec<string>)
    ensures r == Joined(url, baseUrl)
  {
    if IsAbsolute(url) {
      return Done(url);
    }
    if StartsWith(url, "/") {
      var pos := Find(baseUrl, SchemeSep);
      if pos.None? {
        return Done(baseUrl + url);
      }
      var slashPos := FirstIn(baseUrl[pos.value + 3..], {'/'});
      if slashPos.None? {
        return Done(baseUrl + url);
      }
      var p := Utf8.EncodedLength(baseUrl[..pos.value]);
      var s := Utf8.EncodedLength(baseUrl[pos.value + 3..][..slashPos.value]);
      var domain := BytePrefix(baseUrl, p + 3 + s + p + 3);
      if domain.None? {
        return Panic(SlicePanic(baseUrl, p + 3 + s + p + 3));
      }
      return Done(domain.value + url);
    }
    var newBase := baseUrl;
    if !EndsWith(newBase, "/") {
      newBase := newBase + "/";
    }
    newBase := newBase + url;
    assert newBase == baseUrl + (if EndsWith(baseUrl, "/") then "" else "/") + url;
    return Done(newBase);
  }

  /** An `http://` or `https://` link is returned unchanged, whatever the base. */
  lemma AbsoluteKept(url: string, baseUrl: string)
    requires IsAbsolute(url)
    ensures Joined(url, baseUrl) == Done(url)
  {
  }

  /** A relative link follows the base and exactly one `/`: the base's own, or one added. */
  lemma RelativeJoined(url: string, baseUrl: string)
    requires !IsAbsolute(url) && !StartsWith(url, "/")
    ensures Joined(url, baseUrl).Done?
    ensures var r := Joined(url, baseUrl).value;
      StartsWith(r, baseUrl) && EndsWith(r, url)
      && (if EndsWith(baseUrl, "/") then |r| == |baseUrl| + |url| else r == baseUrl + "/" + url)
  {
    var r := Joined(url, baseUrl).value;
    assert r[..|baseUrl|] == baseUrl;
    assert r[|r| - |url|..] == url;
  }

  /** With no `://` in the base, or no `/` after the first one, there is nothing to cut at. */
  lemma NoSlashAfterScheme(baseUrl: string)
    requires !Contains(baseUrl, SchemeSep)
      || (Find(baseUrl, SchemeSep).Some? && forall i :: Find(baseUrl, SchemeSep).value + 3 <= i < |baseUrl| ==> baseUrl[i] != '/')
    ensures SchemeAndSlash(baseUrl).None?
  {
    FindNone(baseUrl, SchemeSep);
    if Contains(baseUrl, SchemeSep) {
      var pos := Find(baseUrl, SchemeSep).value;
      var rest := baseUrl[pos + 3..];
      assert forall j :: 0 <= j < |rest| ==> rest[j] == baseUrl[pos + 3 + j];
    }
  }

  /** ... and a rooted link then goes straight after the base. */
  lemma RootedOnBareHost(url: string, baseUrl: string)
    requires !IsAbsolute(url) && StartsWith(url, "/") && SchemeAndSlash(baseUrl).None?
    ensures Joined(url, baseUrl) == Done(baseUrl + url)
  {
  }

  /** The base URLs of the two sites: both are a scheme and a host, with nothing after. */
  const HakoBase: string := "https://docln.sbs"
  const HentaiBase: string := "https://hentaivn.cx"

  /** A base `https://` + host with no `/` or `:` in the host. */
  predicate BareHttpsHost(baseUrl: string) {
    StartsWith(baseUrl, HttpsPrefix) && forall i :: 8 <= i < |baseUrl| ==> baseUrl[i] != '/' && baseUrl[i] != ':'
  }

  /** `://` is found right after `https`, and no `/` follows it. */
  lemma BareHostShape(baseUrl: string)
    requires BareHttpsHost(baseUrl)
    ensures SchemeAndSlash(baseUrl).None?
  {
    assert OccursAt(baseUrl, SchemeSep, 5) by { assert baseUrl[5..8] == baseUrl[..8][5..8]; }
    forall j: nat | j < 5 ensures !OccursAt(baseUrl, SchemeSep, j) {
      assert baseUrl[j] == baseUrl[..8][j];
    }
    assert Find(baseUrl, SchemeSep) == Some(5);
    NoSlashAfterScheme(baseUrl);
  }

  lemma SiteBasesBare()
    ensures BareHttpsHost(HakoBase) && BareHttpsHost(HentaiBase)
  {
    assert HakoBase[..8] == "https://";
    assert HentaiBase[..8] == "https://";
  }

  /** With either site's base, every rooted link is simply appended: the miscomputed slice end is never
      reached. */
  lemma RootedOnSiteBases(url: string)
    requires !IsAbsolute(url) && StartsWith(url, "/")
    ensures Joined(url, HakoBase) == Done(HakoBase + url)
    ensures Joined(url, HentaiBase) == Done(HentaiBase + url)
  {
    SiteBasesBare();
    BareHostShape(HakoBase);
    BareHostShape(HentaiBase);
  }

  // ---------------------------------------------------------------------------------------------------------
  // The slice end. `pos + 3 + slash_pos` is where the host ends; the code adds `pos + 3` a second time.

  /** What `absolute_url` evidently means for a rooted link: it replaces the path of the base, keeping its
      scheme and host, `&base_url[..pos + 3 + slash_pos]`. */
  function RootedIntended(url: string, baseUrl: string): Exec<string>
  {
    match SchemeAndSlash(baseUrl)
    case None => Done(baseUrl + url)
    case Some((pos, slashPos)) =>
      AfterDomain(baseUrl, ByteOffset(baseUrl, pos) + 3 + ByteOffset(baseUrl[pos + 3..], slashPos), url)
  }

  /** `absolute_url` with the intended slice end. */
  function JoinedIntended(url: string, baseUrl: string): Exec<string>
  {
    if IsAbsolute(url) then Done(url)
    else if StartsWith(url, "/") then RootedIntended(url, baseUrl)
    else Relative(url, baseUrl)
  }

  /** The byte offset of the first `/` after `://`: the offsets of its three parts add up. */
  lemma HostEnd(baseUrl: string, pos: nat, slashPos: nat)
    requires OccursAt(baseUrl, SchemeSep, pos) && pos + 3 + slashPos <= |baseUrl|
    ensures Utf8.EncodedLength(baseUrl[..pos]) + 3 + Utf8.EncodedLength(baseUrl[pos + 3..][..slashPos])
         == Utf8.EncodedLength(baseUrl[..pos + 3 + slashPos])
  {
    var scheme := baseUrl[pos..pos + 3];
    var host := baseUrl[pos + 3..][..slashPos];
    assert baseUrl[..pos + 3 + slashPos] == baseUrl[..pos] + scheme + host;
    Utf8.EncodedLengthConcat(baseUrl[..pos] + scheme, host);
    Utf8.EncodedLengthConcat(baseUrl[..pos], scheme);
    Utf8.EncodedLengthAscii(scheme);
  }

  /** The intended slice end, once both positions are known. */
  lemma RootedIntendedAt(url: string, baseUrl: string, pos: nat, slashPos: nat)
    requires SchemeAndSlash(baseUrl) == Some((pos, slashPos))
    ensures pos + 3 + slashPos < |baseUrl|
    ensures RootedIntended(url, baseUrl)
         == AfterDomain(baseUrl, ByteOffset(baseUrl, pos) + 3 + ByteOffset(baseUrl[pos + 3..], slashPos), url)
  {
  }

  /** The intended join once both positions are known: the base up to the `/`, then the link. */
  lemma IntendedAt(url: string, baseUrl: string, pos: nat, slashPos: nat)
    requires !IsAbsolute(url) && StartsWith(url, "/") && SchemeAndSlash(baseUrl) == Some((pos, slashPos))
    ensures pos + 3 + slashPos < |baseUrl|
    ensures JoinedIntended(url, baseUrl) == Done(baseUrl[..pos + 3 + slashPos] + url)
  {
    RootedIntendedAt(url, baseUrl, pos, slashPos);
    var n := ByteOffset(baseUrl, pos) + 3 + ByteOffset(baseUrl[pos + 3..], slashPos);
    HostEnd(baseUrl, pos, slashPos);
    BytePrefixOf(baseUrl, pos + 3 + slashPos, n);
  }

  /** The intended slice never panics, and a rooted link lands right after the host: the result is the base
      up to (not including) its first `/` after `://`, then the link. */
  lemma IntendedRootedJoin(url: string, baseUrl: string)
    requires !IsAbsolute(url) && StartsWith(url, "/") && SchemeAndSlash(baseUrl).Some?
    ensures var (pos, slashPos) := SchemeAndSlash(baseUrl).value;
      pos + 3 + slashPos < |baseUrl| && baseUrl[pos + 3 + slashPos] == '/'
      && (forall i :: pos + 3 <= i < pos + 3 + slashPos ==> baseUrl[i] != '/')
      && JoinedIntended(url, baseUrl) == Done(baseUrl[..pos + 3 + slashPos] + url)
  {
    var (pos, slashPos) := SchemeAndSlash(baseUrl).value;
    IntendedAt(url, baseUrl, pos, slashPos);
  }

  /** The intended join agrees with the code on every link but a rooted one under a base with a path. */
  lemma IntendedAgreesElsewhere(url: string, baseUrl: string)
    requires IsAbsolute(url) || !StartsWith(url, "/") || SchemeAndSlash(baseUrl).None?
    ensures Joined(url, baseUrl) == JoinedIntended(url, baseUrl)
  {
  }

  /** The base and the rooted link of the example below. */
  const ExampleBase: string := "https://a.b/c"
  const ExampleLink: string := "/x"

  lemma ExampleLinkRooted()
    ensures !IsAbsolute(ExampleLink) && StartsWith(ExampleLink, "/")
  {
    assert ExampleLink[..1] == "/";
  }

  lemma ExampleHost()
    ensures |ExampleBase| == 13 && ExampleBase[..11] + ExampleLink == "https://a.b/x"
  {
  }

  /** Where `absolute_url` looks in `https://a.b/c`: `://` at 5, then `/` 3 characters later. */
  lemma ExampleScheme()
    ensures SchemeAndSlash(ExampleBase) == Some((5, 3))
  {
    var b := ExampleBase;
    var scheme := b[..5];
    assert scheme == "https";
    assert OccursAt(b, SchemeSep, 5) by { assert b[5..8] == SchemeSep; }
    forall j: nat | j < 5 ensures !OccursAt(b, SchemeSep, j) {
      assert b[j] == scheme[j];
      assert b[j..j + 3][0] == b[j];
    }
    FindFirst(b, SchemeSep, 5);
    assert b[8..] == "a.b/c";
    ExampleSlash();
  }

  lemma ExampleSlash()
    ensures FirstIn("a.b/c", {'/'}) == Some(3)
  {
    var rest := "a.b/c";
    assert rest[0] == 'a' && rest[1] == '.' && rest[2] == 'b' && rest[3] == '/';
    FirstInFirst(rest, {'/'}, 3);
  }

  /** Its characters are ASCII, so its byte offsets are its character offsets. */
  lemma ExampleLength()
    ensures Utf8.EncodedLength(ExampleBase) == 13
  {
    var b := "https://a.b/c";
    Utf8.EncodedLengthAscii(b);
  }

  lemma ExampleOffsets()
    ensures |ExampleBase| == 13 && ByteOffset(ExampleBase, 5) == 5 && ByteOffset(ExampleBase[8..], 3) == 3
  {
    var b := ExampleBase;
    assert b[..5] == "https" && b[8..][..3] == "a.b";
    Utf8.EncodedLengthAscii("https");
    Utf8.EncodedLengthAscii("a.b");
  }

  /** The slice end as the code computes it, once both positions are known. */
  lemma RootedAt(url: string, baseUrl: string, pos: nat, slashPos: nat)
    requires !IsAbsolute(url) && StartsWith(url, "/") && SchemeAndSlash(baseUrl) == Some((pos, slashPos))
    ensures pos + 3 + slashPos < |baseUrl|
    ensures Joined(url, baseUrl)
         == AfterDomain(baseUrl, ByteOffset(baseUrl, pos) + 3 + ByteOffset(baseUrl[pos + 3..], slashPos) + ByteOffset(baseUrl, pos) + 3, url)
  {
  }

  /** A slice end past the end of the base panics. */
  lemma AfterDomainPastEnd(baseUrl: string, n: nat, url: string)
    requires n > Utf8.EncodedLength(baseUrl)
    ensures AfterDomain(baseUrl, n, url) == Panic(OutOfBoundsPanic)
  {
    NoLongerPrefix(baseUrl, n);
  }

  /** Whenever the doubled slice end passes the end of the base, a rooted link panics. */
  lemma OverlongSlice(url: string, baseUrl: string, pos: nat, slashPos: nat)
    requires !IsAbsolute(url) && StartsWith(url, "/") && SchemeAndSlash(baseUrl) == Some((pos, slashPos))
    requires ByteOffset(baseUrl, pos) + 3 + ByteOffset(baseUrl[pos + 3..], slashPos) + ByteOffset(baseUrl, pos) + 3
           > Utf8.EncodedLength(baseUrl)
    ensures Joined(url, baseUrl) == Panic(OutOfBoundsPanic)
  {
    var n := ByteOffset(baseUrl, pos) + 3 + ByteOffset(baseUrl[pos + 3..], slashPos) + ByteOffset(baseUrl, pos) + 3;
    RootedAt(url, baseUrl, pos, slashPos);
    AfterDomainPastEnd(baseUrl, n, url);
  }

  /** The doubled offset at work: for the rooted link `/x` under `https://a.b/c` the slice end is
      5 + 3 + 3 + 5 + 3 = 19, past the 13 bytes of the base, and the code panics ... */
  lemma SliceEndPanics()
    ensures Joined(ExampleLink, ExampleBase) == Panic(OutOfBoundsPanic)
  {
    ExampleScheme();
    ExampleLength();
    ExampleOffsets();
    ExampleLinkRooted();
    OverlongSlice(ExampleLink, ExampleBase, 5, 3);
  }

  /** ... where the intended join gives `https://a.b/x`. */
  lemma SliceEndIntended()
    ensures JoinedIntended(ExampleLink, ExampleBase) == Done("https://a.b/x")
  {
    ExampleScheme();
    ExampleLinkRooted();
    IntendedAt(ExampleLink, ExampleBase, 5, 3);
    ExampleHost();
  }
}
