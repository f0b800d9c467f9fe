/** The `str` operations of Rust's core library that the modelled code uses, stated on `string`
    (a sequence of Unicode scalar values, like Rust's `char`). Positions are character indices; where the
    source does arithmetic on byte offsets, the caller converts with `Utf8.EncodedLength`. */
module Text {
  import opened Wrappers

  predicate StartsWith(s: string, p: string) {
    |p| <= |s| && s[..|p|] == p
  }

  predicate EndsWith(s: string, p: string) {
    |p| <= |s| && s[|s| - |p|..] == p
  }

  /** `p` occurs in `s` starting at index `i`. */
  predicate OccursAt(s: string, p: string, i: nat) {
    i + |p| <= |s| && s[i..i + |p|] == p
  }

  /** `str::contains` with a string pattern. */
  predicate Contains(s: string, p: string) {
    exists i: nat | i <= |s| :: OccursAt(s, p, i)
  }

  /** `str::find`: the first index at which `p` occurs. */
  function Find(s: string, p: string): (r: Option<nat>)
    ensures r.Some? ==> OccursAt(s, p, r.value)
    ensures r.Some? ==> forall j: nat :: j < r.value ==> !OccursAt(s, p, j)
    ensures r.None? ==> forall j: nat :: !OccursAt(s, p, j)
    decreases |s|
  {
    if |s| < |p| then None
    else if s[..|p|] == p then Some(0)
    else
      var t := Find(s[1..], p);
      assert !OccursAt(s, p, 0) by { assert s[0..|p|] == s[..|p|]; }
      assert forall j: nat | 0 < j :: OccursAt(s, p, j) <==> OccursAt(s[1..], p, j - 1) by {
        forall j: nat | 0 < j ensures OccursAt(s, p, j) <==> OccursAt(s[1..], p, j - 1) {
          if j + |p| <= |s| { assert s[1..][j - 1..j - 1 + |p|] == s[j..j + |p|]; }
        }
      }
      match t
      case None => None
      case Some(i) => Some(i + 1)
  }

  /** `find` fails exactly when `p` does not occur. */
  lemma FindNone(s: string, p: string)
    ensures Find(s, p).None? <==> !Contains(s, p)
  {
    if Find(s, p).Some? {
      assert OccursAt(s, p, Find(s, p).value);
    }
  }

  /** A match with none before it is the one `find` returns. */
  lemma FindFirst(s: string, p: string, i: nat)
    requires OccursAt(s, p, i) && forall j: nat :: j < i ==> !OccursAt(s, p, j)
    ensures Find(s, p) == Some(i)
  {
  }

  /** The last index at which `p` occurs; the match `str::rsplit` cuts at first. */
  function RFind(s: string, p: string): (r: Option<nat>)
    ensures r.Some? ==> OccursAt(s, p, r.value)
    ensures r.Some? ==> forall j: nat :: r.value < j ==> !OccursAt(s, p, j)
    ensures r.None? ==> forall j: nat :: !OccursAt(s, p, j)
    decreases |s|
  {
    if |s| < |p| then None
    else if s[|s| - |p|..] == p then Some(|s| - |p|)
    else
      var t := s[..|s| - 1];
      assert forall j: nat :: j + |p| < |s| ==> (OccursAt(s, p, j) <==> OccursAt(t, p, j)) by {
        forall j: nat | j + |p| < |s| ensures OccursAt(s, p, j) <==> OccursAt(t, p, j) {
          assert t[j..j + |p|] == s[j..j + |p|];
        }
      }
      RFind(t, p)
  }

  /** `char::is_whitespace`: the characters with the Unicode White_Space property. */
  const Whitespace: set<char> := {
    '\t', '\n', '\U{0B}', '\U{0C}', '\r', ' ', '\U{85}', '\U{A0}', '\U{1680}',
    '\U{2000}', '\U{2001}', '\U{2002}', '\U{2003}', '\U{2004}', '\U{2005}', '\U{2006}', '\U{2007}',
    '\U{2008}', '\U{2009}', '\U{200A}', '\U{2028}', '\U{2029}', '\U{202F}', '\U{205F}', '\U{3000}'}

  predicate IsWhitespace(c: char) {
    c in Whitespace
  }

  /** `str::trim_start`. */
  function TrimStart(s: string): (r: string)
    ensures |r| <= |s| && r == s[|s| - |r|..]
    ensures r == [] || !IsWhitespace(r[0])
    ensures forall i :: 0 <= i < |s| - |r| ==> IsWhitespace(s[i])
  {
    if s != [] && IsWhitespace(s[0]) then TrimStart(s[1..]) else s
  }

  /** `str::trim_end`. */
  function TrimEnd(s: string): (r: string)
    ensures |r| <= |s| && r == s[..|r|]
    ensures r == [] || !IsWhitespace(r[|r| - 1])
    ensures forall i :: |r| <= i < |s| ==> IsWhitespace(s[i])
  {
    if s != [] && IsWhitespace(s[|s| - 1]) then TrimEnd(s[..|s| - 1]) else s
  }

  /** `str::trim`: both ends. */
  function Trim(s: string): (r: string)
  {
    TrimEnd(TrimStart(s))
  }

  /** Trimming text without whitespace changes nothing. */
  lemma TrimNoWhitespace(s: string)
    requires forall i :: 0 <= i < |s| ==> !IsWhitespace(s[i])
    ensures Trim(s) == s
  {
    var t := TrimStart(s);
    assert t == s;
    var r := TrimEnd(t);
  }

  /** Text that neither starts nor ends with whitespace is its own trim. */
  lemma TrimTight(s: string)
    requires s != [] && !IsWhitespace(s[0]) && !IsWhitespace(s[|s| - 1])
    ensures Trim(s) == s
  {
    assert TrimStart(s) == s;
  }

  /** Whitespace around text that is tight is trimmed away. */
  lemma TrimAround(lead: string, core: string, trail: string)
    requires forall i :: 0 <= i < |lead| ==> IsWhitespace(lead[i])
    requires forall i :: 0 <= i < |trail| ==> IsWhitespace(trail[i])
    requires core != [] && !IsWhitespace(core[0]) && !IsWhitespace(core[|core| - 1])
    ensures Trim(lead + core + trail) == core
  {
    var s := lead + core + trail;
    TrimStartPast(lead, core + trail);
    assert s == lead + (core + trail);
    TrimEndPast(core, trail);
  }

  /** `trim_start` drops exactly the leading whitespace. */
  lemma {:induction false} TrimStartPast(lead: string, t: string)
    requires forall i :: 0 <= i < |lead| ==> IsWhitespace(lead[i])
    requires t != [] && !IsWhitespace(t[0])
    ensures TrimStart(lead + t) == t
    decreases |lead|
  {
    if lead != [] {
      assert (lead + t)[1..] == lead[1..] + t;
      TrimStartPast(lead[1..], t);
    } else {
      assert lead + t == t;
    }
  }

  /** `trim_end` drops exactly the trailing whitespace. */
  lemma {:induction false} TrimEndPast(t: string, trail: string)
    requires forall i :: 0 <= i < |trail| ==> IsWhitespace(trail[i])
    requires t != [] && !IsWhitespace(t[|t| - 1])
    ensures TrimEnd(t + trail) == t
    decreases |trail|
  {
    if trail != [] {
      var s := t + trail;
      assert s[..|s| - 1] == t + trail[..|trail| - 1];
      TrimEndPast(t, trail[..|trail| - 1]);
    } else {
      assert t + trail == t;
    }
  }

  /** Trimming only removes characters: none outside the text comes in. */
  lemma TrimKeepsOut(s: string, out: set<char>)
    requires forall i :: 0 <= i < |s| ==> s[i] !in out
    ensures forall i :: 0 <= i < |Trim(s)| ==> Trim(s)[i] !in out
  {
    var t := TrimStart(s);
    SliceKeepsOut(s, out, |s| - |t|, |s|);
    assert t == s[|s| - |t|..|s|];
    var r := TrimEnd(t);
    SliceKeepsOut(t, out, 0, |r|);
    assert r == t[0..|r|];
  }

  /** A slice holds no character its string does not. */
  lemma SliceKeepsOut(s: string, out: set<char>, a: nat, b: nat)
    requires a <= b <= |s| && forall i :: 0 <= i < |s| ==> s[i] !in out
    ensures forall i :: 0 <= i < b - a ==> s[a..b][i] !in out
  {
    forall i | 0 <= i < b - a ensures s[a..b][i] !in out {
      assert s[a..b][i] == s[a + i];
    }
  }

  /** `str::strip_prefix`. */
  function StripPrefix(s: string, p: string): (r: Option<string>)
    ensures r.Some? <==> StartsWith(s, p)
    ensures r.Some? ==> s == p + r.value
  {
    if StartsWith(s, p) then Some(s[|p|..]) else None
  }

  /** Stripping a prefix that is there leaves what follows it. */
  lemma StripPrefixOf(p: string, t: string)
    ensures StripPrefix(p + t, p) == Some(t)
  {
    assert (p + t)[..|p|] == p;
    assert (p + t)[|p|..] == t;
  }

  /** `str::strip_suffix`. */
  function StripSuffix(s: string, p: string): (r: Option<string>)
    ensures r.Some? <==> EndsWith(s, p)
    ensures r.Some? ==> s == r.value + p
  {
    if EndsWith(s, p) then Some(s[..|s| - |p|]) else None
  }

  /** `str::trim_end_matches` with a non-empty string pattern: strips `p` from the end as long as it is there. */
  function TrimEndMatches(s: string, p: string): (r: string)
    requires p != []
    ensures |r| <= |s| && r == s[..|r|]
    ensures !EndsWith(r, p)
    decreases |s|
  {
    if EndsWith(s, p) then TrimEndMatches(s[..|s| - |p|], p) else s
  }

  /** `str::trim_end_matches` with a character pattern. */
  function TrimEndChar(s: string, c: char): (r: string)
    ensures |r| <= |s| && r == s[..|r|]
    ensures r == [] || r[|r| - 1] != c
    ensures forall i :: |r| <= i < |s| ==> s[i] == c
  {
    if s != [] && s[|s| - 1] == c then TrimEndChar(s[..|s| - 1], c) else s
  }

  /** The number of occurrences of `c` in `s`. */
  function Count(s: string, c: char): nat
  {
    if s == [] then 0 else (if s[0] == c then 1 else 0) + Count(s[1..], c)
  }

  /** `str::replace(c, "")`: every occurrence of `c` deleted. */
  function RemoveChar(s: string, c: char): (r: string)
    ensures forall i :: 0 <= i < |r| ==> r[i] != c
    ensures |r| + Count(s, c) == |s|
  {
    if s == [] then []
    else if s[0] == c then RemoveChar(s[1..], c)
    else [s[0]] + RemoveChar(s[1..], c)
  }

  lemma {:induction false} RemoveCharConcat(a: string, b: string, c: char)
    ensures RemoveChar(a + b, c) == RemoveChar(a, c) + RemoveChar(b, c)
    decreases |a|
  {
    if a != [] {
      assert (a + b)[1..] == a[1..] + b;
      RemoveCharConcat(a[1..], b, c);
    } else {
      assert a + b == b;
    }
  }

  /** A string in which `c` does not occur is left as it is. */
  lemma {:induction false} RemoveCharAbsent(s: string, c: char)
    requires forall i :: 0 <= i < |s| ==> s[i] != c
    ensures RemoveChar(s, c) == s
  {
    if s != [] {
      RemoveCharAbsent(s[1..], c);
    }
  }

  /** `str::split` by a set of separator characters (`split(|v| v == '-' || v == ':')`, `split('|')`):
      the pieces between separators, including empty ones, in order. */
  function Split(s: string, seps: set<char>): (parts: seq<string>)
    ensures |parts| >= 1
    ensures forall k, i :: 0 <= k < |parts| && 0 <= i < |parts[k]| ==> parts[k][i] !in seps
    decreases |s|
  {
    if s == [] then [[]]
    else
      var rest := Split(s[1..], seps);
      if s[0] in seps then [[]] + rest
      else [[s[0]] + rest[0]] + rest[1..]
  }

  /** The number of characters of `s` that belong to `seps`. */
  function CountIn(s: string, seps: set<char>): nat
  {
    if s == [] then 0 else (if s[0] in seps then 1 else 0) + CountIn(s[1..], seps)
  }

  /** The pieces concatenated with `sep` between consecutive ones. */
  function JoinWith(parts: seq<string>, sep: char): string
    requires |parts| >= 1
  {
    if |parts| == 1 then parts[0] else parts[0] + [sep] + JoinWith(parts[1..], sep)
  }

  /** Joining one more piece adds the separator and the piece at the end. */
  lemma {:induction false} JoinWithSnoc(parts: seq<string>, p: string, sep: char)
    requires |parts| >= 1
    ensures JoinWith(parts + [p], sep) == JoinWith(parts, sep) + [sep] + p
    decreases |parts|
  {
    var all := parts + [p];
    if |parts| == 1 {
      assert all[1..] == [p];
    } else {
      assert all[1..] == parts[1..] + [p];
      JoinWithSnoc(parts[1..], p, sep);
    }
  }

  /** The joined string ends with the last piece, and with more than one piece a separator precedes it. */
  lemma {:induction false} JoinWithLast(parts: seq<string>, sep: char)
    requires |parts| >= 1
    ensures EndsWith(JoinWith(parts, sep), parts[|parts| - 1])
    ensures |parts| > 1 ==>
      |JoinWith(parts, sep)| > |parts[|parts| - 1]|
      && JoinWith(parts, sep)[|JoinWith(parts, sep)| - |parts[|parts| - 1]| - 1] == sep
    decreases |parts|
  {
    if |parts| > 1 {
      var tail := JoinWith(parts[1..], sep);
      JoinWithLast(parts[1..], sep);
      var whole := parts[0] + [sep] + tail;
      assert whole[|whole| - |tail|..] == tail;
      if |parts| == 2 {
        assert whole[|whole| - |tail| - 1] == sep;
      } else {
        assert whole[|whole| - |tail| + |tail| - |parts[|parts| - 1]| - 1] == tail[|tail| - |parts[|parts| - 1]| - 1];
      }
    }
  }

  /** Splitting produces one more piece than there are separators. */
  lemma {:induction false} SplitCount(s: string, seps: set<char>)
    ensures |Split(s, seps)| == CountIn(s, seps) + 1
    decreases |s|
  {
    if s != [] {
      SplitCount(s[1..], seps);
    }
  }

  /** Splitting on one character and joining with it gives back the original string. */
  lemma {:induction false} JoinSplit(s: string, c: char)
    ensures JoinWith(Split(s, {c}), c) == s
    decreases |s|
  {
    if s != [] {
      JoinSplit(s[1..], c);
      JoinSplitCons(s, c);
    }
  }

  /** The step of `JoinSplit`: a first character in front of a string that splits and joins back. */
  lemma JoinSplitCons(s: string, c: char)
    requires s != [] && JoinWith(Split(s[1..], {c}), c) == s[1..]
    ensures JoinWith(Split(s, {c}), c) == s
  {
    assert s == [s[0]] + s[1..];
    if s[0] == c {
      JoinSplitAtSep(s, c);
    } else {
      assert Split(s, {c}) == [[s[0]] + Split(s[1..], {c})[0]] + Split(s[1..], {c})[1..];
      JoinWithFront(Split(s[1..], {c}), [s[0]], c);
    }
  }

  /** A leading separator starts with an empty piece. */
  lemma JoinSplitAtSep(s: string, c: char)
    requires s != [] && s[0] == c
    ensures JoinWith(Split(s, {c}), c) == [c] + JoinWith(Split(s[1..], {c}), c)
  {
    var rest := Split(s[1..], {c});
    assert Split(s, {c}) == [[]] + rest;
    assert ([[]] + rest)[1..] == rest;
  }

  /** Putting characters before the first piece puts them before the joined string. */
  lemma JoinWithFront(parts: seq<string>, pre: string, sep: char)
    requires |parts| >= 1
    ensures JoinWith([pre + parts[0]] + parts[1..], sep) == pre + JoinWith(parts, sep)
  {
    var longer := [pre + parts[0]] + parts[1..];
    if |parts| > 1 {
      assert longer[1..] == parts[1..];
    }
  }

  /** The index of the first character of `s` that belongs to `seps`. */
  function FirstIn(s: string, seps: set<char>): (r: Option<nat>)
    ensures r.Some? ==> r.value < |s| && s[r.value] in seps
    ensures r.Some? ==> forall j :: 0 <= j < r.value ==> s[j] !in seps
    ensures r.None? ==> forall j :: 0 <= j < |s| ==> s[j] !in seps
    decreases |s|
  {
    if s == [] then None
    else if s[0] in seps then Some(0)
    else match FirstIn(s[1..], seps)
      case None => None
      case Some(i) => Some(i + 1)
  }

  /** A separator with none before it is the one `FirstIn` finds. */
  lemma FirstInFirst(s: string, seps: set<char>, i: nat)
    requires i < |s| && s[i] in seps && forall j :: 0 <= j < i ==> s[j] !in seps
    ensures FirstIn(s, seps) == Some(i)
  {
  }

  /** A string without separators is a single piece. */
  lemma {:induction false} SplitNoSeparator(s: string, seps: set<char>)
    requires forall j :: 0 <= j < |s| ==> s[j] !in seps
    ensures Split(s, seps) == [s]
    decreases |s|
  {
    if s != [] {
      SplitNoSeparator(s[1..], seps);
      assert s == [s[0]] + s[1..];
    }
  }

  /** Splitting at the first separator: the first piece is what precedes it and the remaining pieces are those
      of what follows it. */
  lemma {:induction false} SplitAtFirst(s: string, seps: set<char>, i: nat)
    requires i < |s| && s[i] in seps
    requires forall j :: 0 <= j < i ==> s[j] !in seps
    ensures Split(s, seps) == [s[..i]] + Split(s[i + 1..], seps)
    decreases i
  {
    if i > 0 {
      SplitAtFirst(s[1..], seps, i - 1);
      assert s[1..][i..] == s[i + 1..];
      assert [s[0]] + s[1..][..i - 1] == s[..i];
    }
  }

  /** `"c".repeat(n)`. */
  function Repeat(c: char, n: nat): (r: string)
    ensures |r| == n && forall i :: 0 <= i < n ==> r[i] == c
  {
    if n == 0 then [] else [c] + Repeat(c, n - 1)
  }
}
