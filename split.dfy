/**
 * `re.split(pattern, text)` for a pattern without capture groups: the text is
 * cut at every leftmost, non-overlapping match, and the matches are dropped.
 * The pattern is given by what it matches at the start of a text.
 */
module ReSplit {
  import opened Wrappers

  /** A compiled pattern: the length of its match at the start of a text, if any. */
  type Matcher = string -> Option<nat>

  /** Every match is a non-empty prefix of the text it was tried on. */
  ghost predicate Consumes(m: Matcher)
  {
    forall t :: m(t).Some? ==> 1 <= m(t).value <= |t|
  }

  /** `re.search`: the leftmost position where the pattern matches, with the length of that match. */
  function Search(m: Matcher, s: string): (r: Option<(nat, nat)>)
    requires Consumes(m)
    ensures r.Some? ==> 1 <= r.value.1 && r.value.0 + r.value.1 <= |s| && m(s[r.value.0..]) == Some(r.value.1)
    ensures r.Some? ==> forall j :: 0 <= j < r.value.0 ==> m(s[j..]).None?
    ensures r.None? ==> forall j :: 0 <= j <= |s| ==> m(s[j..]).None?
  {
    match m(s)
    case Some(n) => Some((0, n))
    case None =>
      if s == [] then None
      else
        var rest := Search(m, s[1..]);
        assert forall j :: 1 <= j <= |s| ==> s[1..][j - 1..] == s[j..];
        match rest
        case None => None
        case Some((i, n)) => Some((i + 1, n))
  }

  /** `re.split`: the pieces of text between consecutive matches, first and last included. */
  function Split(m: Matcher, s: string): (segs: seq<string>)
    requires Consumes(m)
    ensures |segs| >= 1
    decreases |s|, 1
  {
    SplitAt(m, s, Search(m, s))
  }

  /** `Split` once the search result `r` is known: cut at the match, if any. */
  function SplitAt(m: Matcher, s: string, r: Option<(nat, nat)>): (segs: seq<string>)
    requires Consumes(m) && r == Search(m, s)
    ensures |segs| >= 1
    decreases |s|, 0
  {
    match r
    case None => [s]
    case Some((i, n)) => [s[..i]] + Split(m, s[i + n..])
  }

  /** The matches `Split` cuts out, in order. */
  ghost function Delimiters(m: Matcher, s: string): (ds: seq<string>)
    requires Consumes(m)
    decreases |s|, 1
  {
    DelimitersAt(m, s, Search(m, s))
  }

  /** `Delimiters` once the search result `r` is known. */
  ghost function DelimitersAt(m: Matcher, s: string, r: Option<(nat, nat)>): (ds: seq<string>)
    requires Consumes(m) && r == Search(m, s)
    decreases |s|, 0
  {
    match r
    case None => []
    case Some((i, n)) => [s[i..i + n]] + Delimiters(m, s[i + n..])
  }

  /** `segs[0] + ds[0] + segs[1] + ... + ds[k-1] + segs[k]`. */
  function Interleave(segs: seq<string>, ds: seq<string>): (r: string)
    requires |segs| == |ds| + 1
  {
    if ds == [] then segs[0] else segs[0] + ds[0] + Interleave(segs[1..], ds[1..])
  }

  /** Where `Search` finds a match, `Split` cuts there and goes on after it. */
  lemma SplitStep(m: Matcher, s: string, i: nat, n: nat)
    requires Consumes(m) && Search(m, s) == Some((i, n))
    ensures Split(m, s) == [s[..i]] + Split(m, s[i + n..])
  {
  }

  /** Where `Search` finds a match, it is the first text `Split` cuts out. */
  lemma DelimiterStep(m: Matcher, s: string, i: nat, n: nat)
    requires Consumes(m) && Search(m, s) == Some((i, n))
    ensures Delimiters(m, s) == [s[i..i + n]] + Delimiters(m, s[i + n..])
  {
  }

  /** Every text `Split` cuts out is non-empty. */
  lemma {:induction false} DelimitersNonEmpty(m: Matcher, s: string)
    requires Consumes(m)
    ensures forall k :: 0 <= k < |Delimiters(m, s)| ==> 1 <= |Delimiters(m, s)[k]|
    decreases |s|
  {
    match Search(m, s)
    case None =>
    case Some((i, n)) =>
      DelimiterStep(m, s, i, n);
      DelimitersNonEmpty(m, s[i + n..]);
  }

  /**
   * The match `Search` reports is the leftmost one: a match at `i` with none
   * before it is the one found.
   */
  lemma {:induction false} SearchLeftmost(m: Matcher, s: string, i: nat)
    requires Consumes(m) && i <= |s|
    requires m(s[i..]).Some?
    requires forall j :: 0 <= j < i ==> m(s[j..]).None?
    ensures Search(m, s) == Some((i, m(s[i..]).value))
  {
    var r := Search(m, s);
    assert r.Some?;
    assert r.value.0 == i;
  }

  /** `re.split` yields one more piece than there are matches. */
  lemma {:induction false} SplitCount(m: Matcher, s: string)
    requires Consumes(m)
    ensures |Split(m, s)| == |Delimiters(m, s)| + 1
    decreases |s|
  {
    match Search(m, s)
    case None =>
    case Some((i, n)) =>
      SplitStep(m, s, i, n);
      DelimiterStep(m, s, i, n);
      SplitCount(m, s[i + n..]);
  }

  /** Split round trip: putting the matches back between the pieces gives the input. */
  lemma {:induction false} SplitRoundTrip(m: Matcher, s: string)
    requires Consumes(m)
    ensures |Split(m, s)| == |Delimiters(m, s)| + 1
    ensures Interleave(Split(m, s), Delimiters(m, s)) == s
    decreases |s|
  {
    SplitCount(m, s);
    var r := Search(m, s);
    if r.Some? {
      var (i, n) := r.value;
      var tail := s[i + n..];
      SplitRoundTrip(m, tail);
      var d := s[i..i + n];
      var segs, ds := Split(m, tail), Delimiters(m, tail);
      SplitStep(m, s, i, n);
      DelimiterStep(m, s, i, n);
      assert Interleave([s[..i]] + segs, [d] + ds) == s by {
        InterleaveCons(s[..i], d, segs, ds);
        Reassemble(s, i, i + n);
      }
    }
  }

  lemma InterleaveCons(seg: string, d: string, segs: seq<string>, ds: seq<string>)
    requires |segs| == |ds| + 1
    ensures Interleave([seg] + segs, [d] + ds) == seg + d + Interleave(segs, ds)
  {
    assert ([seg] + segs)[1..] == segs;
    assert ([d] + ds)[1..] == ds;
  }

  lemma Reassemble(s: string, i: nat, j: nat)
    requires i <= j <= |s|
    ensures s == s[..i] + s[i..j] + s[j..]
  {
  }

  /** Text in which the pattern matches nowhere, followed by a match, is the first piece. */
  lemma SplitAfterUnmatched(m: Matcher, body: string, t: string, n: nat)
    requires Consumes(m) && m(t) == Some(n)
    requires forall j :: 0 <= j < |body| ==> m((body + t)[j..]).None?
    ensures Split(m, body + t) == [body] + Split(m, t[n..])
  {
    var s := body + t;
    var i := |body|;
    assert s[i..] == t;
    SearchLeftmost(m, s, i);
    SplitStep(m, s, i, n);
    assert s[..i] == body && s[i + n..] == t[n..];
  }

  /**
   * Appending a text that the pattern matches in full at its start, without
   * changing what it matches inside the original text, adds the pieces of
   * what follows that match after the original pieces.
   */
  lemma {:induction false} SplitThenMatch(m: Matcher, s: string, t: string, n: nat)
    requires Consumes(m) && m(t) == Some(n)
    requires forall j :: 0 <= j < |s| ==> m((s + t)[j..]) == m(s[j..])
    ensures Split(m, s + t) == Split(m, s) + Split(m, t[n..])
    decreases |s|
  {
    match Search(m, s)
    case None =>
      SplitAfterUnmatched(m, s, t, n);
    case Some((i, k)) =>
      var rest := s[i + k..];
      AgreeAfter(m, s, t, i + k);
      SplitThenMatch(m, rest, t, n);
      SplitThenMatchStep(m, s, t, n, i, k);
  }

  /** The step of `SplitThenMatch`: the first cut in `s` is the first cut in `s + t`. */
  lemma SplitThenMatchStep(m: Matcher, s: string, t: string, n: nat, i: nat, k: nat)
    requires Consumes(m) && m(t) == Some(n)
    requires forall j :: 0 <= j < |s| ==> m((s + t)[j..]) == m(s[j..])
    requires Search(m, s) == Some((i, k))
    requires Split(m, s[i + k..] + t) == Split(m, s[i + k..]) + Split(m, t[n..])
    ensures Split(m, s + t) == Split(m, s) + Split(m, t[n..])
  {
    var rest := s[i + k..];
    SearchLeftmost(m, s + t, i);
    SliceOfAppend(s, t, i, i + k);
    SplitStepAs(m, s + t, i, k, s[..i], rest + t);
    SplitStep(m, s, i, k);
    ConsAppend(s[..i], Split(m, rest), Split(m, t[n..]));
  }

  /** `SplitStep` with the piece and the remainder given by equal texts. */
  lemma SplitStepAs(m: Matcher, s: string, i: nat, n: nat, before: string, after: string)
    requires Consumes(m) && Search(m, s) == Some((i, n))
    requires before == s[..i] && after == s[i + n..]
    ensures Split(m, s) == [before] + Split(m, after)
  {
    SplitStep(m, s, i, n);
  }

  lemma ConsAppend<T>(x: T, a: seq<T>, b: seq<T>)
    ensures [x] + (a + b) == ([x] + a) + b
  {
  }

  lemma SliceOfAppend(s: string, t: string, i: nat, j: nat)
    requires i <= j <= |s|
    ensures (s + t)[..i] == s[..i] && (s + t)[j..] == s[j..] + t
  {
  }

  /** Agreement of the pattern on `s + t` and `s` carries over to a suffix of `s`. */
  lemma AgreeAfter(m: Matcher, s: string, t: string, a: nat)
    requires a <= |s|
    requires forall j :: 0 <= j < |s| ==> m((s + t)[j..]) == m(s[j..])
    ensures forall j :: 0 <= j < |s[a..]| ==> m((s[a..] + t)[j..]) == m(s[a..][j..])
  {
    forall j | 0 <= j < |s[a..]| ensures m((s[a..] + t)[j..]) == m(s[a..][j..]) {
      assert (s[a..] + t)[j..] == (s + t)[a + j..];
      assert s[a..][j..] == s[a + j..];
    }
  }

  /** A text where the pattern matches nowhere is not cut. */
  lemma NoMatchSplit(m: Matcher, s: string)
    requires Consumes(m)
    requires forall j :: 0 <= j <= |s| ==> m(s[j..]).None?
    ensures Split(m, s) == [s]
  {
    assert Search(m, s).None?;
  }
}

/**
 * The split of a chat log on its WhatsApp headers: `ReSplit` with the header
 * pattern, and what that means in terms of headers.
 */
module HeaderSplit {
  import opened Wrappers
  import opened HeaderPattern
  import opened ReSplit

  /** The compiled header pattern. */
  function HeaderMatcher(cc: CharClasses): (m: Matcher)
    ensures Consumes(m)
  {
    t => MatchHeader(cc, t)
  }

  /** The pieces of `s` between its headers. */
  function SplitOnHeaders(cc: CharClasses, s: string): (segs: seq<string>)
    ensures |segs| >= 1
  {
    Split(HeaderMatcher(cc), s)
  }

  /** No substring of `t` is a header. */
  ghost predicate HeaderFree(cc: CharClasses, t: string)
  {
    forall j, k :: 0 <= j <= k <= |t| ==> !IsHeader(cc, t[j..k])
  }

  /** Every text the split cuts out is a header. */
  lemma {:induction false} DelimitersAreHeaders(cc: CharClasses, s: string)
    ensures forall d :: d in Delimiters(HeaderMatcher(cc), s) ==> IsHeader(cc, d)
    decreases |s|
  {
    var m := HeaderMatcher(cc);
    var r := Search(m, s);
    if r.Some? {
      var (i, n) := r.value;
      DelimiterStep(m, s, i, n);
      DelimitersAreHeaders(cc, s[i + n..]);
      MatchIsHeader(cc, s, i, n);
    }
  }

  /** A match of the header pattern inside `s` covers a header. */
  lemma MatchIsHeader(cc: CharClasses, s: string, i: nat, n: nat)
    requires i <= |s| && MatchHeader(cc, s[i..]) == Some(n)
    ensures i + n <= |s| && IsHeader(cc, s[i..i + n])
  {
    assert s[i..][..n] == s[i..i + n];
  }

  /** If the pattern matches at no position before `i`, the text before `i` holds no header. */
  lemma NoMatchHeaderFree(cc: CharClasses, s: string, i: nat)
    requires i <= |s|
    requires forall j :: 0 <= j < i ==> MatchHeader(cc, s[j..]).None?
    ensures HeaderFree(cc, s[..i])
  {
    forall j, k | 0 <= j <= k <= i
      ensures !IsHeader(cc, s[..i][j..k])
    {
      assert s[..i][j..k] == s[j..][..k - j];
      if j == i {
        EmptyNotHeader(cc, s[..i][j..k]);
      }
    }
  }

  /** The empty text is not a header. */
  lemma EmptyNotHeader(cc: CharClasses, h: string)
    requires |h| == 0
    ensures !IsHeader(cc, h)
  {
    if IsHeader(cc, h) {
      HeaderDelimited(cc, h);
    }
  }

  /** No piece of the split contains a header: the scan always cuts at the leftmost one. */
  lemma {:induction false} SplitHeaderFree(cc: CharClasses, s: string)
    ensures forall seg :: seg in SplitOnHeaders(cc, s) ==> HeaderFree(cc, seg)
    decreases |s|
  {
    var m := HeaderMatcher(cc);
    var r := Search(m, s);
    if r.None? {
      NoMatchSplit(m, s);
      assert s[..|s|] == s;
      NoMatchHeaderFree(cc, s, |s|);
    } else {
      var (i, n) := r.value;
      SplitStep(m, s, i, n);
      NoMatchHeaderFree(cc, s, i);
      SplitHeaderFree(cc, s[i + n..]);
    }
  }

  /** A header-free text is not cut at all. */
  lemma HeaderFreeSplit(cc: CharClasses, s: string)
    requires HeaderFree(cc, s)
    ensures SplitOnHeaders(cc, s) == [s]
  {
    var m := HeaderMatcher(cc);
    forall j | 0 <= j <= |s| ensures m(s[j..]).None? {
      forall n | 0 <= n <= |s| - j ensures !IsHeader(cc, s[j..][..n]) {
        assert s[j..][..n] == s[j..j + n];
      }
    }
    NoMatchSplit(m, s);
  }

  /** With Python's classes, a text that starts with a header splits into an empty first piece and the split of what follows it. */
  lemma SplitAtLeadingHeader(cc: CharClasses, h: string, rest: string)
    requires Sound(cc) && IsHeader(cc, h)
    ensures SplitOnHeaders(cc, h + rest) == [[]] + SplitOnHeaders(cc, rest)
  {
    var s := h + rest;
    assert s[0..] == s;
    HeaderThenText(cc, h, rest);
    SplitAtFirstHeader(cc, s, 0, |h|);
    assert s[..0] == [] && s[|h|..] == rest;
  }

  /** The pattern matches at no position inside text without `[`. */
  lemma BracketFreeNoMatch(cc: CharClasses, body: string, t: string)
    requires '[' !in body
    ensures forall j :: 0 <= j < |body| ==> MatchHeader(cc, (body + t)[j..]).None?
  {
    forall j | 0 <= j < |body| ensures MatchHeader(cc, (body + t)[j..]).None? {
      assert (body + t)[j..][0] == body[j];
      NoBracketNoMatch(cc, (body + t)[j..]);
    }
  }

  /** Text without `[` before a match of the pattern is the first piece of the split. */
  lemma SplitAfterBracketFree(cc: CharClasses, body: string, t: string, n: nat)
    requires '[' !in body && MatchHeader(cc, t) == Some(n)
    ensures SplitOnHeaders(cc, body + t) == [body] + SplitOnHeaders(cc, t[n..])
  {
    BracketFreeNoMatch(cc, body, t);
    SplitAfterUnmatched(HeaderMatcher(cc), body, t, n);
  }

  /**
   * With Python's classes, a header preceded by text without `[` is where the
   * split first cuts.
   */
  lemma SplitBeforeHeader(cc: CharClasses, body: string, h: string, rest: string)
    requires Sound(cc) && IsHeader(cc, h) && '[' !in body
    ensures SplitOnHeaders(cc, body + h + rest) == [body] + SplitOnHeaders(cc, rest)
  {
    HeaderThenText(cc, h, rest);
    SplitAfterBracketFree(cc, body, h + rest, |h|);
    assert body + h + rest == body + (h + rest);
    assert (h + rest)[|h|..] == rest;
  }

  /**
   * With Python's classes, a header at the very end of a text adds one empty
   * piece to the split and changes nothing before it.
   */
  lemma SplitThenHeader(cc: CharClasses, s: string, h: string)
    requires Sound(cc) && IsHeader(cc, h)
    ensures SplitOnHeaders(cc, s + h) == SplitOnHeaders(cc, s) + [[]]
  {
    var m := HeaderMatcher(cc);
    HeaderThenText(cc, h, []);
    assert h + [] == h;
    forall j | 0 <= j < |s| ensures m((s + h)[j..]) == m(s[j..]) {
      MatchBeforeHeader(cc, s, h, j);
    }
    SplitThenMatch(m, s, h, |h|);
    assert h[|h|..] == [];
    NoMatchSplit(m, []);
  }

  /** The split of a text whose first header starts at `i`. */
  lemma SplitAtFirstHeader(cc: CharClasses, s: string, i: nat, n: nat)
    requires i <= |s|
    requires MatchHeader(cc, s[i..]) == Some(n)
    requires forall j :: 0 <= j < i ==> MatchHeader(cc, s[j..]).None?
    ensures SplitOnHeaders(cc, s) == [s[..i]] + SplitOnHeaders(cc, s[i + n..])
  {
    var m := HeaderMatcher(cc);
    SearchLeftmost(m, s, i);
    SplitStep(m, s, i, n);
  }
}
