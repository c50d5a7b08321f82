/**
 * The capture of `preg_match` in `FetchEvents::fetch`: the pattern looks, case
 * insensitively, for the JSON-escaped text `\u003c/style\u003e ` followed by a
 * capture that opens with `\u003cdiv`, runs greedily (but not across a line
 * feed) and closes with `\u003c/div\u003e`, immediately followed by `"`.
 *
 * The regular expression is written out as a search: the leftmost start that
 * has any feasible end, then the rightmost end for that start, which is what a
 * backtracking matcher with a greedy `.*` returns.
 */
module FragmentExtractor {
  import opened Wrappers

  /** The literal text before the capture (note the trailing space). */
  const StyleClose: string := "\\u003c/style\\u003e "
  /** The literal text the capture opens with. */
  const DivOpen: string := "\\u003cdiv"
  /** The literal text the capture closes with. */
  const DivClose: string := "\\u003c/div\\u003e"

  /** ASCII case folding, which is what the `i` modifier applies. */
  function Lower(c: char): char {
    if 'A' <= c <= 'Z' then (c as int + 32) as char else c
  }

  /** `p` occurs at position `i` of `s`, letters compared case-insensitively. */
  predicate MatchesAt(s: string, i: nat, p: string) {
    i + |p| <= |s| && forall j :: 0 <= j < |p| ==> Lower(s[i + j]) == Lower(p[j])
  }

  /** Where the capture starts for a match that starts at `s`. */
  function CaptureStart(s: nat): nat {
    s + |StyleClose|
  }

  /** A match may start at `s`: the closing style tag and the opening div. */
  predicate StartsAt(body: string, s: nat) {
    MatchesAt(body, s, StyleClose) && MatchesAt(body, CaptureStart(s), DivOpen)
  }

  /** A match started at `s` may end with the quote at `e`: the closing div sits
      just before `e`, and no line feed lies between the opening and the
      closing div (`.` does not match a line feed). */
  predicate EndsAt(body: string, s: nat, e: nat) {
    var inner := CaptureStart(s) + |DivOpen|;
    && inner + |DivClose| <= e < |body|
    && body[e] == '"'
    && MatchesAt(body, e - |DivClose|, DivClose)
    && forall k :: inner <= k < e - |DivClose| ==> body[k] != '\n'
  }

  /** `c` opens with `\u003cdiv` and closes with `\u003c/div\u003e`. */
  predicate Delimited(c: string) {
    MatchesAt(c, 0, DivOpen) && |DivClose| <= |c| && MatchesAt(c, |c| - |DivClose|, DivClose)
  }

  /** The pattern matches `body` from `s` to the quote at `e`. */
  predicate IsMatch(body: string, s: nat, e: nat) {
    StartsAt(body, s) && EndsAt(body, s, e)
  }

  /** The largest `e < hi` that ends a match started at `s`. */
  function LastEnd(body: string, s: nat, hi: nat): (r: Option<nat>)
    ensures r.Some? ==> r.value < hi && EndsAt(body, s, r.value)
    ensures forall e: nat :: (r.None? || r.value < e) && e < hi ==> !EndsAt(body, s, e)
    decreases hi
  {
    if hi == 0 then None
    else if EndsAt(body, s, hi - 1) then Some(hi - 1)
    else LastEnd(body, s, hi - 1)
  }

  /** The leftmost match that starts at or after `from`, with its rightmost end. */
  function FirstMatchFrom(body: string, from: nat): (r: Option<(nat, nat)>)
    ensures r.Some? ==> from <= r.value.0 && IsMatch(body, r.value.0, r.value.1)
    ensures r.Some? ==> forall e: nat :: r.value.1 < e ==> !IsMatch(body, r.value.0, e)
    ensures forall s: nat, e: nat :: from <= s && (r.None? || s < r.value.0) ==> !IsMatch(body, s, e)
    decreases |body| - from
  {
    if from >= |body| then None
    else
      var end := LastEnd(body, from, |body|);
      if StartsAt(body, from) && end.Some? then Some((from, end.value))
      else FirstMatchFrom(body, from + 1)
  }

  /** Where `preg_match` matches: the position of the leftmost match and the
      position of its closing quote. */
  function Locate(body: string): (r: Option<(nat, nat)>)
    ensures r.None? <==> forall s: nat, e: nat :: !IsMatch(body, s, e)
    ensures r.Some? ==> IsMatch(body, r.value.0, r.value.1)
    ensures r.Some? ==> forall s: nat, e: nat :: s < r.value.0 ==> !IsMatch(body, s, e)
    ensures r.Some? ==> forall e: nat :: r.value.1 < e ==> !IsMatch(body, r.value.0, e)
  {
    FirstMatchFrom(body, 0)
  }

  /** `$matches[1]`, or None when the pattern does not match. */
  function Extract(body: string): Option<string> {
    match Locate(body)
    case None => None
    case Some((s, e)) => Some(body[CaptureStart(s)..e])
  }

  // ---------------------------------------------------------------------------
  // Lemmas

  /** Where a successful capture sits: right after `\u003c/style\u003e ` and
      right before a `"` in the body, with no line feed in between. */
  lemma ExtractBounds(body: string)
    requires Extract(body).Some?
    ensures var c := Extract(body).value;
      var (s, e) := Locate(body).value;
      && CaptureStart(s) + |c| == e && body[CaptureStart(s)..e] == c
      && MatchesAt(body, s, StyleClose)
      && body[e] == '"'
      && (forall k :: CaptureStart(s) <= k < e ==> body[k] != '\n')
  {
    var (s, e) := Locate(body).value;
    CaptureHasNoLineFeed(body, s, e);
  }

  /** A successful capture opens with `\u003cdiv` and closes with
      `\u003c/div\u003e`. */
  lemma ExtractDelimiters(body: string)
    requires Extract(body).Some?
    ensures Delimited(Extract(body).value)
  {
    var (s, e) := Locate(body).value;
    CaptureOpensAndCloses(body, s, e, Extract(body).value);
  }

  lemma CaptureOpensAndCloses(body: string, s: nat, e: nat, c: string)
    requires Locate(body) == Some((s, e)) && c == body[CaptureStart(s)..e]
    ensures Delimited(c)
  {
    var cs := CaptureStart(s);
    forall j | 0 <= j < |DivOpen| ensures Lower(c[j]) == Lower(DivOpen[j]) {
      assert c[j] == body[cs + j];
    }
    forall j | 0 <= j < |DivClose| ensures Lower(c[|c| - |DivClose| + j]) == Lower(DivClose[j]) {
      assert c[|c| - |DivClose| + j] == body[e - |DivClose| + j];
    }
  }

  lemma CaptureHasNoLineFeed(body: string, s: nat, e: nat)
    requires IsMatch(body, s, e)
    ensures forall k :: CaptureStart(s) <= k < e ==> body[k] != '\n'
  {
    var cs := CaptureStart(s);
    forall k | cs <= k < e ensures body[k] != '\n' {
      if k < cs + |DivOpen| {
        LiteralHasNoLineFeed(body, cs, DivOpen, k - cs);
      } else if k >= e - |DivClose| {
        LiteralHasNoLineFeed(body, e - |DivClose|, DivClose, k - (e - |DivClose|));
      }
    }
  }

  /** A character matched against a letter, digit or punctuation of the
      pattern is not a line feed. */
  lemma LiteralHasNoLineFeed(body: string, i: nat, p: string, j: nat)
    requires MatchesAt(body, i, p) && j < |p|
    requires p == DivOpen || p == DivClose
    ensures body[i + j] != '\n'
  {
    assert Lower(body[i + j]) == Lower(p[j]);
    assert p[j] != '\n' && Lower(p[j]) != '\n';
  }

  /** No match means no capture. */
  lemma ExtractNone(body: string)
    ensures Extract(body).None? <==> forall s: nat, e: nat :: !IsMatch(body, s, e)
  {
  }

  /** The `.*` is greedy: when the JSON text carries two closing divs, each
      followed by `"`, the capture runs to the last one and so takes in the
      raw quote that ended the first. */
  lemma GreedyCapture(a: string, b: string)
    requires '\n' !in a && '\n' !in b
    ensures var capture := DivOpen + a + DivClose + "\"" + b + DivClose;
      Extract(StyleClose + capture + "\";") == Some(capture)
  {
    var capture := DivOpen + a + DivClose + "\"" + b + DivClose;
    var body := StyleClose + capture + "\";";
    var e := |body| - 2;
    WholeCaptureMatches(capture, body);
    assert body[e + 1] == ';';
    assert body[CaptureStart(0)..e] == capture;
  }

  /** A body made of the closing style tag, a capture that opens and closes
      with the div literals and has no line feed, and `";` matches from the
      start to its quote. */
  lemma WholeCaptureMatches(capture: string, body: string)
    requires |DivOpen| + |DivClose| <= |capture|
    requires capture[..|DivOpen|] == DivOpen
    requires capture[|capture| - |DivClose|..] == DivClose
    requires '\n' !in capture
    requires body == StyleClose + capture + "\";"
    ensures IsMatch(body, 0, |body| - 2)
  {
    var e := |body| - 2;
    var cs := CaptureStart(0);
    assert body[..|StyleClose|] == StyleClose;
    assert body[cs..e] == capture;
    assert body[cs..cs + |DivOpen|] == DivOpen;
    assert body[e - |DivClose|..e] == DivClose;
    SliceMatches(body, 0, StyleClose);
    SliceMatches(body, cs, DivOpen);
    SliceMatches(body, e - |DivClose|, DivClose);
    forall k | cs + |DivOpen| <= k < e - |DivClose| ensures body[k] != '\n' {
      assert body[k] == capture[k - cs];
    }
  }

  /** A slice equal to `p` matches `p`. */
  lemma SliceMatches(s: string, i: nat, p: string)
    requires i + |p| <= |s| && s[i..i + |p|] == p
    ensures MatchesAt(s, i, p)
  {
    forall j | 0 <= j < |p| ensures Lower(s[i + j]) == Lower(p[j]) {
      assert s[i + j] == s[i..i + |p|][j];
    }
  }
}
