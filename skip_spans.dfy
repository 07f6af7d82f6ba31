/**
 * Skip spans: parts of the text (web addresses, e-mail addresses, hashtags,
 * LaTeX commands and inline math) that both converters copy unchanged.
 *
 * The converters only ask one question of the matcher: does a span start at
 * the cursor, and how long is it? `SkipOracle` is the type of every answer to
 * that question that the converters can rely on. `FindSkipMatch` is the
 * engine's own matcher: the seven anchored patterns, tried in order, the first
 * one that matches deciding the length, each pattern read with the
 * leftmost-first (backtracking-preference) semantics of the regex engine.
 */
module SkipSpans {
  import opened Wrappers

  /** A matcher never reports an empty span, nor one running past the end of the text. */
  type SkipOracle = f: string -> Option<nat> | forall rest :: f(rest).Some? ==> 1 <= f(rest).value <= |rest|
    witness NoSpan

  /** The matcher that finds no span anywhere. */
  function NoSpan(rest: string): Option<nat> {
    None
  }

  // ---------------------------------------------------------------------------
  // Character classes of the patterns

  predicate IsAsciiLetter(c: char) {
    'a' <= c <= 'z' || 'A' <= c <= 'Z'
  }

  predicate IsAsciiAlnum(c: char) {
    IsAsciiLetter(c) || '0' <= c <= '9'
  }

  /**
   * `\w`. The regex engine uses the Unicode definition (letters, marks, decimal
   * digits, connector punctuation); this is that definition on ASCII, Latin-1,
   * Latin Extended-A/B, the combining diacritics and the Cyrillic blocks.
   */
  predicate IsWordChar(c: char) {
    || IsAsciiAlnum(c) || c == '_'
    || c == '\U{00AA}' || c == '\U{00B5}' || c == '\U{00BA}'
    || ('\U{00C0}' <= c <= '\U{024F}' && c != '\U{00D7}' && c != '\U{00F7}')
    || '\U{0300}' <= c <= '\U{036F}'
    || ('\U{0400}' <= c <= '\U{052F}' && c != '\U{0482}')
  }

  /** `[-a-zA-Z0-9@:%._\+~#=]` */
  predicate IsHostChar(c: char) {
    IsAsciiAlnum(c) || c in "-@:%._+~#="
  }

  /** `[a-zA-Z0-9()]` */
  predicate IsTldChar(c: char) {
    IsAsciiAlnum(c) || c == '(' || c == ')'
  }

  /** `[-a-zA-Z0-9()@:%_\+.~#?&//=]` */
  predicate IsPathChar(c: char) {
    IsAsciiAlnum(c) || c in "-()@:%_+.~#?&/="
  }

  /** `[a-zA-Z0-9._%+-]` */
  predicate IsLocalChar(c: char) {
    IsAsciiAlnum(c) || c in "._%+-"
  }

  /** `[a-zA-Z0-9.-]` */
  predicate IsDomainChar(c: char) {
    IsAsciiAlnum(c) || c == '.' || c == '-'
  }

  /** `[^$]` */
  predicate IsNotDollar(c: char) {
    c != '$'
  }

  // ---------------------------------------------------------------------------
  // Building blocks

  /** The length of the longest run of `p`-characters starting at `from`: what a greedy `*` takes. */
  function Run(s: string, from: nat, p: char -> bool): (n: nat)
    requires from <= |s|
    ensures from + n <= |s|
    ensures forall k :: from <= k < from + n ==> p(s[k])
    ensures from + n < |s| ==> !p(s[from + n])
    decreases |s| - from
  {
    if from < |s| && p(s[from]) then 1 + Run(s, from + 1, p) else 0
  }

  function Min(a: nat, b: nat): nat {
    if a <= b then a else b
  }

  predicate HasPrefix(s: string, p: string) {
    |p| <= |s| && s[..|p|] == p
  }

  /** `\b` at position `p`: exactly one of the characters around `p` is a word character. */
  predicate WordBoundary(s: string, p: nat)
    requires p <= |s|
  {
    (0 < p && IsWordChar(s[p - 1])) != (p < |s| && IsWordChar(s[p]))
  }

  // ---------------------------------------------------------------------------
  // The seven patterns; each answers the end of its match in `s`, if any

  /** `^(https?://)?` then the host, the dot, the top-level domain, `\b` and the path. */
  function MatchUrl(s: string): (r: Option<nat>)
    ensures r.Some? ==> 1 <= r.value <= |s|
  {
    var scheme := if HasPrefix(s, "https://") then 8 else if HasPrefix(s, "http://") then 7 else 0;
    var withScheme := if scheme > 0 then UrlAfterScheme(s, scheme) else None;
    if withScheme.Some? then withScheme else UrlAfterScheme(s, 0)
  }

  function UrlAfterScheme(s: string, start: nat): (r: Option<nat>)
    requires start <= |s|
    ensures r.Some? ==> start < r.value <= |s|
  {
    HostTry(s, start, Min(Run(s, start, IsHostChar), 256))
  }

  /**
   * The greedy host `{1,256}` backing off one character at a time: host lengths
   * `h`, `h - 1`, ..., `1`, each followed by `.` and a top-level domain.
   */
  function HostTry(s: string, start: nat, h: nat): (r: Option<nat>)
    requires start + h <= |s|
    ensures r.Some? ==> start < r.value <= |s|
    decreases h
  {
    if h == 0 then None
    else
      var dot := start + h;
      var tld := if dot < |s| && s[dot] == '.' then TldTry(s, dot + 1, Min(Run(s, dot + 1, IsTldChar), 6)) else None;
      if tld.Some? then tld else HostTry(s, start, h - 1)
  }

  /** The greedy top-level domain `{1,6}` backing off until `\b` holds after it; then the path. */
  function TldTry(s: string, from: nat, t: nat): (r: Option<nat>)
    requires from + t <= |s|
    ensures r.Some? ==> from < r.value <= |s|
    decreases t
  {
    if t == 0 then None
    else if WordBoundary(s, from + t) then Some(from + t + Run(s, from + t, IsPathChar))
    else TldTry(s, from, t - 1)
  }

  /** `^[a-zA-Z0-9._%+-]+@[a-zA-Z0-9.-]+\.[a-zA-Z]{2,}` */
  function MatchEmail(s: string): (r: Option<nat>)
    ensures r.Some? ==> 1 <= r.value <= |s|
  {
    var local := Run(s, 0, IsLocalChar);
    if local == 0 || local == |s| || s[local] != '@' then None
    else DomainTry(s, local + 1, Run(s, local + 1, IsDomainChar))
  }

  /** The greedy domain `+` backing off until it is followed by `.` and at least two letters. */
  function DomainTry(s: string, from: nat, d: nat): (r: Option<nat>)
    requires from + d <= |s|
    ensures r.Some? ==> from < r.value <= |s|
    decreases d
  {
    if d == 0 then None
    else
      var dot := from + d;
      if dot < |s| && s[dot] == '.' && Run(s, dot + 1, IsAsciiLetter) >= 2 then Some(dot + 1 + Run(s, dot + 1, IsAsciiLetter))
      else DomainTry(s, from, d - 1)
  }

  /** `^#\w+` */
  function MatchHashtag(s: string): (r: Option<nat>)
    ensures r.Some? ==> 1 <= r.value <= |s|
  {
    if |s| > 0 && s[0] == '#' && Run(s, 1, IsWordChar) > 0 then Some(1 + Run(s, 1, IsWordChar)) else None
  }

  /** `^\\begin\{\w+\}` when `keyword` is "begin", `^\\end\{\w+\}` when it is "end". */
  function MatchEnvironment(s: string, keyword: string): (r: Option<nat>)
    ensures r.Some? ==> 1 <= r.value <= |s|
  {
    var open := "\\" + keyword + "{";
    if HasPrefix(s, open) then
      var name := Run(s, |open|, IsWordChar);
      if name > 0 && |open| + name < |s| && s[|open| + name] == '}' then Some(|open| + name + 1) else None
    else None
  }

  /** `^\\\w+` */
  function MatchCommand(s: string): (r: Option<nat>)
    ensures r.Some? ==> 1 <= r.value <= |s|
  {
    if |s| > 0 && s[0] == '\\' && Run(s, 1, IsWordChar) > 0 then Some(1 + Run(s, 1, IsWordChar)) else None
  }

  /** `^\$[^$]*\$` */
  function MatchMath(s: string): (r: Option<nat>)
    ensures r.Some? ==> 1 <= r.value <= |s|
  {
    if |s| > 0 && s[0] == '$' && 1 + Run(s, 1, IsNotDollar) < |s| then Some(2 + Run(s, 1, IsNotDollar)) else None
  }

  /** `find_skip_match`: the length of the first pattern, in the engine's order, that matches at the start. */
  function FindSkipMatch(rest: string): (r: Option<nat>)
    ensures r.Some? ==> 1 <= r.value <= |rest|
  {
    var url := MatchUrl(rest);
    if url.Some? then url else
    var email := MatchEmail(rest);
    if email.Some? then email else
    var hashtag := MatchHashtag(rest);
    if hashtag.Some? then hashtag else
    var begin := MatchEnvironment(rest, "begin");
    if begin.Some? then begin else
    var end := MatchEnvironment(rest, "end");
    if end.Some? then end else
    var command := MatchCommand(rest);
    if command.Some? then command else
    MatchMath(rest)
  }

  /** The engine's matcher is one the converters can rely on. */
  const EngineMatcher: SkipOracle := FindSkipMatch

  // ---------------------------------------------------------------------------
  // Texts in which no span starts

  /** No span starts at any position from `i` up to (not including) `j`. */
  predicate NoSpanIn(s: string, skip: SkipOracle, i: nat, j: nat)
    requires j <= |s|
    decreases j - i
  {
    i >= j || (skip(s[i..]).None? && NoSpanIn(s, skip, i + 1, j))
  }

  /** A stretch without spans has none in any stretch inside it. */
  lemma {:induction false} NoSpanInWithin(s: string, skip: SkipOracle, i: nat, j: nat, k: nat, l: nat)
    requires i <= k && l <= j <= |s| && NoSpanIn(s, skip, i, j)
    ensures NoSpanIn(s, skip, k, l)
    decreases k - i
  {
    if i < k && i < j {
      NoSpanInWithin(s, skip, i + 1, j, k, l);
    } else if i == k {
      NoSpanInShorter(s, skip, k, j, l);
    }
  }

  lemma {:induction false} NoSpanInShorter(s: string, skip: SkipOracle, i: nat, j: nat, l: nat)
    requires l <= j <= |s| && NoSpanIn(s, skip, i, j)
    ensures NoSpanIn(s, skip, i, l)
    decreases l - i
  {
    if i < l {
      NoSpanInShorter(s, skip, i + 1, j, l);
    }
  }

  lemma {:induction false} NoSpanInNoSpan(s: string, i: nat, j: nat)
    requires j <= |s|
    ensures NoSpanIn(s, NoSpan, i, j)
    decreases j - i
  {
    if i < j {
      NoSpanInNoSpan(s, i + 1, j);
    }
  }

  /** The characters every pattern needs: the host's dot, the `@`, and the leading `#`, `\` or `$`. */
  predicate IsMarker(c: char) {
    c == '.' || c == '@' || c == '#' || c == '\\' || c == '$'
  }

  /** Without a dot after `start`, the host never finds its top-level domain. */
  lemma {:induction false} HostTryWithoutDot(s: string, start: nat, h: nat)
    requires start + h <= |s|
    requires forall k :: start < k < |s| ==> s[k] != '.'
    ensures HostTry(s, start, h).None?
    decreases h
  {
    if h > 0 {
      HostTryWithoutDot(s, start, h - 1);
    }
  }

  /** A web address needs a dot after its first character. */
  lemma UrlWithoutDot(rest: string)
    requires forall k :: 0 < k < |rest| ==> rest[k] != '.'
    ensures MatchUrl(rest).None?
  {
    HostTryWithoutDot(rest, 0, Min(Run(rest, 0, IsHostChar), 256));
    if HasPrefix(rest, "https://") {
      HostTryWithoutDot(rest, 8, Min(Run(rest, 8, IsHostChar), 256));
    } else if HasPrefix(rest, "http://") {
      HostTryWithoutDot(rest, 7, Min(Run(rest, 7, IsHostChar), 256));
    }
  }

  /** A LaTeX environment starts with a backslash. */
  lemma EnvironmentNeedsBackslash(rest: string, keyword: string)
    requires |rest| > 0 ==> rest[0] != '\\'
    ensures MatchEnvironment(rest, keyword).None?
  {
  }

  /** The engine finds no span in a text without marker characters. */
  lemma EngineWithoutMarkers(rest: string)
    requires forall k :: 0 <= k < |rest| ==> !IsMarker(rest[k])
    ensures FindSkipMatch(rest).None?
  {
    UrlWithoutDot(rest);
    EnvironmentNeedsBackslash(rest, "begin");
    EnvironmentNeedsBackslash(rest, "end");
  }

  /** No span starts anywhere in a text without marker characters. */
  lemma {:induction false} EngineNoSpanIn(s: string, i: nat, j: nat)
    requires j <= |s|
    requires forall k :: 0 <= k < |s| ==> !IsMarker(s[k])
    ensures NoSpanIn(s, EngineMatcher, i, j)
    decreases j - i
  {
    if i < j {
      EngineNoSpanAt(s, i);
      EngineNoSpanIn(s, i + 1, j);
    }
  }

  lemma EngineNoSpanAt(s: string, i: nat)
    requires i < |s|
    requires forall k :: 0 <= k < |s| ==> !IsMarker(s[k])
    ensures EngineMatcher(s[i..]).None?
  {
    SuffixWithoutMarkers(s, i);
    EngineWithoutMarkers(s[i..]);
  }

  lemma SuffixWithoutMarkers(s: string, i: nat)
    requires i <= |s|
    requires forall k :: 0 <= k < |s| ==> !IsMarker(s[k])
    ensures forall k :: 0 <= k < |s[i..]| ==> !IsMarker(s[i..][k])
  {
    forall k | 0 <= k < |s[i..]|
      ensures !IsMarker(s[i..][k])
    {
      assert s[i..][k] == s[i + k];
    }
  }

  /**
   * `for _ in 0..count { chars.next(); }`: the iterator, standing before
   * position `i`, moved past `count` more characters.
   */
  method Advance(i: nat, count: nat) returns (j: nat)
    ensures j == i + count
  {
    j := i;
    for k := 0 to count
      invariant j == i + k
    {
      j := j + 1;
    }
  }
}
