/**
 * The spans the unit tests rely on. Each example takes any text that starts
 * with a span of a test sentence and the character after it there, and shows
 * that the matcher finds exactly that span.
 */
module SkipExamples {
  import opened Wrappers
  import opened SkipSpans

  // ---------------------------------------------------------------------------
  // Helpers

  /** A run is as long as the stretch of `p`-characters that ends where `p` fails or the text ends. */
  lemma RunIs(s: string, from: nat, p: char -> bool, n: nat)
    requires from + n <= |s|
    requires forall k :: from <= k < from + n ==> p(s[k])
    requires from + n < |s| ==> !p(s[from + n])
    ensures Run(s, from, p) == n
  {
  }

  /** The run over a known piece of the text, which a character outside `p` ends. */
  lemma RunOver(s: string, from: nat, piece: string, p: char -> bool)
    requires from + |piece| < |s| && s[from..from + |piece|] == piece
    requires forall c :: c in piece ==> p(c)
    requires !p(s[from + |piece|])
    ensures Run(s, from, p) == |piece|
  {
    forall k | from <= k < from + |piece|
      ensures p(s[k])
    {
      assert s[k] == piece[k - from];
    }
    RunIs(s, from, p, |piece|);
  }

  /** The host backs off from length `h` to `h2` over positions that hold no dot. */
  lemma {:induction false} HostTryBack(s: string, start: nat, h: nat, h2: nat)
    requires h2 <= h && start + h < |s|
    requires '.' !in s[start + h2 + 1..start + h + 1]
    ensures HostTry(s, start, h) == HostTry(s, start, h2)
    decreases h
  {
    if h2 < h {
      assert s[start + h] == s[start + h2 + 1..start + h + 1][h - h2 - 1];
      assert s[start + h2 + 1..start + h] == s[start + h2 + 1..start + h + 1][..h - h2 - 1];
      HostTryBack(s, start, h - 1, h2);
    }
  }

  /** A web address starts with a host character. */
  lemma UrlNeedsHostStart(rest: string)
    requires |rest| > 0 && !IsHostChar(rest[0])
    ensures MatchUrl(rest).None?
  {
    NoScheme(rest);
  }

  /** A text that does not start with `h` has no scheme. */
  lemma NoScheme(rest: string)
    requires |rest| > 0 && rest[0] != 'h'
    ensures !HasPrefix(rest, "https://") && !HasPrefix(rest, "http://")
  {
    if |rest| >= 7 {
      assert rest[..7][0] == rest[0];
    }
  }

  /** An e-mail address starts with a character of its local part. */
  lemma EmailNeedsLocalStart(rest: string)
    requires |rest| > 0 && !IsLocalChar(rest[0])
    ensures MatchEmail(rest).None?
  {
  }

  /** A LaTeX environment names its keyword right after the backslash. */
  lemma EnvironmentNeedsKeyword(rest: string, keyword: string)
    requires |rest| > 1 && |keyword| > 0 && rest[1] != keyword[0]
    ensures MatchEnvironment(rest, keyword).None?
  {
    var open := "\\" + keyword + "{";
    if |open| <= |rest| {
      assert rest[..|open|][1] == rest[1] && open[1] == keyword[0];
    }
  }

  /** No command, environment or hashtag starts with a character other than a backslash or `#`. */
  lemma MarkedPatterns(rest: string)
    requires |rest| > 0 && rest[0] != '\\' && rest[0] != '#'
    ensures MatchHashtag(rest).None? && MatchCommand(rest).None?
    ensures MatchEnvironment(rest, "begin").None? && MatchEnvironment(rest, "end").None?
  {
    EnvironmentNeedsBackslash(rest, "begin");
    EnvironmentNeedsBackslash(rest, "end");
  }

  /** The matcher answers the first pattern, in its order, that matches. */
  lemma FirstMatchUrl(rest: string)
    requires MatchUrl(rest).Some?
    ensures FindSkipMatch(rest) == MatchUrl(rest)
  {
  }

  lemma FirstMatchHashtag(rest: string)
    requires MatchUrl(rest).None? && MatchEmail(rest).None? && MatchHashtag(rest).Some?
    ensures FindSkipMatch(rest) == MatchHashtag(rest)
  {
  }

  lemma FirstMatchEnvironment(rest: string)
    requires MatchUrl(rest).None? && MatchEmail(rest).None? && MatchHashtag(rest).None?
    requires MatchEnvironment(rest, "begin").Some?
    ensures FindSkipMatch(rest) == MatchEnvironment(rest, "begin")
  {
  }

  lemma FirstMatchCommand(rest: string)
    requires MatchUrl(rest).None? && MatchEmail(rest).None? && MatchHashtag(rest).None?
    requires MatchEnvironment(rest, "begin").None? && MatchEnvironment(rest, "end").None?
    ensures FindSkipMatch(rest) == (if MatchCommand(rest).Some? then MatchCommand(rest) else MatchMath(rest))
  {
  }

  // ---------------------------------------------------------------------------
  // The spans of the tests

  /** `https://igordejanovic.net/` is skipped as a web address, its path included. */
  lemma UrlSpan(rest: string)
    requires |rest| > 26 && rest[..27] == "https://igordejanovic.net/ "
    ensures FindSkipMatch(rest) == Some(26)
  {
    assert rest[..8] == "https://" && rest[8..26] == "igordejanovic.net/" && rest[26] == ' ' by {
      assert rest[..8] == rest[..27][..8] && rest[8..26] == rest[..27][8..26] && rest[26] == rest[..27][26];
    }
    UrlHost(rest);
    FirstMatchUrl(rest);
  }

  /** After the scheme, the host backs off from `igordejanovic.net` to `igordejanovic`, before `.net`. */
  lemma UrlHost(rest: string)
    requires |rest| > 26 && rest[8..26] == "igordejanovic.net/" && rest[26] == ' '
    ensures UrlAfterScheme(rest, 8) == Some(26)
  {
    assert rest[21..26] == ".net/" && rest[22..26] == "net/" by {
      assert rest[21..26] == rest[8..26][13..] && rest[22..26] == rest[8..26][14..];
    }
    UrlHostRun(rest);
    assert rest[21] == '.' && '.' !in rest[22..26] by {
      assert rest[21] == rest[21..26][0];
    }
    HostTryBack(rest, 8, 17, 13);
    UrlTld(rest);
  }

  lemma UrlHostRun(rest: string)
    requires |rest| > 26 && rest[8..26] == "igordejanovic.net/"
    ensures Run(rest, 8, IsHostChar) == 17
  {
    assert rest[8..25] == "igordejanovic.net" && rest[25] == '/' by {
      assert rest[8..25] == rest[8..26][..17] && rest[25] == rest[8..26][17];
    }
    RunOver(rest, 8, "igordejanovic.net", IsHostChar);
  }

  /** `net` is the top-level domain, a word boundary follows it, and the path is `/`. */
  lemma UrlTld(rest: string)
    requires |rest| > 26 && rest[22..26] == "net/" && rest[26] == ' '
    ensures TldTry(rest, 22, Min(Run(rest, 22, IsTldChar), 6)) == Some(26)
  {
    assert rest[22..25] == "net" && rest[24] == 't' && rest[25] == '/' by {
      assert rest[22..25] == rest[22..26][..3] && rest[24] == rest[22..26][2] && rest[25] == rest[22..26][3];
    }
    RunOver(rest, 22, "net", IsTldChar);
    RunIs(rest, 25, IsPathChar, 1);
  }

  /**
   * `neko@negde.net` is skipped: the web-address pattern, tried before the
   * e-mail pattern, already matches it, with the same span.
   */
  lemma EmailSpan(rest: string)
    requires |rest| > 14 && rest[..15] == "neko@negde.net "
    ensures FindSkipMatch(rest) == Some(14)
  {
    assert rest[..14] == "neko@negde.net" && rest[10..14] == ".net" && rest[14] == ' ' by {
      assert rest[..14] == rest[..15][..14] && rest[10..14] == rest[..15][10..14] && rest[14] == rest[..15][14];
    }
    EmailHost(rest);
    FirstMatchUrl(rest);
  }

  /** Without a scheme, the host backs off from `neko@negde.net` to `neko@negde`, before `.net`. */
  lemma EmailHost(rest: string)
    requires |rest| > 14 && rest[..14] == "neko@negde.net" && rest[10..14] == ".net" && rest[14] == ' '
    ensures MatchUrl(rest) == Some(14)
  {
    assert rest[0] == 'n' by {
      assert rest[0] == rest[..14][0];
    }
    NoScheme(rest);
    EmailHostRun(rest);
    assert rest[10] == '.' && rest[11..15] == "net " by {
      assert rest[10] == rest[10..14][0] && rest[11..14] == rest[10..14][1..];
    }
    HostTryBack(rest, 0, 14, 10);
    EmailTld(rest);
  }

  lemma EmailHostRun(rest: string)
    requires |rest| > 14 && rest[..14] == "neko@negde.net" && rest[14] == ' '
    ensures Run(rest, 0, IsHostChar) == 14
  {
    RunOver(rest, 0, "neko@negde.net", IsHostChar);
  }

  /** `net` is the top-level domain, a word boundary follows it, and no path. */
  lemma EmailTld(rest: string)
    requires |rest| > 14 && rest[11..15] == "net "
    ensures TldTry(rest, 11, Min(Run(rest, 11, IsTldChar), 6)) == Some(14)
  {
    assert rest[11..14] == "net" && rest[13] == 't' && rest[14] == ' ' by {
      assert rest[11..14] == rest[11..15][..3] && rest[13] == rest[11..15][2] && rest[14] == rest[11..15][3];
    }
    RunOver(rest, 11, "net", IsTldChar);
    RunIs(rest, 14, IsPathChar, 0);
  }

  /** `#supercool` is skipped as a hashtag; the space ends it. */
  lemma HashtagSpan(rest: string)
    requires |rest| > 10 && rest[..11] == "#supercool "
    ensures FindSkipMatch(rest) == Some(10)
  {
    assert rest[..10] == "#supercool" && rest[1..11] == "supercool " by {
      assert rest[..10] == rest[..11][..10] && rest[1..11] == rest[..11][1..];
    }
    HashtagNotUrl(rest);
    HashtagMatch(rest);
    FirstMatchHashtag(rest);
  }

  /** `#` is a host character, but the host finds no dot before the space. */
  lemma HashtagNotUrl(rest: string)
    requires |rest| > 10 && rest[..10] == "#supercool" && rest[1..11] == "supercool "
    ensures MatchUrl(rest).None?
  {
    assert rest[0] == '#' by {
      assert rest[0] == rest[..10][0];
    }
    NoScheme(rest);
    HashtagHost(rest);
    assert '.' !in rest[1..11];
    HostTryBack(rest, 0, 10, 0);
  }

  lemma HashtagHost(rest: string)
    requires |rest| > 10 && rest[..10] == "#supercool" && rest[1..11] == "supercool "
    ensures Run(rest, 0, IsHostChar) == 10
  {
    assert rest[10] == ' ' by {
      assert rest[10] == rest[1..11][9];
    }
    RunOver(rest, 0, "#supercool", IsHostChar);
  }

  lemma HashtagMatch(rest: string)
    requires |rest| > 10 && rest[..10] == "#supercool" && rest[1..11] == "supercool "
    ensures MatchEmail(rest).None? && MatchHashtag(rest) == Some(10)
  {
    assert rest[0] == '#' && rest[10] == ' ' && rest[1..10] == "supercool" by {
      assert rest[0] == rest[..10][0] && rest[10] == rest[1..11][9] && rest[1..10] == rest[1..11][..9];
    }
    EmailNeedsLocalStart(rest);
    RunOver(rest, 1, "supercool", IsWordChar);
  }

  /** `\begin{itemize}` is skipped as the start of an environment. */
  lemma EnvironmentSpan(rest: string)
    requires |rest| >= 15 && rest[..15] == "\\begin{itemize}"
    ensures FindSkipMatch(rest) == Some(15)
  {
    assert rest[0] == '\\' by {
      assert rest[0] == rest[..15][0];
    }
    UrlNeedsHostStart(rest);
    EmailNeedsLocalStart(rest);
    EnvironmentMatch(rest);
    FirstMatchEnvironment(rest);
  }

  lemma EnvironmentMatch(rest: string)
    requires |rest| >= 15 && rest[..15] == "\\begin{itemize}"
    ensures MatchEnvironment(rest, "begin") == Some(15)
  {
    assert rest[14] == '}' by {
      assert rest[14] == rest[..15][14];
    }
    assert rest[..7] == "\\begin{" && rest[7..14] == "itemize" by {
      assert rest[..7] == rest[..15][..7] && rest[7..14] == rest[..15][7..14];
    }
    RunOver(rest, 7, "itemize", IsWordChar);
  }

  /** `\ljuljaška` is skipped whole: the command is counted in characters, and š is a word character. */
  lemma CommandSpan(rest: string)
    requires |rest| > 10 && rest[..11] == "\\ljuljaška "
    ensures FindSkipMatch(rest) == Some(10)
  {
    assert rest[0] == '\\' && rest[1] == 'l' by {
      assert rest[0] == rest[..11][0] && rest[1] == rest[..11][1];
    }
    UrlNeedsHostStart(rest);
    EmailNeedsLocalStart(rest);
    EnvironmentNeedsKeyword(rest, "begin");
    EnvironmentNeedsKeyword(rest, "end");
    CommandMatch(rest);
    FirstMatchCommand(rest);
  }

  lemma CommandMatch(rest: string)
    requires |rest| > 10 && rest[..11] == "\\ljuljaška "
    ensures MatchCommand(rest) == Some(10)
  {
    assert rest[0] == '\\' && rest[10] == ' ' by {
      assert rest[0] == rest[..11][0] && rest[10] == rest[..11][10];
    }
    assert rest[1..10] == "ljuljaška" by {
      assert rest[1..10] == rest[..11][1..10];
    }
    RunOver(rest, 1, "ljuljaška", IsWordChar);
  }

  /** `$E=mc^2$` is skipped as inline math. */
  lemma MathSpan(rest: string)
    requires |rest| >= 8 && rest[..8] == "$E=mc^2$"
    ensures FindSkipMatch(rest) == Some(8)
  {
    assert rest[0] == '$' by {
      assert rest[0] == rest[..8][0];
    }
    UrlNeedsHostStart(rest);
    EmailNeedsLocalStart(rest);
    MarkedPatterns(rest);
    MathMatch(rest);
    FirstMatchCommand(rest);
  }

  lemma MathMatch(rest: string)
    requires |rest| >= 8 && rest[..8] == "$E=mc^2$"
    ensures MatchMath(rest) == Some(8)
  {
    assert rest[0] == '$' && rest[7] == '$' by {
      assert rest[0] == rest[..8][0] && rest[7] == rest[..8][7];
    }
    assert rest[1..7] == "E=mc^2" by {
      assert rest[1..7] == rest[..8][1..7];
    }
    RunOver(rest, 1, "E=mc^2", IsNotDollar);
  }
}
