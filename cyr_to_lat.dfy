/**
 * Cyrillic to Latin (`cyr_to_lat`).
 *
 * The text is scanned one character at a time. A skip span starting at the
 * cursor is copied as it is; otherwise the character is replaced by the Latin
 * form of its lower-case letter, re-cased, or copied when it is not a letter of
 * the Cyrillic alphabet. The Latin digraphs take the case of their second
 * letter from the character after the source letter.
 */
module CyrillicToLatin {
  import opened Wrappers
  import opened CaseFold
  import opened Tables
  import opened SkipSpans
  import opened SeqFacts

  /** The character after position `i`, which the scan may peek at. */
  function Peek(s: string, i: nat): Option<char> {
    if i + 1 < |s| then Some(s[i + 1]) else None
  }

  /**
   * The Latin text for the source character `c` when `next` follows it: one
   * character, or two for the digraph letters љ, њ and џ in either case. A
   * character that is not a Cyrillic letter is copied unchanged.
   */
  function LatinOf(c: char, next: Option<char>): (r: string)
    ensures 1 <= |r| <= 2
    ensures |r| == 2 <==> ToLower(c) in "љњџ"
    ensures CyrToLatChar(ToLower(c)).None? ==> r == [c]
  {
    LatinFormShape();
    match CyrToLatChar(ToLower(c))
    case None => [c]
    case Some(lat) =>
      var first := if IsUpper(c) then ToUpper(lat[0]) else lat[0];
      if |lat| > 1 then
        [first, if next.Some? && IsUpper(next.value) then ToUpper(lat[1]) else lat[1]]
      else
        [first]
  }

  /**
   * The case rule for a letter: its Latin form, lower-cased, is the table's
   * entry; the first Latin character is upper-case exactly when the letter is;
   * a digraph's second character is upper-case exactly when a next character
   * exists and is upper-case (so it is lower-case at the end of the text).
   */
  lemma LatinCaseRule(c: char, next: Option<char>)
    requires CyrToLatChar(ToLower(c)).Some?
    ensures |LatinOf(c, next)| == |CyrToLatChar(ToLower(c)).value|
    ensures forall j :: 0 <= j < |LatinOf(c, next)| ==> ToLower(LatinOf(c, next)[j]) == CyrToLatChar(ToLower(c)).value[j]
    ensures IsUpper(LatinOf(c, next)[0]) <==> IsUpper(c)
    ensures |LatinOf(c, next)| == 2 ==> (IsUpper(LatinOf(c, next)[1]) <==> next.Some? && IsUpper(next.value))
  {
    LatinFormShape();
    var lat := CyrToLatChar(ToLower(c)).value;
    CaseRoundTrip(lat[0]);
    if |lat| == 2 {
      CaseRoundTrip(lat[1]);
    }
  }

  /** The table's Latin forms have one or two characters. */
  lemma LatinFormLength(c: char)
    requires CyrToLatChar(c).Some?
    ensures 1 <= |CyrToLatChar(c).value| <= 2
  {
    LatinFormShape();
  }

  /**
   * The Latin form of every position of `s` from `k` on, each position read
   * with the character after it: `LatinLetters(s)[j]` is what the scan
   * produces for `s[j]` when no skip span starts there.
   */
  function LatinLetters(s: string): (r: seq<string>)
    ensures |r| == |s|
  {
    seq(|s|, j requires 0 <= j < |s| => LatinOf(s[j], Peek(s, j)))
  }

  /**
   * The Latin text for `s[i..]`, when the scan reaches position `i`: a skip
   * span starting at `i` is copied as it is, otherwise position `i` yields its
   * Latin form `letters[i]`.
   */
  function CyrToLatFrom(s: string, i: nat, skip: SkipOracle, letters: seq<string>): string
    requires i <= |s| == |letters|
    decreases |s| - i
  {
    if i == |s| then []
    else match skip(s[i..])
      case Some(n) => s[i..i + n] + CyrToLatFrom(s, i + n, skip, letters)
      case None => letters[i] + CyrToLatFrom(s, i + 1, skip, letters)
  }

  /** `cyr_to_lat` on the whole text. */
  function ToLatin(s: string, skip: SkipOracle): string {
    CyrToLatFrom(s, 0, skip, LatinLetters(s))
  }

  /** The Latin text has between one and two characters per source character. */
  lemma ToLatinLength(s: string, skip: SkipOracle)
    ensures |s| <= |ToLatin(s, skip)| <= 2 * |s|
  {
    FromLength(s, 0, skip, LatinLetters(s));
  }

  lemma {:induction false} FromLength(s: string, i: nat, skip: SkipOracle, letters: seq<string>)
    requires i <= |s| == |letters|
    requires forall k :: 0 <= k < |letters| ==> 1 <= |letters[k]| <= 2
    ensures |s| - i <= |CyrToLatFrom(s, i, skip, letters)| <= 2 * (|s| - i)
    decreases |s| - i
  {
    if i < |s| {
      match skip(s[i..])
      case Some(n) => FromLength(s, i + n, skip, letters);
      case None => FromLength(s, i + 1, skip, letters);
    }
  }

  /** Where the matcher finds no span, the Latin text does not depend on the matcher. */
  lemma ToLatinWithoutSpans(s: string, skip: SkipOracle)
    requires NoSpanIn(s, skip, 0, |s|)
    ensures ToLatin(s, skip) == ToLatin(s, NoSpan)
  {
    FromWithoutSpans(s, 0, skip, LatinLetters(s));
  }

  lemma {:induction false} FromWithoutSpans(s: string, i: nat, skip: SkipOracle, letters: seq<string>)
    requires i <= |s| == |letters| && NoSpanIn(s, skip, i, |s|)
    ensures CyrToLatFrom(s, i, skip, letters) == CyrToLatFrom(s, i, NoSpan, letters)
    decreases |s| - i
  {
    if i < |s| {
      FromWithoutSpans(s, i + 1, skip, letters);
    }
  }

  /** A text without Cyrillic letters comes out unchanged, whatever the skip spans. */
  lemma ToLatinIdentity(s: string, skip: SkipOracle)
    requires forall k :: 0 <= k < |s| ==> CyrToLatChar(ToLower(s[k])).None?
    ensures ToLatin(s, skip) == s
  {
    LettersAreSingles(s, 0);
    FromIdentity(s, 0, skip, LatinLetters(s));
  }

  /** Every position of `letters` from `i` on holds the character of `s` there. */
  predicate Singles(s: string, letters: seq<string>, i: nat)
    requires i <= |s| == |letters|
    decreases |s| - i
  {
    i == |s| || (letters[i] == s[i..i + 1] && Singles(s, letters, i + 1))
  }

  lemma {:induction false} SinglesDrop(s: string, letters: seq<string>, i: nat, j: nat)
    requires i <= j <= |s| == |letters| && Singles(s, letters, i)
    ensures Singles(s, letters, j)
    decreases j - i
  {
    if i < j {
      SinglesDrop(s, letters, i + 1, j);
    }
  }

  lemma {:induction false} LettersAreSingles(s: string, i: nat)
    requires i <= |s|
    requires forall k :: i <= k < |s| ==> CyrToLatChar(ToLower(s[k])).None?
    ensures Singles(s, LatinLetters(s), i)
    decreases |s| - i
  {
    if i < |s| {
      LettersAreSingles(s, i + 1);
      assert LatinLetters(s)[i] == [s[i]] == s[i..i + 1];
    }
  }

  lemma {:induction false} FromIdentity(s: string, i: nat, skip: SkipOracle, letters: seq<string>)
    requires i <= |s| == |letters| && Singles(s, letters, i)
    ensures CyrToLatFrom(s, i, skip, letters) == s[i..]
    decreases |s| - i
  {
    if i < |s| {
      var n := if skip(s[i..]).Some? then skip(s[i..]).value else 1;
      SinglesDrop(s, letters, i, i + n);
      FromIdentity(s, i + n, skip, letters);
      SplitAt(s, i, i + n);
    }
  }

  /**
   * The scan as the loop performs it: `done` is the text produced so far, and
   * each step appends to it and moves the cursor.
   */
  function CyrToLatScan(s: string, i: nat, skip: SkipOracle, letters: seq<string>, done: string): string
    requires i <= |s| == |letters|
    decreases |s| - i
  {
    if i == |s| then done
    else match skip(s[i..])
      case Some(n) => CyrToLatScan(s, i + n, skip, letters, done + s[i..i + n])
      case None => CyrToLatScan(s, i + 1, skip, letters, done + letters[i])
  }

  /** The loop's scan produces `done` followed by the Latin text of the rest. */
  lemma {:induction false} ScanIsFrom(s: string, i: nat, skip: SkipOracle, letters: seq<string>, done: string)
    requires i <= |s| == |letters|
    ensures CyrToLatScan(s, i, skip, letters, done) == done + CyrToLatFrom(s, i, skip, letters)
    decreases |s| - i
  {
    if i < |s| {
      match skip(s[i..])
      case Some(n) =>
        ScanIsFrom(s, i + n, skip, letters, done + s[i..i + n]);
        AppendAssoc(done, s[i..i + n], CyrToLatFrom(s, i + n, skip, letters));
      case None =>
        ScanIsFrom(s, i + 1, skip, letters, done + letters[i]);
        AppendAssoc(done, letters[i], CyrToLatFrom(s, i + 1, skip, letters));
    }
  }

  lemma ScanSpanStep(s: string, i: nat, skip: SkipOracle, letters: seq<string>, done: string, n: nat)
    requires i < |s| == |letters| && skip(s[i..]) == Some(n)
    ensures i + n <= |s|
    ensures CyrToLatScan(s, i, skip, letters, done) == CyrToLatScan(s, i + n, skip, letters, done + s[i..i + n])
  {
  }

  lemma ScanLetterStep(s: string, i: nat, skip: SkipOracle, letters: seq<string>, done: string)
    requires i < |s| == |letters| && skip(s[i..]).None?
    ensures CyrToLatScan(s, i, skip, letters, done) == CyrToLatScan(s, i + 1, skip, letters, done + letters[i])
  {
  }

  /**
   * `cyr_to_lat`: the loop over the text with the peekable iterator modelled by
   * the index `i` of the next character it yields.
   */
  method CyrToLat(input: string, skip: SkipOracle) returns (output: string)
    ensures output == ToLatin(input, skip)
  {
    output := [];
    var i := 0;
    ghost var letters := LatinLetters(input);
    while i < |input|
      invariant i <= |input|
      invariant CyrToLatScan(input, i, skip, letters, output) == CyrToLatScan(input, 0, skip, letters, [])
      decreases |input| - i
    {
      i, output := CyrToLatStep(input, skip, letters, i, output);
    }
    ScanIsFrom(input, 0, skip, letters, []);
    assert [] + ToLatin(input, skip) == ToLatin(input, skip);
  }

  /**
   * One turn of the `cyr_to_lat` loop: the iterator yields the character at
   * `pos`; a skip span starting there is copied and the iterator advanced past
   * it, otherwise the character is converted.
   */
  method CyrToLatStep(input: string, skip: SkipOracle, ghost letters: seq<string>, pos: nat, output: string) returns (i: nat, r: string)
    requires pos < |input| == |letters| && letters[pos] == LatinOf(input[pos], Peek(input, pos))
    ensures pos < i <= |input|
    ensures skip(input[pos..]).Some? ==> i == pos + skip(input[pos..]).value && r == output + input[pos..i]
    ensures skip(input[pos..]).None? ==> i == pos + 1 && r == output + letters[pos]
    ensures CyrToLatScan(input, i, skip, letters, r) == CyrToLatScan(input, pos, skip, letters, output)
  {
    var span := skip(input[pos..]);
    if span.Some? {
      i, r := CopySpan(input, skip, letters, pos, span.value, output);
      return;
    }
    r := PushLatin(output, input[pos], Peek(input, pos));
    i := pos + 1;
    ScanLetterStep(input, pos, skip, letters, output);
  }

  /**
   * The skip-span branch of the `cyr_to_lat` loop: the span's text is appended
   * and the iterator, which has already yielded the span's first character, is
   * advanced over the remaining ones.
   */
  method CopySpan(input: string, skip: SkipOracle, ghost letters: seq<string>, pos: nat, n: nat, output: string) returns (i: nat, r: string)
    requires pos < |input| == |letters| && skip(input[pos..]) == Some(n)
    ensures i == pos + n && r == output + input[pos..pos + n]
    ensures CyrToLatScan(input, i, skip, letters, r) == CyrToLatScan(input, pos, skip, letters, output)
  {
    var skipped := input[pos..pos + n];
    r := output + skipped;
    i := Advance(pos + 1, |skipped| - 1);
    ScanSpanStep(input, pos, skip, letters, output, n);
  }

  /**
   * The body of the `cyr_to_lat` loop for a character outside skip spans:
   * appends the Latin form of `c`, where `next` is what the iterator's `peek`
   * shows. The early `return` is the loop's `continue` after an upper-case
   * second letter.
   */
  method PushLatin(output: string, c: char, next: Option<char>) returns (r: string)
    ensures r == output + LatinOf(c, next)
  {
    r := output;
    var isUpper := IsUpper(c);
    var cLow := ToLower(c);
    match CyrToLatChar(cLow) {
      case Some(lat) =>
        LatinFormLength(cLow);
        if isUpper {
          r := r + [ToUpper(lat[0])];
        } else {
          r := r + [lat[0]];
        }
        if |lat| > 1 {
          if next.Some? && IsUpper(next.value) {
            r := r + [ToUpper(lat[1])];
            return;
          }
          r := r + [lat[1]];
        }
      case None =>
        r := r + [c];
    }
  }
}
