/**
 * Properties of the Latin to Cyrillic direction over whole texts: the turn
 * rules in terms of the source's own lookups, the length bounds, texts that
 * come out unchanged, the characters up to an exception's end, and the
 * conversions the unit tests expect.
 */
module LatinToCyrillicFacts {
  import opened Wrappers
  import opened CaseFold
  import opened Tables
  import opened SkipSpans
  import opened SeqFacts
  import opened LatinToCyrillic

  /**
   * The turn at `i` of `lat_to_cyr`: a skip span is copied; before the marker
   * the character is converted singly; at or after it, an exception moves the
   * marker to the exception's end and converts singly; otherwise a digraph with
   * the next character merges into one letter, and any other character is
   * converted singly.
   */
  lemma TurnRules(s: string, i: nat, skip: SkipOracle, until: nat)
    requires i < |s|
    ensures var t := LatToCyrTurn(s, i, skip, until, Readings(s));
      && (skip(s[i..]).Some? ==>
            t == Turn(s[i..i + skip(s[i..]).value], i + skip(s[i..]).value, until))
      && (skip(s[i..]).None? && i < until ==>
            t == Turn([SingleOf(s[i])], i + 1, until))
      && (skip(s[i..]).None? && until <= i && LongestException(s, i).Some? ==>
            t == Turn([SingleOf(s[i])], i + 1, i + LongestException(s, i).value))
      && (skip(s[i..]).None? && until <= i && LongestException(s, i).None? && i + 1 < |s| && DoubleOf(s[i], s[i + 1]).Some? ==>
            t == Turn([DoubleOf(s[i], s[i + 1]).value], i + 2, until))
      && (skip(s[i..]).None? && until <= i && LongestException(s, i).None? && (i + 1 == |s| || DoubleOf(s[i], s[i + 1]).None?) ==>
            t == Turn([SingleOf(s[i])], i + 1, until))
  {
    if skip(s[i..]).None? {
      ConvertRules(s, i, skip, until, LatToCyrTurn(s, i, skip, until, Readings(s)));
    }
  }

  lemma ConvertRules(s: string, i: nat, skip: SkipOracle, until: nat, t: Turn)
    requires i < |s| && skip(s[i..]).None? && t == LatToCyrTurn(s, i, skip, until, Readings(s))
    ensures i < until ==> t == Turn([SingleOf(s[i])], i + 1, until)
    ensures until <= i && LongestException(s, i).Some? ==> t == Turn([SingleOf(s[i])], i + 1, i + LongestException(s, i).value)
    ensures until <= i && LongestException(s, i).None? && i + 1 < |s| && DoubleOf(s[i], s[i + 1]).Some? ==>
      t == Turn([DoubleOf(s[i], s[i + 1]).value], i + 2, until)
    ensures until <= i && LongestException(s, i).None? && (i + 1 == |s| || DoubleOf(s[i], s[i + 1]).None?) ==>
      t == Turn([SingleOf(s[i])], i + 1, until)
  {
    ReadingOf(s, i);
    assert t == ConvertTurn(i, until, Readings(s)[i]);
  }

  /** The reading of position `i`, read off the source's lookups. */
  lemma ReadingOf(s: string, i: nat)
    requires i < |s|
    ensures Readings(s)[i] == ReadingAt(s, i)
  {
    ReadingsFromAt(s, 0, i);
  }

  /** The Cyrillic text has at most one character per source character, and at least one per two. */
  lemma ToCyrillicLength(s: string, skip: SkipOracle)
    ensures |s| <= 2 * |ToCyrillic(s, skip)| && |ToCyrillic(s, skip)| <= |s|
  {
    FromLength(s, 0, skip, 0, Readings(s));
  }

  lemma {:induction false} FromLength(s: string, i: nat, skip: SkipOracle, until: nat, readings: seq<Reading>)
    requires i <= |s| && ValidReadings(s, readings)
    ensures |s| - i <= 2 * |LatToCyrFrom(s, i, skip, until, readings)|
    ensures |LatToCyrFrom(s, i, skip, until, readings)| <= |s| - i
    decreases |s| - i
  {
    if i < |s| {
      var t := LatToCyrTurn(s, i, skip, until, readings);
      FromLength(s, t.next, skip, t.until, readings);
    }
  }

  /** Each character of `w` converted singly. */
  function SinglesOf(w: string): string {
    seq(|w|, k requires 0 <= k < |w| => SingleOf(w[k]))
  }

  /** The single letters that `readings` records from `i` up to `j`. */
  function SinglesIn(readings: seq<Reading>, i: nat, j: nat): string
    requires i <= j <= |readings|
  {
    seq(j - i, k requires 0 <= k < j - i => readings[i + k].single)
  }

  lemma SinglesInFirst(readings: seq<Reading>, i: nat, j: nat)
    requires i < j <= |readings|
    ensures SinglesIn(readings, i, j) == [readings[i].single] + SinglesIn(readings, i + 1, j)
  {
  }

  /** Every reading of `readings` from `i` up to `j` holds the single letter of the character there. */
  predicate ReadsSingles(s: string, readings: seq<Reading>, i: nat, j: nat)
    requires j <= |s| == |readings|
    decreases j - i
  {
    i >= j || (readings[i].single == SingleOf(s[i]) && ReadsSingles(s, readings, i + 1, j))
  }

  lemma {:induction false} SinglesRead(s: string, readings: seq<Reading>, i: nat, j: nat)
    requires j <= |s| && ValidReadings(s, readings) && ReadsAll(s, readings)
    ensures ReadsSingles(s, readings, i, j)
    decreases j - i
  {
    if i < j {
      assert readings[i] == ReadingAt(s, i);
      SinglesRead(s, readings, i + 1, j);
    }
  }

  lemma SinglesOfFirst(w: string)
    requires |w| > 0
    ensures SinglesOf(w) == [SingleOf(w[0])] + SinglesOf(w[1..])
  {
  }

  /** Readings that hold the single letters of a stretch spell that stretch converted singly. */
  lemma {:induction false} SinglesInText(s: string, readings: seq<Reading>, i: nat, j: nat)
    requires i <= j <= |s| == |readings| && ReadsSingles(s, readings, i, j)
    ensures SinglesIn(readings, i, j) == SinglesOf(s[i..j])
    decreases j - i
  {
    if i < j {
      SinglesInText(s, readings, i + 1, j);
      SinglesInFirst(readings, i, j);
      SinglesOfFirst(s[i..j]);
      assert s[i..j][1..] == s[i + 1..j];
    }
  }

  /** Readings of the whole text record the single letters of any stretch of it. */
  lemma SinglesInRead(s: string, readings: seq<Reading>, i: nat, j: nat)
    requires i <= j <= |s| && ValidReadings(s, readings) && ReadsAll(s, readings)
    ensures SinglesIn(readings, i, j) == SinglesOf(s[i..j])
  {
    SinglesRead(s, readings, i, j);
    SinglesInText(s, readings, i, j);
  }

  /** The singly converted text of a whole text, read off its readings. */
  lemma SinglesOfText(s: string, readings: seq<Reading>)
    requires ValidReadings(s, readings) && ReadsAll(s, readings)
    ensures SinglesIn(readings, 0, |s|) == SinglesOf(s)
  {
    SinglesInRead(s, readings, 0, |s|);
    assert s[0..|s|] == s;
  }

  /**
   * Up to the marker, every character is converted singly (its recorded
   * single letter): a digraph there does not merge, as long as no skip span
   * starts on the way.
   */
  lemma {:induction false} BeforeMarker(s: string, i: nat, j: nat, skip: SkipOracle, until: nat, readings: seq<Reading>)
    requires i <= j <= until && j <= |s| && ValidReadings(s, readings) && NoSpanIn(s, skip, i, j)
    ensures LatToCyrFrom(s, i, skip, until, readings) == SinglesIn(readings, i, j) + LatToCyrFrom(s, j, skip, until, readings)
    decreases j - i
  {
    if i < j {
      MarkedTurn(s, i, skip, until, readings);
      BeforeMarker(s, i + 1, j, skip, until, readings);
      SinglesInFirst(readings, i, j);
      AppendAssoc([readings[i].single], SinglesIn(readings, i + 1, j), LatToCyrFrom(s, j, skip, until, readings));
    }
  }

  /** Before the marker, a character outside spans is converted singly. */
  lemma MarkedTurn(s: string, i: nat, skip: SkipOracle, until: nat, readings: seq<Reading>)
    requires i < until && i < |s| && ValidReadings(s, readings) && skip(s[i..]).None?
    ensures LatToCyrFrom(s, i, skip, until, readings) == [readings[i].single] + LatToCyrFrom(s, i + 1, skip, until, readings)
  {
    assert LatToCyrTurn(s, i, skip, until, readings) == Turn([readings[i].single], i + 1, until);
  }

  /** A pair whose lower-case form is a digraph starts with a letter that has an entry of its own. */
  lemma DigraphStartsWithLetter(a: char, b: char)
    requires LatToCyrChar([a, b]).Some?
    ensures LatToCyrChar([a]).Some?
  {
  }

  /**
   * Every reading of `readings` from `i` on copies the character there and
   * merges nothing.
   */
  predicate ReadsPlain(s: string, readings: seq<Reading>, i: nat)
    requires |s| == |readings|
    decreases |s| - i
  {
    i >= |s| || (readings[i].single == s[i] && readings[i].double.None? && ReadsPlain(s, readings, i + 1))
  }

  lemma {:induction false} ReadsPlainDrop(s: string, readings: seq<Reading>, i: nat, j: nat)
    requires |s| == |readings| && i <= j && ReadsPlain(s, readings, i)
    ensures ReadsPlain(s, readings, j)
    decreases j - i
  {
    if i < j {
      ReadsPlainDrop(s, readings, i + 1, j);
    }
  }

  lemma {:induction false} PlainText(s: string, i: nat)
    requires forall k :: i <= k < |s| ==> LatToCyrChar([ToLower(s[k])]).None?
    ensures ReadsPlain(s, Readings(s), i)
    decreases |s| - i
  {
    if i < |s| {
      ReadingOf(s, i);
      SinglePassThrough(s[i]);
      if i + 1 < |s| && DoubleOf(s[i], s[i + 1]).Some? {
        DigraphStartsWithLetter(ToLower(s[i]), ToLower(s[i + 1]));
        assert false;
      }
      PlainText(s, i + 1);
    }
  }

  /** Where the matcher finds no span, the Cyrillic text does not depend on the matcher. */
  lemma ToCyrillicWithoutSpans(s: string, skip: SkipOracle)
    requires NoSpanIn(s, skip, 0, |s|)
    ensures ToCyrillic(s, skip) == ToCyrillic(s, NoSpan)
  {
    FromWithoutSpans(s, 0, skip, 0, Readings(s));
  }

  lemma {:induction false} FromWithoutSpans(s: string, i: nat, skip: SkipOracle, until: nat, readings: seq<Reading>)
    requires i <= |s| && ValidReadings(s, readings) && NoSpanIn(s, skip, i, |s|)
    ensures LatToCyrFrom(s, i, skip, until, readings) == LatToCyrFrom(s, i, NoSpan, until, readings)
    decreases |s| - i
  {
    if i < |s| {
      var t := LatToCyrTurn(s, i, skip, until, readings);
      NoSpanInWithin(s, skip, i, |s|, t.next, |s|);
      FromWithoutSpans(s, t.next, skip, t.until, readings);
    }
  }

  /** A text in which no character has an entry comes out unchanged, whatever the skip spans. */
  lemma ToCyrillicIdentity(s: string, skip: SkipOracle)
    requires forall k :: 0 <= k < |s| ==> LatToCyrChar([ToLower(s[k])]).None?
    ensures ToCyrillic(s, skip) == s
  {
    PlainText(s, 0);
    FromIdentity(s, 0, skip, 0, Readings(s));
  }

  lemma {:induction false} FromIdentity(s: string, i: nat, skip: SkipOracle, until: nat, readings: seq<Reading>)
    requires i <= |s| && ValidReadings(s, readings) && ReadsPlain(s, readings, i)
    ensures LatToCyrFrom(s, i, skip, until, readings) == s[i..]
    decreases |s| - i
  {
    if i < |s| {
      var t := LatToCyrTurn(s, i, skip, until, readings);
      assert t.text == s[i..t.next];
      ReadsPlainDrop(s, readings, i, t.next);
      FromIdentity(s, t.next, skip, t.until, readings);
      SplitAt(s, i, t.next);
    }
  }

  /**
   * At an exception found at or after the marker, every character of the
   * fragment is converted singly, and the marker ends up at the fragment's
   * end, as long as no skip span starts inside the fragment.
   */
  lemma ExceptionConvertsSingly(s: string, i: nat, skip: SkipOracle, until: nat, len: nat, readings: seq<Reading>)
    requires ValidReadings(s, readings) && ReadsAll(s, readings)
    requires until <= i < |s| && LongestException(s, i) == Some(len) && NoSpanIn(s, skip, i, i + len)
    ensures LatToCyrFrom(s, i, skip, until, readings) == SinglesIn(readings, i, i + len) + LatToCyrFrom(s, i + len, skip, i + len, readings)
  {
    ExceptionRead(s, readings, i);
    FragmentSingly(s, i, len, skip, until, readings);
  }

  /** The reading at `i` records the exception found there. */
  lemma ExceptionRead(s: string, readings: seq<Reading>, i: nat)
    requires i < |s| && ValidReadings(s, readings) && ReadsAll(s, readings)
    ensures readings[i].exception == LongestException(s, i)
  {
    assert readings[i] == ReadingAt(s, i);
  }

  /** Once the reading at `i` records an exception of `len` characters, those characters convert singly. */
  lemma FragmentSingly(s: string, i: nat, len: nat, skip: SkipOracle, until: nat, readings: seq<Reading>)
    requires until <= i && 1 <= len && i + len <= |s| && ValidReadings(s, readings)
    requires NoSpanIn(s, skip, i, i + len) && readings[i].exception == Some(len)
    ensures LatToCyrFrom(s, i, skip, until, readings) == SinglesIn(readings, i, i + len) + LatToCyrFrom(s, i + len, skip, i + len, readings)
  {
    var j := i + len;
    NoSpanInWithin(s, skip, i, j, i + 1, j);
    ExceptionTurn(s, i, len, skip, until, readings);
    BeforeMarker(s, i + 1, j, skip, j, readings);
    SinglesInFirst(readings, i, j);
    AppendAssoc([readings[i].single], SinglesIn(readings, i + 1, j), LatToCyrFrom(s, j, skip, j, readings));
  }

  /** At an exception the character is converted singly and the marker moves to the exception's end. */
  lemma ExceptionTurn(s: string, i: nat, len: nat, skip: SkipOracle, until: nat, readings: seq<Reading>)
    requires until <= i < |s| && ValidReadings(s, readings) && skip(s[i..]).None?
    requires readings[i].exception == Some(len)
    ensures LatToCyrFrom(s, i, skip, until, readings) == [readings[i].single] + LatToCyrFrom(s, i + 1, skip, i + len, readings)
  {
    var t := LatToCyrTurn(s, i, skip, until, readings);
    assert t == ConvertTurn(i, until, readings[i]);
    assert t == Turn([readings[i].single], i + 1, i + len);
    assert LatToCyrFrom(s, i, skip, until, readings) == t.text + LatToCyrFrom(s, t.next, skip, t.until, readings);
  }

  /** A character outside spans that neither starts an exception nor merges is converted singly. */
  lemma PlainTurn(s: string, i: nat, skip: SkipOracle, until: nat, readings: seq<Reading>)
    requires i < |s| && ValidReadings(s, readings) && skip(s[i..]).None?
    requires readings[i].exception.None? && readings[i].double.None?
    ensures LatToCyrFrom(s, i, skip, until, readings) == [readings[i].single] + LatToCyrFrom(s, i + 1, skip, until, readings)
  {
    assert LatToCyrTurn(s, i, skip, until, readings) == Turn([readings[i].single], i + 1, until);
  }

  /** An exception that runs to the end of the text converts the rest of it singly. */
  lemma ExceptionToEnd(s: string, i: nat, skip: SkipOracle, until: nat, readings: seq<Reading>)
    requires until <= i < |s| && ValidReadings(s, readings)
    requires NoSpanIn(s, skip, i, |s|) && readings[i].exception == Some(|s| - i)
    ensures LatToCyrFrom(s, i, skip, until, readings) == SinglesIn(readings, i, |s|)
  {
    FragmentSingly(s, i, |s| - i, skip, until, readings);
    assert LatToCyrFrom(s, |s|, skip, |s|, readings) == [];
    assert SinglesIn(readings, i, |s|) + [] == SinglesIn(readings, i, |s|);
  }
}

module LatinToCyrillicExamples {
  import opened Wrappers
  import opened CaseFold
  import opened Tables
  import opened SkipSpans
  import opened LatinToCyrillic
  import opened LatinToCyrillicFacts

  /** No exception starts at the first letter of "Odžubori". */
  lemma OdzuboriStartsPlain(s: string)
    requires s == "Odžubori"
    ensures LongestException(s, 0).None?
  {
    LongestExceptionIsLongest(s, 0);
    assert LowerStr(s[0..8]) == "odžubori";
    assert LowerStr(s[0..7]) == "odžubor";
    assert LowerStr(s[0..6]) == "odžubo";
    assert LowerStr(s[0..5]) == "odžub";
    assert LowerStr(s[0..4]) == "odžu";
    assert LowerStr(s[0..3]) == "odž";
    assert LowerStr(s[0..2]) == "od";
    assert LowerStr(s[0..1]) == "o";
  }

  /** The exception "džubori" starts at its second letter. */
  lemma OdzuboriException(s: string)
    requires s == "Odžubori"
    ensures LongestException(s, 1) == Some(7)
  {
    LongestExceptionIsLongest(s, 1);
    assert LowerStr(s[1..8]) == "džubori";
  }

  /** "Odžubori": the exception "džubori" at position 1 keeps d and ž apart. */
  lemma OdzuboriExample(s: string)
    requires s == "Odžubori"
    ensures ToCyrillic(s, EngineMatcher) == "Оджубори"
  {
    OdzuboriNoSpan(s);
    OdzuboriWithoutSpans(s, EngineMatcher);
  }

  lemma OdzuboriNoSpan(s: string)
    requires s == "Odžubori"
    ensures NoSpanIn(s, EngineMatcher, 0, |s|)
  {
    OdzuboriHasNoMarkers(s);
    EngineNoSpanIn(s, 0, |s|);
  }

  lemma OdzuboriHasNoMarkers(s: string)
    requires s == "Odžubori"
    ensures forall k :: 0 <= k < |s| ==> !IsMarker(s[k])
  {
  }

  lemma OdzuboriWithoutSpans(s: string, skip: SkipOracle)
    requires s == "Odžubori" && NoSpanIn(s, skip, 0, |s|)
    ensures ToCyrillic(s, skip) == "Оджубори"
  {
    OdzuboriStartsPlain(s);
    OdzuboriException(s);
    OdzuboriLetters(s);
    FirstThenException(s, skip);
  }

  /**
   * A text whose first letter neither starts an exception nor merges with the
   * second, where an exception spans the rest, is converted letter by letter.
   */
  lemma FirstThenException(s: string, skip: SkipOracle)
    requires 2 <= |s| && NoSpanIn(s, skip, 0, |s|)
    requires LongestException(s, 0).None? && DoubleOf(s[0], s[1]).None?
    requires LongestException(s, 1) == Some(|s| - 1)
    ensures ToCyrillic(s, skip) == SinglesOf(s)
  {
    ReadingsReadAll(s);
    var readings := Readings(s);
    assert readings[0] == ReadingAt(s, 0);
    ExceptionRead(s, readings, 1);
    FirstThenFragment(s, skip, readings);
    SinglesOfText(s, readings);
  }

  lemma FirstThenFragment(s: string, skip: SkipOracle, readings: seq<Reading>)
    requires 2 <= |s| && ValidReadings(s, readings) && NoSpanIn(s, skip, 0, |s|)
    requires readings[0].double.None? && readings[0].exception.None?
    requires readings[1].exception == Some(|s| - 1)
    ensures LatToCyrFrom(s, 0, skip, 0, readings) == SinglesIn(readings, 0, |s|)
  {
    PlainTurn(s, 0, skip, 0, readings);
    NoSpanInWithin(s, skip, 0, |s|, 1, |s|);
    ExceptionToEnd(s, 1, skip, 0, readings);
    SinglesInFirst(readings, 0, |s|);
  }

  /** A text that is one exception as a whole is converted letter by letter. */
  lemma WholeException(s: string, skip: SkipOracle)
    requires 1 <= |s| && NoSpanIn(s, skip, 0, |s|) && LongestException(s, 0) == Some(|s|)
    ensures ToCyrillic(s, skip) == SinglesOf(s)
  {
    ReadingsReadAll(s);
    var readings := Readings(s);
    ExceptionRead(s, readings, 0);
    ExceptionToEnd(s, 0, skip, 0, readings);
    SinglesOfText(s, readings);
  }

  /** "Tanjug": the exception "tanjug" keeps n and j apart. */
  lemma TanjugExample(s: string)
    requires s == "Tanjug"
    ensures ToCyrillic(s, EngineMatcher) == "Танјуг"
  {
    TanjugNoSpan(s);
    TanjugException(s);
    TanjugLetters(s);
    WholeException(s, EngineMatcher);
  }

  lemma TanjugNoSpan(s: string)
    requires s == "Tanjug"
    ensures NoSpanIn(s, EngineMatcher, 0, |s|)
  {
    TanjugHasNoMarkers(s);
    EngineNoSpanIn(s, 0, |s|);
  }

  lemma TanjugHasNoMarkers(s: string)
    requires s == "Tanjug"
    ensures forall k :: 0 <= k < |s| ==> !IsMarker(s[k])
  {
  }

  lemma TanjugException(s: string)
    requires s == "Tanjug"
    ensures LongestException(s, 0) == Some(|s|)
  {
    LongestExceptionIsLongest(s, 0);
    assert LowerStr(s[0..6]) == "tanjug";
  }

  lemma TanjugLetters(s: string)
    requires s == "Tanjug"
    ensures SinglesOf(s) == "Танјуг"
  {
    assert SingleOf('T') == 'Т' && SingleOf('a') == 'а' && SingleOf('n') == 'н';
    assert SingleOf('j') == 'ј' && SingleOf('u') == 'у' && SingleOf('g') == 'г';
  }

  lemma OdzuboriLetters(s: string)
    requires s == "Odžubori"
    ensures DoubleOf(s[0], s[1]).None?
    ensures SinglesOf(s) == "Оджубори"
  {
    assert SingleOf('O') == 'О' && SingleOf('d') == 'д' && SingleOf('ž') == 'ж' && SingleOf('u') == 'у';
    assert SingleOf('b') == 'б' && SingleOf('o') == 'о' && SingleOf('r') == 'р' && SingleOf('i') == 'и';
  }
}
