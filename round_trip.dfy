/**
 * The two directions undo each other on Cyrillic text, within limits: a
 * Cyrillic text converted to Latin and back, with no skip spans, is the text
 * it started from, provided that
 *  - every character is a Serbian Cyrillic letter or a character neither
 *    table knows (so it passes through both directions);
 *  - no л or н is followed by ј and no д by ж, since their Latin forms read
 *    back as the digraphs lj, nj and dž, that is as љ, њ and џ;
 *  - no exception fragment starts in the Latin text, since merging is
 *    suppressed there ("оџиве" becomes "odžive" and comes back as "одживе").
 */
module RoundTrip {
  import opened Wrappers
  import opened CaseFold
  import opened Tables
  import opened SkipSpans
  import CyrillicToLatin
  import opened LatinToCyrillic

  // ---------------------------------------------------------------------------
  // One character

  /** A Serbian Cyrillic letter, or a character that neither table knows. */
  predicate Transliterable(c: char) {
    CyrToLatChar(ToLower(c)).Some? || LatToCyrChar([ToLower(c)]).None?
  }

  /** `c` followed by `d` comes out in Latin as one of the digraphs lj, nj or dž. */
  predicate ReadsAsDigraph(c: char, d: char) {
    || ((ToLower(c) == 'л' || ToLower(c) == 'н') && ToLower(d) == 'ј')
    || (ToLower(c) == 'д' && ToLower(d) == 'ж')
  }

  /** The characters at `k` and `k + 1` read as a digraph in Latin. */
  predicate ReadsAsDigraphAt(s: string, k: nat)
    requires k + 1 < |s|
  {
    ReadsAsDigraph(s[k], s[k + 1])
  }

  /**
   * A letter's Latin form reads back as that letter: the two characters of a
   * digraph merge into it, and a single character converts into it.
   */
  lemma LetterBack(c: char, next: Option<char>)
    requires Transliterable(c)
    ensures var w := CyrillicToLatin.LatinOf(c, next);
      && (|w| == 2 ==> DoubleOf(w[0], w[1]) == Some(c))
      && (|w| == 1 ==> SingleOf(w[0]) == c)
  {
    var w := CyrillicToLatin.LatinOf(c, next);
    CaseRoundTrip(c);
    if CyrToLatChar(ToLower(c)).Some? {
      var lat := CyrToLatChar(ToLower(c)).value;
      LatinFormShape();
      CyrToLatInverse();
      CaseRoundTrip(lat[0]);
      assert ToLower(w[0]) == lat[0];
      assert IsUpper(w[0]) <==> IsUpper(c);
      if |lat| == 2 {
        CaseRoundTrip(lat[1]);
        assert [ToLower(w[0]), ToLower(w[1])] == lat;
      } else {
        assert [ToLower(w[0])] == lat;
      }
    }
  }

  /**
   * The Latin character of a one-character letter `c` and the first Latin
   * character of the letter `d` after it do not merge, unless `c` and `d` read
   * as a digraph.
   */
  lemma NoMergeBetween(c: char, nc: Option<char>, d: char, nd: Option<char>)
    requires Transliterable(c) && Transliterable(d) && !ReadsAsDigraph(c, d)
    requires |CyrillicToLatin.LatinOf(c, nc)| == 1
    ensures DoubleOf(CyrillicToLatin.LatinOf(c, nc)[0], CyrillicToLatin.LatinOf(d, nd)[0]).None?
  {
    var a := CyrillicToLatin.LatinOf(c, nc)[0];
    var b := CyrillicToLatin.LatinOf(d, nd)[0];
    DigraphMerge(a, b);
    LatinFirst(c, nc);
    LatinFirst(d, nd);
  }

  /**
   * The lower-cased first Latin character of `c`: it is l, n or d only for
   * л, н, д (and the digraph letters љ, њ, џ), j only for ј and ž only for ж.
   */
  lemma LatinFirst(c: char, next: Option<char>)
    requires Transliterable(c)
    ensures var f := ToLower(CyrillicToLatin.LatinOf(c, next)[0]);
      && (f == 'j' ==> ToLower(c) == 'ј')
      && (f == 'ž' ==> ToLower(c) == 'ж')
      && (f == 'l' && |CyrillicToLatin.LatinOf(c, next)| == 1 ==> ToLower(c) == 'л')
      && (f == 'n' && |CyrillicToLatin.LatinOf(c, next)| == 1 ==> ToLower(c) == 'н')
      && (f == 'd' && |CyrillicToLatin.LatinOf(c, next)| == 1 ==> ToLower(c) == 'д')
  {
    var w := CyrillicToLatin.LatinOf(c, next);
    if CyrToLatChar(ToLower(c)).Some? {
      var lat := CyrToLatChar(ToLower(c)).value;
      LatinFormShape();
      CyrToLatInverse();
      CaseRoundTrip(lat[0]);
      assert ToLower(w[0]) == lat[0];
      if |lat| == 1 {
        assert lat == [lat[0]];
      }
    } else {
      assert w == [c];
      assert LatToCyrChar("j").Some? && LatToCyrChar("ž").Some?;
      assert LatToCyrChar("l").Some? && LatToCyrChar("n").Some? && LatToCyrChar("d").Some?;
    }
  }

  // ---------------------------------------------------------------------------
  // The scan back over the Latin text

  /**
   * From source position `j` on, the readings of the Latin text, taken at the
   * positions where the Latin forms `letters` of the source characters start
   * (from `p` on), give back the source: no exception, and either the merge of
   * a two-character form or the single letter of a one-character form is the
   * source character. The last form ends at the end of the text.
   */
  predicate ReadsBack(s: string, letters: seq<string>, readings: seq<Reading>, j: nat, p: nat)
    requires j <= |s| == |letters|
    decreases |s| - j
  {
    if j == |s| then p == |readings|
    else ReadsBackAt(s, letters, readings, j, p) && ReadsBack(s, letters, readings, j + 1, p + |letters[j]|)
  }

  /**
   * The reading at `p`, where the Latin form of `s[j]` starts, gives `s[j]`
   * back: no exception there, and either the form has two characters that
   * merge into `s[j]`, or one that converts into it without a merge.
   */
  predicate ReadsBackAt(s: string, letters: seq<string>, readings: seq<Reading>, j: nat, p: nat)
    requires j < |s| == |letters|
  {
    && p < |readings|
    && readings[p].exception.None?
    && (|| (|letters[j]| == 2 && readings[p].double == Some(s[j]))
        || (|letters[j]| == 1 && readings[p].double.None? && readings[p].single == s[j]))
  }

  /** Where the readings give the source back, `lat_to_cyr` without skip spans produces it. */
  lemma {:induction false} BackFrom(s: string, letters: seq<string>, t: string, readings: seq<Reading>, j: nat, p: nat)
    requires j <= |s| == |letters| && p <= |t|
    requires ValidReadings(t, readings) && ReadsBack(s, letters, readings, j, p)
    ensures LatToCyrFrom(t, p, NoSpan, 0, readings) == s[j..]
    decreases |s| - j
  {
    if j < |s| {
      BackFrom(s, letters, t, readings, j + 1, p + |letters[j]|);
      assert s[j..] == [s[j]] + s[j + 1..];
    }
  }

  // ---------------------------------------------------------------------------
  // The readings of the Latin text

  /**
   * Where the Latin form `letters[j]` of `s[j]` starts at `p` in `t`: its
   * characters, the form after it, and where the rest starts.
   */
  lemma FormAt(s: string, letters: seq<string>, t: string, j: nat, p: nat)
    requires j < |s| == |letters| && 1 <= |letters[j]|
    requires j + 1 < |s| ==> 1 <= |letters[j + 1]|
    requires p <= |t| && t[p..] == CyrillicToLatin.CyrToLatFrom(s, j, NoSpan, letters)
    ensures p + |letters[j]| <= |t|
    ensures t[p + |letters[j]|..] == CyrillicToLatin.CyrToLatFrom(s, j + 1, NoSpan, letters)
    ensures t[p] == letters[j][0]
    ensures |letters[j]| == 2 ==> t[p + 1] == letters[j][1]
    ensures p + |letters[j]| < |t| ==> j + 1 < |s| && t[p + |letters[j]|] == letters[j + 1][0]
  {
    var w := letters[j];
    var rest := CyrillicToLatin.CyrToLatFrom(s, j + 1, NoSpan, letters);
    assert t[p..] == w + rest;
    assert t[p + |w|..] == t[p..][|w|..];
    assert t[p..][0] == t[p];
    if |w| == 2 {
      assert t[p..][1] == t[p + 1];
    }
    if p + |w| < |t| {
      assert t[p + |w|..][0] == t[p + |w|];
      if j + 1 < |s| {
        assert rest == letters[j + 1] + CyrillicToLatin.CyrToLatFrom(s, j + 2, NoSpan, letters);
      }
    }
  }

  /** The Latin forms `letters` of `s[k..]` stand in `t` from `q` to the end. */
  predicate FormStartsAt(s: string, letters: seq<string>, t: string, k: nat, q: nat)
    requires k <= |s| == |letters|
  {
    q <= |t| && t[q..] == CyrillicToLatin.CyrToLatFrom(s, k, NoSpan, letters)
  }

  /**
   * The reading at `p`, where the Latin form of `s[j]` starts in `t`, gives
   * `s[j]` back.
   */
  lemma ReadingBackAt(s: string, t: string, readings: seq<Reading>, j: nat, p: nat)
    requires j < |s|
    requires Transliterable(s[j]) && (j + 1 < |s| ==> Transliterable(s[j + 1]) && !ReadsAsDigraphAt(s, j))
    requires FormStartsAt(s, CyrillicToLatin.LatinLetters(s), t, j, p)
    requires |readings| == |t| && ReadsAll(t, readings)
    requires p < |t| ==> LongestException(t, p).None?
    ensures ReadsBackAt(s, CyrillicToLatin.LatinLetters(s), readings, j, p)
  {
    var letters := CyrillicToLatin.LatinLetters(s);
    FormAt(s, letters, t, j, p);
    assert readings[p] == ReadingAt(t, p);
    LetterBack(s[j], CyrillicToLatin.Peek(s, j));
    if |letters[j]| == 1 && p + 1 < |t| {
      NoMergeBetween(s[j], CyrillicToLatin.Peek(s, j), s[j + 1], CyrillicToLatin.Peek(s, j + 1));
    }
  }

  /**
   * From `j` on, the readings give the source back, given that they do at the
   * start of every Latin form.
   */
  lemma {:induction false} ReadsBackFrom(s: string, letters: seq<string>, t: string, readings: seq<Reading>, j: nat, p: nat)
    requires j <= |s| == |letters| && FormStartsAt(s, letters, t, j, p) && |readings| == |t|
    requires forall k :: 0 <= k < |s| ==> 1 <= |letters[k]|
    requires forall k, q :: j <= k < |s| && FormStartsAt(s, letters, t, k, q) ==> ReadsBackAt(s, letters, readings, k, q)
    ensures ReadsBack(s, letters, readings, j, p)
    decreases |s| - j
  {
    if j < |s| {
      FormAt(s, letters, t, j, p);
      ReadsBackFrom(s, letters, t, readings, j + 1, p + |letters[j]|);
    } else {
      assert |t[p..]| == 0;
    }
  }

  // ---------------------------------------------------------------------------
  // The round trip

  /**
   * `lat_to_cyr` undoes `cyr_to_lat` (both without skip spans) on a text of
   * Serbian Cyrillic letters and characters neither table knows, in which no
   * two letters read as a digraph in Latin and whose Latin form holds no
   * exception fragment.
   */
  lemma RoundTripCyrillic(s: string)
    requires forall k :: 0 <= k < |s| ==> Transliterable(s[k])
    requires forall k :: 0 <= k < |s| - 1 ==> !ReadsAsDigraphAt(s, k)
    requires var t := CyrillicToLatin.ToLatin(s, NoSpan);
      forall k :: 0 <= k < |t| ==> LongestException(t, k).None?
    ensures ToCyrillic(CyrillicToLatin.ToLatin(s, NoSpan), NoSpan) == s
  {
    var letters := CyrillicToLatin.LatinLetters(s);
    var t := CyrillicToLatin.ToLatin(s, NoSpan);
    var readings := Readings(t);
    LatinReadsBack(s, t, readings);
    BackFrom(s, letters, t, readings, 0, 0);
    assert s[0..] == s;
  }

  /** The readings of the Latin text give the source back from the start. */
  lemma LatinReadsBack(s: string, t: string, readings: seq<Reading>)
    requires forall k :: 0 <= k < |s| ==> Transliterable(s[k])
    requires forall k :: 0 <= k < |s| - 1 ==> !ReadsAsDigraphAt(s, k)
    requires t == CyrillicToLatin.ToLatin(s, NoSpan) && readings == Readings(t)
    requires forall k :: 0 <= k < |t| ==> LongestException(t, k).None?
    ensures ReadsBack(s, CyrillicToLatin.LatinLetters(s), readings, 0, 0)
  {
    var letters := CyrillicToLatin.LatinLetters(s);
    ReadingsReadAll(t);
    assert FormStartsAt(s, letters, t, 0, 0) by {
      assert t[0..] == t;
    }
    forall k, q | 0 <= k < |s| && FormStartsAt(s, letters, t, k, q)
      ensures ReadsBackAt(s, letters, readings, k, q)
    {
      ReadingBackAt(s, t, readings, k, q);
    }
    ReadsBackFrom(s, letters, t, readings, 0, 0);
  }
}

/**
 * The unit tests' pair "Његош" and "Njegoš": each is what the other converts
 * to, with the engine's own matcher.
 */
module RoundTripExamples {
  import opened Wrappers
  import opened CaseFold
  import opened Tables
  import opened SkipSpans
  import opened CyrillicToLatin
  import LatinToCyrillic
  import LatinToCyrillicFacts
  import opened RoundTrip

  /** "Његош" becomes "Njegoš": the digraph takes the case of the lower-case letter after it. */
  lemma NjegosToLatin(s: string)
    requires s == "Његош"
    ensures ToLatin(s, EngineMatcher) == "Njegoš"
  {
    NjegosNoSpan(s);
    NjegosLatinWithin(s, EngineMatcher);
  }

  lemma NjegosNoSpan(s: string)
    requires s == "Његош"
    ensures NoSpanIn(s, EngineMatcher, 0, |s|)
  {
    NjegosHasNoMarkers(s);
    EngineNoSpanIn(s, 0, |s|);
  }

  lemma NjegosHasNoMarkers(s: string)
    requires s == "Његош"
    ensures forall k :: 0 <= k < |s| ==> !IsMarker(s[k])
  {
  }

  lemma NjegosLatinWithin(s: string, skip: SkipOracle)
    requires s == "Његош" && NoSpanIn(s, skip, 0, |s|)
    ensures ToLatin(s, skip) == "Njegoš"
  {
    ToLatinWithoutSpans(s, skip);
    NjegosLatin(s);
  }

  lemma NjegosLatin(s: string)
    requires s == "Његош"
    ensures ToLatin(s, NoSpan) == "Njegoš"
  {
    NjegosLetters(s);
    FiveForms(s, LatinLetters(s));
    assert "Nj" + ("e" + ("g" + ("o" + "š"))) == "Njegoš";
  }

  lemma NjegosLetters(s: string)
    requires s == "Његош"
    ensures LatinLetters(s) == ["Nj", "e", "g", "o", "š"]
  {
    assert LatinOf('Њ', Some('е')) == "Nj";
    assert LatinOf('е', Some('г')) == "e";
    assert LatinOf('г', Some('о')) == "g";
    assert LatinOf('о', Some('ш')) == "o";
    assert LatinOf('ш', None) == "š";
  }

  /** Without spans, the Latin text of five characters is their five forms in order. */
  lemma FiveForms(s: string, letters: seq<string>)
    requires |s| == |letters| == 5
    ensures CyrToLatFrom(s, 0, NoSpan, letters) == letters[0] + (letters[1] + (letters[2] + (letters[3] + letters[4])))
  {
    var f3 := CyrToLatFrom(s, 3, NoSpan, letters);
    FormStep(s, 4, letters);
    FormStep(s, 3, letters);
    assert f3 == letters[3] + letters[4];
    FormStep(s, 2, letters);
    FormStep(s, 1, letters);
    FormStep(s, 0, letters);
  }

  /** Without spans, each position contributes its own form. */
  lemma FormStep(s: string, i: nat, letters: seq<string>)
    requires i < |s| == |letters|
    ensures CyrToLatFrom(s, i, NoSpan, letters) == letters[i] + CyrToLatFrom(s, i + 1, NoSpan, letters)
  {
  }

  /** "Njegoš" becomes "Његош": nj merges into њ, upper-case like the N. */
  lemma NjegosToCyrillic(t: string)
    requires t == "Njegoš"
    ensures LatinToCyrillic.ToCyrillic(t, EngineMatcher) == "Његош"
  {
    NjegosLatinNoSpan(t);
    NjegosCyrillicWithin(t, EngineMatcher);
  }

  lemma NjegosCyrillicWithin(t: string, skip: SkipOracle)
    requires t == "Njegoš" && NoSpanIn(t, skip, 0, |t|)
    ensures LatinToCyrillic.ToCyrillic(t, skip) == "Његош"
  {
    NjegosBack(t, "Његош");
    LatinToCyrillicFacts.ToCyrillicWithoutSpans(t, skip);
  }

  lemma NjegosLatinNoSpan(t: string)
    requires t == "Njegoš"
    ensures NoSpanIn(t, EngineMatcher, 0, |t|)
  {
    NjegosLatinHasNoMarkers(t);
    EngineNoSpanIn(t, 0, |t|);
  }

  lemma NjegosLatinHasNoMarkers(t: string)
    requires t == "Njegoš"
    ensures forall k :: 0 <= k < |t| ==> !IsMarker(t[k])
  {
  }

  /** The round trip of "Његош" through "Njegoš". */
  lemma NjegosBack(t: string, s: string)
    requires t == "Njegoš" && s == "Његош"
    ensures LatinToCyrillic.ToCyrillic(t, NoSpan) == s
  {
    NjegosLatin(s);
    NjegosTransliterable(s);
    NjegosNoException(t);
    RoundTripCyrillic(s);
  }

  /**
   * The digraph letters of "Џак Љубави" and "Џак ЉУБАВИ": the second Latin
   * letter is upper-case only before an upper-case letter, and in the other
   * direction the pair merges whatever the case of its second letter.
   */
  lemma LjubaviCase()
    ensures CyrillicToLatin.LatinOf('Џ', Some('а')) == "Dž"
    ensures CyrillicToLatin.LatinOf('Љ', Some('у')) == "Lj"
    ensures CyrillicToLatin.LatinOf('Љ', Some('У')) == "LJ"
    ensures LatinToCyrillic.DoubleOf('D', 'ž') == Some('Џ')
    ensures LatinToCyrillic.DoubleOf('L', 'j') == Some('Љ') && LatinToCyrillic.DoubleOf('L', 'J') == Some('Љ')
  {
  }

  lemma NjegosTransliterable(s: string)
    requires s == "Његош"
    ensures forall k :: 0 <= k < |s| ==> Transliterable(s[k])
    ensures forall k :: 0 <= k < |s| - 1 ==> !ReadsAsDigraphAt(s, k)
  {
  }

  /** Where no window of five characters or more is an exception, none starts. */
  lemma NoLongException(t: string, k: nat)
    requires k <= |t|
    requires forall l :: 5 <= l <= LatinToCyrillic.CheckLen(t, k) ==> !LatinToCyrillic.ExceptionAt(t, k, l)
    ensures LatinToCyrillic.LongestException(t, k).None?
  {
    LatinToCyrillic.LongestExceptionIsLongest(t, k);
    ExceptionLengths();
  }

  lemma NjegosNoException(t: string)
    requires t == "Njegoš"
    ensures forall k :: 0 <= k < |t| ==> LatinToCyrillic.LongestException(t, k).None?
  {
    assert LowerStr(t[0..5]) == "njego" && LowerStr(t[0..6]) == "njegoš" && LowerStr(t[1..6]) == "jegoš";
    forall k | 0 <= k < |t|
      ensures LatinToCyrillic.LongestException(t, k).None?
    {
      NoLongException(t, k);
    }
  }
}
