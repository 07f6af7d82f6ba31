/**
 * Latin to Cyrillic (`lat_to_cyr` and `process_char`).
 *
 * The text is scanned one character at a time. A skip span starting at the
 * cursor is copied as it is. Otherwise the character is converted by
 * `process_char`, which looks the lower-cased character up in the table and,
 * when merging is allowed, first tries the lower-cased pair it forms with the
 * next character, so that the digraphs lj, nj and dž become one letter. Merging
 * is suppressed at the start of an exception fragment and up to its end, the
 * `skip_until` marker.
 */
module LatinToCyrillic {
  import opened Wrappers
  import opened CaseFold
  import opened Tables
  import opened SkipSpans
  import opened SeqFacts

  // ---------------------------------------------------------------------------
  // One character: `process_char`

  /** The table's lower-case letter `cyr`, in the case of the source character `c`. */
  function Recase(c: char, cyr: char): char {
    if IsUpper(c) then ToUpper(cyr) else cyr
  }

  /** `process_char` without a merge: the letter for `c` alone, or `c` when it has none. */
  function SingleOf(c: char): char {
    match LatToCyrChar([ToLower(c)])
    case Some(cyr) => Recase(c, cyr)
    case None => c
  }

  /** The merged letter for `a` followed by `b`, when their lower-case pair is a table key. */
  function DoubleOf(a: char, b: char): Option<char> {
    match LatToCyrChar([ToLower(a), ToLower(b)])
    case Some(cyr) => Some(Recase(a, cyr))
    case None => None
  }

  /** A character without a single-letter entry is copied unchanged. */
  lemma SinglePassThrough(c: char)
    requires LatToCyrChar([ToLower(c)]).None?
    ensures SingleOf(c) == c
  {
  }

  /**
   * A single letter keeps its case: the result is upper-case exactly when `c`
   * is, and lower-cases to the table's letter.
   */
  lemma SingleCase(c: char)
    requires LatToCyrChar([ToLower(c)]).Some?
    ensures ToLower(SingleOf(c)) == LatToCyrChar([ToLower(c)]).value
    ensures IsUpper(SingleOf(c)) <==> IsUpper(c)
  {
    LatinKeyShape();
    CaseRoundTrip(LatToCyrChar([ToLower(c)]).value);
  }

  /**
   * Digraph merging: a pair merges exactly when its lower-case form is lj, nj
   * or dž, and the merged letter is upper-case exactly when the pair's first
   * character is.
   */
  lemma DigraphMerge(a: char, b: char)
    ensures DoubleOf(a, b).Some? <==> [ToLower(a), ToLower(b)] in Digraphs
    ensures DoubleOf(a, b).Some? ==> (IsUpper(DoubleOf(a, b).value) <==> IsUpper(a))
    ensures DoubleOf(a, b).Some? ==> ToLower(DoubleOf(a, b).value) == LatToCyrChar([ToLower(a), ToLower(b)]).value
  {
    LatinKeyShape();
    var key := [ToLower(a), ToLower(b)];
    if LatToCyrChar(key).Some? {
      CaseRoundTrip(LatToCyrChar(key).value);
    }
  }

  /**
   * `process_char(c, chars, output, doubles)` where `c` is `input[pos]` and the
   * iterator stands before `pos + 1`: appends one character and answers where
   * the iterator stands afterwards. The early `return` is the merge.
   */
  method ProcessChar(input: string, pos: nat, c: char, output: string, doubles: bool) returns (next: nat, r: string)
    requires pos < |input| && c == input[pos]
    ensures doubles && pos + 1 < |input| && DoubleOf(c, input[pos + 1]).Some? ==>
      next == pos + 2 && r == output + [DoubleOf(c, input[pos + 1]).value]
    ensures !(doubles && pos + 1 < |input| && DoubleOf(c, input[pos + 1]).Some?) ==>
      next == pos + 1 && r == output + [SingleOf(c)]
  {
    next := pos + 1;
    var buffer := [ToLower(c)];
    if doubles && next < |input| {
      var nextC := input[next];
      buffer := buffer + [ToLower(nextC)];
      match LatToCyrChar(buffer) {
        case Some(cyr) =>
          r := output + [if IsUpper(c) then ToUpper(cyr) else cyr];
          next := next + 1;
          return;
        case None =>
      }
      buffer := buffer[..1];
    }
    match LatToCyrChar(buffer) {
      case Some(cyr) =>
        r := output + [if IsUpper(c) then ToUpper(cyr) else cyr];
      case None =>
        r := output + [c];
    }
  }

  // ---------------------------------------------------------------------------
  // Exceptions

  /** The `len` characters at `pos`, lower-cased, form an exception. */
  predicate ExceptionAt(s: string, pos: nat, len: nat)
    requires pos + len <= |s|
  {
    LowerStr(s[pos..pos + len]) in Exceptions
  }

  /** `check_len`: the exception window at `pos`. */
  function CheckLen(s: string, pos: nat): (r: nat)
    requires pos <= |s|
    ensures r <= MaxExceptionLen && pos + r <= |s|
    ensures r == MaxExceptionLen || pos + r == |s|
  {
    Min(MaxExceptionLen, |s| - pos)
  }

  /** The longest exception at `pos` of length at most `len`. */
  function LongestUpTo(s: string, pos: nat, len: nat): (r: Option<nat>)
    requires pos + len <= |s|
    ensures r.Some? ==> 1 <= r.value <= len
    decreases len
  {
    if len == 0 then None
    else if ExceptionAt(s, pos, len) then Some(len)
    else LongestUpTo(s, pos, len - 1)
  }

  /** `found_exception`: the length of the longest exception starting at `pos`, if any. */
  function LongestException(s: string, pos: nat): (r: Option<nat>)
    requires pos <= |s|
    ensures r.Some? ==> 1 <= r.value && pos + r.value <= |s|
  {
    LongestUpTo(s, pos, CheckLen(s, pos))
  }

  /** The search down from `len` finds the longest exception no longer than `len`, or says there is none. */
  lemma {:induction false} LongestUpToIsLongest(s: string, pos: nat, len: nat)
    requires pos + len <= |s|
    ensures var r := LongestUpTo(s, pos, len);
      && (r.Some? ==> 1 <= r.value <= len && ExceptionAt(s, pos, r.value))
      && (r.Some? ==> forall l :: r.value < l <= len ==> !ExceptionAt(s, pos, l))
      && (r.None? ==> forall l :: 1 <= l <= len ==> !ExceptionAt(s, pos, l))
    decreases len
  {
    if len > 0 && !ExceptionAt(s, pos, len) {
      LongestUpToIsLongest(s, pos, len - 1);
    }
  }

  /**
   * The exception found at `pos` is the longest one inside the window: it is
   * an exception, no longer one fits the window, and when none is found no
   * prefix in the window is one.
   */
  lemma LongestExceptionIsLongest(s: string, pos: nat)
    requires pos <= |s|
    ensures var r := LongestException(s, pos);
      && (r.Some? ==> 1 <= r.value <= CheckLen(s, pos) && ExceptionAt(s, pos, r.value))
      && (r.Some? ==> forall l :: r.value < l <= CheckLen(s, pos) ==> !ExceptionAt(s, pos, l))
      && (r.None? ==> forall l :: 1 <= l <= CheckLen(s, pos) ==> !ExceptionAt(s, pos, l))
  {
    LongestUpToIsLongest(s, pos, CheckLen(s, pos));
  }

  /** Every exception that starts at `pos` and fits in the text is found, and the one found is at least as long. */
  lemma ExceptionIsFound(s: string, pos: nat, len: nat)
    requires 1 <= len && pos + len <= |s| && ExceptionAt(s, pos, len)
    ensures LongestException(s, pos).Some? && len <= LongestException(s, pos).value
  {
    ExceptionLengths();
    assert |LowerStr(s[pos..pos + len])| == len;
    LongestExceptionIsLongest(s, pos);
  }

  /** Whether a fragment is an exception does not depend on the case of its characters. */
  lemma ExceptionAtIgnoresCase(s: string, t: string, pos: nat, len: nat)
    requires |s| == |t| && pos + len <= |s|
    requires forall k :: 0 <= k < |s| ==> ToLower(s[k]) == ToLower(t[k])
    ensures ExceptionAt(s, pos, len) == ExceptionAt(t, pos, len)
  {
    var a, b := LowerStr(s[pos..pos + len]), LowerStr(t[pos..pos + len]);
    forall k | 0 <= k < len
      ensures a[k] == b[k]
    {
      assert s[pos..pos + len][k] == s[pos + k] && t[pos..pos + len][k] == t[pos + k];
    }
    assert a == b;
  }

  /** The exception found at `pos` does not depend on the case of the text. */
  lemma LongestExceptionIgnoresCase(s: string, t: string, pos: nat)
    requires |s| == |t| && pos <= |s|
    requires forall k :: 0 <= k < |s| ==> ToLower(s[k]) == ToLower(t[k])
    ensures LongestException(s, pos) == LongestException(t, pos)
  {
    LongestUpToIgnoresCase(s, t, pos, CheckLen(s, pos));
  }

  lemma {:induction false} LongestUpToIgnoresCase(s: string, t: string, pos: nat, len: nat)
    requires |s| == |t| && pos + len <= |s|
    requires forall k :: 0 <= k < |s| ==> ToLower(s[k]) == ToLower(t[k])
    ensures LongestUpTo(s, pos, len) == LongestUpTo(t, pos, len)
    decreases len
  {
    if len > 0 {
      ExceptionAtIgnoresCase(s, t, pos, len);
      LongestUpToIgnoresCase(s, t, pos, len - 1);
    }
  }

  /** The descending search of `lat_to_cyr` for an exception at `pos`. */
  method FindException(input: string, pos: nat) returns (found: Option<nat>)
    requires pos < |input|
    ensures found == LongestException(input, pos)
  {
    var checkLen := Min(MaxExceptionLen, |input| - pos);
    found := None;
    var len := checkLen;
    while len >= 1
      invariant len <= checkLen && found == None
      invariant forall l :: len < l <= checkLen ==> !ExceptionAt(input, pos, l)
    {
      if LowerStr(input[pos..pos + len]) in Exceptions {
        found := Some(len);
        break;
      }
      len := len - 1;
    }
    var longest := LongestException(input, pos);
    LongestExceptionIsLongest(input, pos);
    if found.Some? {
      assert ExceptionAt(input, pos, len);
      assert longest.Some? && longest.value == len;
    } else {
      assert longest.None?;
    }
  }

  // ---------------------------------------------------------------------------
  // The whole text

  /**
   * What `lat_to_cyr` can produce at one position outside skip spans: the
   * single letter, the merged letter of the pair starting there (if it is a
   * digraph and a next character exists), and the longest exception there.
   */
  datatype Reading = Reading(single: char, double: Option<char>, exception: Option<nat>)

  function ReadingAt(s: string, pos: nat): Reading
    requires pos < |s|
  {
    Reading(
      SingleOf(s[pos]),
      if pos + 1 < |s| then DoubleOf(s[pos], s[pos + 1]) else None,
      LongestException(s, pos))
  }

  /** A merge is only read where a next character exists. */
  predicate ValidReadings(s: string, readings: seq<Reading>) {
    |readings| == |s| && forall k :: 0 <= k < |s| && readings[k].double.Some? ==> k + 1 < |s|
  }

  /** The reading of every position of `s`. */
  function Readings(s: string): (r: seq<Reading>)
    ensures ValidReadings(s, r)
  {
    ReadingsIndex(s);
    ReadingsFrom(s, 0)
  }

  /** The readings of the positions from `i` on. */
  function ReadingsFrom(s: string, i: nat): (r: seq<Reading>)
    requires i <= |s|
    ensures |r| == |s| - i
    decreases |s| - i
  {
    if i == |s| then [] else [ReadingAt(s, i)] + ReadingsFrom(s, i + 1)
  }

  /** Every position's reading sits at its index. */
  lemma ReadingsIndex(s: string)
    ensures forall k :: 0 <= k < |s| ==> ReadingsFrom(s, 0)[k] == ReadingAt(s, k)
  {
    forall k | 0 <= k < |s|
      ensures ReadingsFrom(s, 0)[k] == ReadingAt(s, k)
    {
      ReadingsFromAt(s, 0, k);
    }
  }

  lemma {:induction false} ReadingsFromAt(s: string, i: nat, k: nat)
    requires i <= k < |s|
    ensures ReadingsFrom(s, i)[k - i] == ReadingAt(s, k)
    decreases k - i
  {
    if i < k {
      ReadingsFromAt(s, i + 1, k);
    }
  }

  /**
   * `readings` holds the reading of every position of `s`. The trigger lets a
   * proof use one position's reading only where it names that reading.
   */
  predicate ReadsAll(s: string, readings: seq<Reading>)
    requires |readings| == |s|
  {
    forall k {:trigger ReadingAt(s, k)} :: 0 <= k < |s| ==> readings[k] == ReadingAt(s, k)
  }

  lemma ReadingsReadAll(s: string)
    ensures ReadsAll(s, Readings(s))
  {
    ReadingsIndex(s);
  }

  /** One turn of the loop: the text it appends, where the cursor and the marker move to. */
  datatype Turn = Turn(text: string, next: nat, until: nat)

  /**
   * The turn at `i` with the marker at `until`: a skip span is copied and the
   * marker kept; before the marker the character is converted singly; at or
   * after it, an exception moves the marker to its end and the character is
   * converted singly; otherwise a digraph merges, or the character is
   * converted singly.
   */
  function LatToCyrTurn(s: string, i: nat, skip: SkipOracle, until: nat, readings: seq<Reading>): (t: Turn)
    requires i < |s| && ValidReadings(s, readings)
    ensures i < t.next <= |s|
    ensures |t.text| <= t.next - i <= 2 * |t.text|
    ensures t.until >= until
  {
    match skip(s[i..])
    case Some(n) => Turn(s[i..i + n], i + n, until)
    case None => ConvertTurn(i, until, readings[i])
  }

  /**
   * The turn at `i` outside skip spans, given the reading `rd` there: before
   * the marker the character is converted singly; at or after it, an
   * exception moves the marker to its end and the character is converted
   * singly; otherwise a digraph merges, or the character is converted singly.
   */
  function ConvertTurn(i: nat, until: nat, rd: Reading): (t: Turn)
    ensures t.next == i + 1 || (t.next == i + 2 && rd.double.Some?)
    ensures |t.text| == 1 && t.until >= until
  {
    if i < until then Turn([rd.single], i + 1, until)
    else if rd.exception.Some? then Turn([rd.single], i + 1, i + rd.exception.value)
    else if rd.double.Some? then Turn([rd.double.value], i + 2, until)
    else Turn([rd.single], i + 1, until)
  }

  /** The Cyrillic text for `s[i..]` when the scan reaches `i` with the marker at `until`. */
  function LatToCyrFrom(s: string, i: nat, skip: SkipOracle, until: nat, readings: seq<Reading>): string
    requires i <= |s| && ValidReadings(s, readings)
    decreases |s| - i
  {
    if i == |s| then []
    else
      var t := LatToCyrTurn(s, i, skip, until, readings);
      t.text + LatToCyrFrom(s, t.next, skip, t.until, readings)
  }

  /** `lat_to_cyr` on the whole text; the marker starts at 0. */
  function ToCyrillic(s: string, skip: SkipOracle): string {
    LatToCyrFrom(s, 0, skip, 0, Readings(s))
  }

  /**
   * The scan as the loop performs it: `done` is the text produced so far, and
   * each turn appends to it.
   */
  function LatToCyrScan(s: string, i: nat, skip: SkipOracle, until: nat, readings: seq<Reading>, done: string): string
    requires i <= |s| && ValidReadings(s, readings)
    decreases |s| - i
  {
    if i == |s| then done
    else
      var t := LatToCyrTurn(s, i, skip, until, readings);
      LatToCyrScan(s, t.next, skip, t.until, readings, done + t.text)
  }

  /** The loop's scan produces `done` followed by the Cyrillic text of the rest. */
  lemma {:induction false} ScanIsFrom(s: string, i: nat, skip: SkipOracle, until: nat, readings: seq<Reading>, done: string)
    requires i <= |s| && ValidReadings(s, readings)
    ensures LatToCyrScan(s, i, skip, until, readings, done) == done + LatToCyrFrom(s, i, skip, until, readings)
    decreases |s| - i
  {
    if i < |s| {
      var t := LatToCyrTurn(s, i, skip, until, readings);
      ScanIsFrom(s, t.next, skip, t.until, readings, done + t.text);
      AppendAssoc(done, t.text, LatToCyrFrom(s, t.next, skip, t.until, readings));
    }
  }

  /**
   * `lat_to_cyr`: the loop over the text with the peekable iterator modelled by
   * the index `i` of the next character it yields, and the marker `skipUntil`.
   */
  method LatToCyr(input: string, skip: SkipOracle) returns (output: string)
    ensures output == ToCyrillic(input, skip)
  {
    output := [];
    var i := 0;
    var skipUntil := 0;
    ghost var readings := Readings(input);
    ReadingsReadAll(input);
    while i < |input|
      invariant i <= |input|
      invariant LatToCyrScan(input, i, skip, skipUntil, readings, output) == LatToCyrScan(input, 0, skip, 0, readings, [])
      decreases |input| - i
    {
      i, skipUntil, output := LatToCyrStep(input, skip, readings, i, skipUntil, output);
    }
    ScanIsFrom(input, 0, skip, 0, readings, []);
    assert [] + ToCyrillic(input, skip) == ToCyrillic(input, skip);
  }

  /**
   * One turn of the `lat_to_cyr` loop: the iterator yields the character at
   * `pos`; a skip span starting there is copied and the iterator advanced past
   * it; otherwise the character is converted.
   */
  method LatToCyrStep(input: string, skip: SkipOracle, ghost readings: seq<Reading>, pos: nat, skipUntil: nat, output: string)
    returns (i: nat, until: nat, r: string)
    requires pos < |input| && ValidReadings(input, readings) && ReadsAll(input, readings)
    ensures var t := LatToCyrTurn(input, pos, skip, skipUntil, readings); i == t.next && until == t.until && r == output + t.text
  {
    var span := skip(input[pos..]);
    if span.Some? {
      i, r := CopySpan(input, pos, span.value, output);
      until := skipUntil;
    } else {
      i, until, r := ConvertAt(input, pos, skipUntil, output, readings[pos]);
    }
  }

  /**
   * The skip-span branch of the `lat_to_cyr` loop: the span's `n` characters
   * are appended and the iterator, which has already yielded the first of
   * them, is advanced over the others.
   */
  method CopySpan(input: string, pos: nat, n: nat, output: string) returns (i: nat, r: string)
    requires 1 <= n && pos + n <= |input|
    ensures i == pos + n && r == output + input[pos..pos + n]
  {
    r := output + input[pos..pos + n];
    i := Advance(pos + 1, n - 1);
  }

  /**
   * The rest of the turn, for a character outside skip spans: singly before the
   * marker or at an exception (which moves the marker to the exception's end),
   * and with merging elsewhere.
   */
  method ConvertAt(input: string, pos: nat, skipUntil: nat, output: string, ghost rd: Reading) returns (i: nat, until: nat, r: string)
    requires pos < |input| && rd == ReadingAt(input, pos)
    ensures var t := ConvertTurn(pos, skipUntil, rd); i == t.next && until == t.until && r == output + t.text
  {
    var c := input[pos];
    until := skipUntil;
    if pos < skipUntil {
      i, r := ProcessChar(input, pos, c, output, false);
      return;
    }
    var found := FindException(input, pos);
    if found.Some? {
      until := pos + found.value;
      i, r := ProcessChar(input, pos, c, output, false);
    } else {
      i, r := ProcessChar(input, pos, c, output, true);
    }
  }
}
