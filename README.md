# cirko — Serbian Cyrillic/Latin transliteration, modelled in Dafny

cirko converts Serbian text between the Cyrillic and the Latin alphabet.
Its engine (`src/lib.rs`) has two directions:

- `cyr_to_lat` replaces every Cyrillic letter by its Latin form: one
  letter, or one of the digraphs lj, nj and dž for љ, њ and џ. The first Latin
  letter takes the case of the Cyrillic one. A digraph's second letter is
  upper-case only when the next source character is.
- `lat_to_cyr` replaces Latin letters by Cyrillic ones. With the help of
  `process_char` it merges the digraphs lj, nj and dž into one letter,
  upper-case when the first letter of the pair is. Merging is suppressed in
  the fragments of a fixed exception list ("tanjug", "džubori", …), which are
  converted letter by letter up to their end (the `skip_until` marker).

In both directions, parts of the text that must stay as they are (web
addresses, e-mail addresses, hashtags, LaTeX commands and environments,
inline math) are recognised by `find_skip_match`, an ordered list of
anchored patterns, and copied unchanged.

The model is organised as follows:

- `tables.dfy` (module `Tables`): the two tables and the exception list, with
  the facts that make them inverse to each other.
- `case_fold.dfy` (module `CaseFold`): the simple case mapping the engine uses.
- `cyr_to_lat.dfy` (module `CyrillicToLatin`): `cyr_to_lat`, as a recursive
  specification and as the loop the source runs, proved equal.
- `lat_to_cyr.dfy` (module `LatinToCyrillic`): `process_char`, the
  descending exception search and `lat_to_cyr`, with the same two-level
  structure.
- `lat_props.dfy` (modules `LatinToCyrillicFacts` and
  `LatinToCyrillicExamples`): whole-text properties of `lat_to_cyr`, and the
  exception words of its unit tests.
- `skip_spans.dfy` (module `SkipSpans`): the seven skip patterns and
  `find_skip_match`. The converters are proved for any matcher that never
  reports an empty span or one past the end of the text (`SkipOracle`);
  `EngineMatcher` is the engine's own matcher.
- `skip_examples.dfy` (module `SkipExamples`): the spans of the skip tests.
- `round_trip.dfy` (modules `RoundTrip` and `RoundTripExamples`): Cyrillic
  converted to Latin and back, and the "Његош"/"Njegoš" test.

Text is a sequence of code points. The source's UTF-8 byte offsets are
modelled as character indices (see "Left out").

## Model

| member | source | states |
|---|---|---|
| Tables.CyrToLatInverse | src/lib.rs:5-71 | every Cyrillic letter's Latin form is a key of the reverse table, and that key maps back to the same letter |
| Tables.LatToCyrInverse | src/lib.rs:5-71 | every key of the reverse table is the Latin form of the letter it maps to, so the two tables are exact inverses |
| Tables.LatinFormShape | src/lib.rs:5-36 | every Cyrillic key is lower-case; every Latin form is one or two lower-case characters, and two exactly for љ, њ and џ |
| Tables.LatinKeyShape | src/lib.rs:38-71 | every reverse key is one or two lower-case characters; the two-character keys are exactly lj, nj and dž, and all three are present; every Cyrillic value is lower-case |
| CaseFold.ToLower | src/lib.rs:135 | an upper-case letter lower-cases to a different, lower-case character; every other character is left as it is; the result is never upper-case |
| CaseFold.ToUpper | src/lib.rs:143 | a lower-case letter upper-cases to a different, upper-case character; every other character is left as it is |
| CaseFold.CaseRoundTrip | src/lib.rs:134-154 | no character is both upper- and lower-case, and lower- and upper-casing undo each other on letters |
| CyrillicToLatin.LatinOf | src/lib.rs:134-161 | a source character yields one or two Latin characters, two exactly for љ, њ and џ in either case; a character outside the alphabet is copied unchanged |
| CyrillicToLatin.LatinCaseRule | src/lib.rs:134-159 | a letter's Latin form lower-cases to the table entry; its first character is upper-case iff the letter is; a digraph's second character is upper-case iff a next character exists and is upper-case |
| CyrillicToLatin.ToLatinLength | src/lib.rs:116-165 | the Latin text has at least as many and at most twice as many characters as the source, whatever the skip spans |
| CyrillicToLatin.ToLatinWithoutSpans | src/lib.rs:121-133 | where the matcher finds no span, the Latin text is the same as with a matcher that never matches |
| CyrillicToLatin.ToLatinIdentity | src/lib.rs:161 | a text without Cyrillic letters comes out unchanged, whatever the skip spans |
| CyrillicToLatin.CyrToLat | src/lib.rs:116-165 | the loop with its peekable iterator produces exactly the specified Latin text |
| CyrillicToLatin.CyrToLatStep | src/lib.rs:121-162 | one turn of the loop: where a span starts, it is appended verbatim and the iterator moves past it; elsewhere the character's Latin form is appended and the iterator moves one on; the scan's final result is unchanged |
| CyrillicToLatin.CopySpan | src/lib.rs:122-132 | a skip span is appended verbatim and the iterator is advanced past all of its characters |
| CyrillicToLatin.PushLatin | src/lib.rs:134-161 | the letter branch appends exactly the character's Latin form; the early return is the `continue` after an upper-case second letter |
| LatinToCyrillic.SinglePassThrough | src/lib.rs:248-257 | a character whose lower-case form has no entry is copied unchanged |
| LatinToCyrillic.SingleCase | src/lib.rs:247-254 | a single letter is converted to the table's letter, upper-case iff the source character is |
| LatinToCyrillic.DigraphMerge | src/lib.rs:229-242 | a pair merges iff its lower-case form is lj, nj or dž; the merged letter lower-cases to the table's letter and is upper-case iff the pair's first character is |
| LatinToCyrillic.ProcessChar | src/lib.rs:219-258 | with merging allowed and a next character forming a digraph, one merged letter is appended and the lookahead consumed; otherwise the single conversion is appended and only the character consumed |
| LatinToCyrillic.CheckLen | src/lib.rs:195-196 | the exception window is the longest exception's length, or the rest of the text when that is shorter |
| LatinToCyrillic.LongestException | src/lib.rs:194-206 | an exception found at a position is non-empty and fits in the text |
| LatinToCyrillic.ExceptionIsFound | src/lib.rs:194-206 | every exception that starts at a position and fits in the text is found there, and the one found is at least as long |
| LatinToCyrillic.ExceptionAtIgnoresCase | src/lib.rs:200-201 | whether a fragment is an exception does not depend on the case of its characters |
| LatinToCyrillic.LongestExceptionIgnoresCase | src/lib.rs:194-206 | the exception found at a position is the same for two texts that differ only in case |
| LatinToCyrillic.LongestUpToIsLongest | src/lib.rs:199-206 | the descending search returns an exception of length between 1 and the bound, with no longer exception up to the bound; when it returns none, no prefix up to the bound is an exception |
| LatinToCyrillic.LongestExceptionIsLongest | src/lib.rs:194-206 | the exception found at a position is the longest one inside the window, and when none is found no prefix in the window is an exception |
| LatinToCyrillic.FindException | src/lib.rs:194-206 | the descending loop with its `break` returns the longest exception of the window, or none |
| LatinToCyrillic.LatToCyr | src/lib.rs:167-217 | the loop with its iterator and `skip_until` marker produces exactly the specified Cyrillic text |
| LatinToCyrillic.LatToCyrStep | src/lib.rs:173-213 | one turn of the loop appends the turn's text and moves the iterator and the marker as the turn says |
| LatinToCyrillic.CopySpan | src/lib.rs:174-184 | a skip span is appended verbatim and the iterator is advanced past all of its characters |
| LatinToCyrillic.ConvertAt | src/lib.rs:187-213 | outside spans, the character is converted singly before the marker, singly at an exception (moving the marker to its end), and with merging elsewhere |
| LatinToCyrillic.LatToCyrTurn | src/lib.rs:173-213 | each turn consumes at least one character and stays within the text, the marker never moves back, and the text appended is at most one character per character consumed and at least one per two |
| LatinToCyrillic.ConvertTurn | src/lib.rs:187-213 | outside spans a turn appends exactly one character, consumes two only when the pair merges, and never moves the marker back |
| LatinToCyrillicFacts.TurnRules | src/lib.rs:173-213 | the turn at each position, case by case, in terms of the source's own lookups: a span is copied; before the marker a single conversion; at an exception a single conversion and the marker moved to its end; otherwise the merged digraph or the single conversion |
| LatinToCyrillicFacts.ToCyrillicLength | src/lib.rs:167-217 | the Cyrillic text has at most as many characters as the source and at least half as many |
| LatinToCyrillicFacts.SinglesInRead | src/lib.rs:189-192 | the single conversions recorded for a stretch of the text are that stretch converted character by character |
| LatinToCyrillicFacts.SinglesOfText | src/lib.rs:219-258 | the single conversions recorded for the whole text are the text converted character by character |
| LatinToCyrillicFacts.BeforeMarker | src/lib.rs:187-192 | before the marker every character is converted singly, so no digraph merges there, as long as no span starts on the way |
| LatinToCyrillicFacts.MarkedTurn | src/lib.rs:189-192 | before the marker a character outside spans is converted singly and the marker stays |
| LatinToCyrillicFacts.DigraphStartsWithLetter | src/lib.rs:38-71 | the first letter of every digraph key has an entry of its own |
| LatinToCyrillicFacts.ToCyrillicWithoutSpans | src/lib.rs:173-185 | where the matcher finds no span, the Cyrillic text is the same as with a matcher that never matches |
| LatinToCyrillicFacts.ToCyrillicIdentity | src/lib.rs:255-257 | a text in which no character has an entry comes out unchanged, whatever the skip spans |
| LatinToCyrillicFacts.ExceptionConvertsSingly | src/lib.rs:187-213 | at an exception found at or after the marker, with no skip span starting inside the fragment, every character of the fragment is converted singly, and the scan goes on after the fragment with the marker at its end |
| LatinToCyrillicFacts.FragmentSingly | src/lib.rs:187-213 | once an exception of a given length is recorded, that many characters are converted singly and the marker ends at the fragment's end |
| LatinToCyrillicFacts.ExceptionTurn | src/lib.rs:208-210 | at an exception the character is converted singly and the marker moves to the exception's end |
| LatinToCyrillicFacts.PlainTurn | src/lib.rs:211-213 | a character outside spans that neither starts an exception nor merges is converted singly |
| LatinToCyrillicFacts.ExceptionToEnd | src/lib.rs:187-213 | an exception that runs to the end of the text converts the rest of it singly |
| LatinToCyrillicExamples.OdzuboriStartsPlain | src/lib.rs:319-322 | no exception starts at the first letter of "Odžubori" |
| LatinToCyrillicExamples.OdzuboriException | src/lib.rs:319-322 | the longest exception at the second letter of "Odžubori" is "džubori", seven characters running to its end |
| LatinToCyrillicExamples.OdzuboriLetters | src/lib.rs:319-322 | O and d do not merge, and "Odžubori" converted letter by letter is "Оджубори" |
| LatinToCyrillicExamples.OdzuboriExample | src/lib.rs:319-322 | "Odžubori" becomes "Оджубори": the dž inside the exception does not merge |
| LatinToCyrillicExamples.FirstThenException | src/lib.rs:187-213 | a text with no skip span, whose first letter neither starts an exception nor merges, with an exception spanning the rest, is converted letter by letter |
| LatinToCyrillicExamples.WholeException | src/lib.rs:187-213 | a text with no skip span that is one exception fragment is converted letter by letter |
| LatinToCyrillicExamples.TanjugException | src/lib.rs:315-318 | the whole of "Tanjug" is the exception "tanjug" |
| LatinToCyrillicExamples.TanjugLetters | src/lib.rs:315-318 | "Tanjug" converted letter by letter is "Танјуг" |
| LatinToCyrillicExamples.TanjugExample | src/lib.rs:315-318 | "Tanjug" becomes "Танјуг": the nj inside the exception does not merge |
| SkipSpans.Run | src/lib.rs:91-109 | a greedy repetition takes characters of its class up to the first one outside it or the end of the text |
| SkipSpans.MatchUrl | src/lib.rs:96 | a web address match is non-empty and within the text |
| SkipSpans.UrlAfterScheme | src/lib.rs:96 | after the scheme, a match extends past the scheme and stays within the text |
| SkipSpans.HostTry | src/lib.rs:96 | a host backing off from its greedy length ends its match past the host's start and within the text |
| SkipSpans.TldTry | src/lib.rs:96 | a top-level domain backing off until a word boundary ends its match past its start and within the text |
| SkipSpans.MatchEmail | src/lib.rs:100 | an e-mail match is non-empty and within the text |
| SkipSpans.DomainTry | src/lib.rs:100 | a domain backing off until a dot and two letters follow ends its match past its start and within the text |
| SkipSpans.MatchHashtag | src/lib.rs:102 | a hashtag match is non-empty and within the text |
| SkipSpans.MatchEnvironment | src/lib.rs:104-105 | a `\begin{…}` or `\end{…}` match is non-empty and within the text |
| SkipSpans.MatchCommand | src/lib.rs:106 | a LaTeX command match is non-empty and within the text |
| SkipSpans.MatchMath | src/lib.rs:107 | an inline-math match is non-empty and within the text |
| SkipSpans.FindSkipMatch | src/lib.rs:260-267 | the span the engine reports is never empty and never runs past the end of the text, so it is a valid skip matcher |
| SkipSpans.NoSpanInWithin | src/lib.rs:121-133 | a stretch without spans has none in any stretch inside it |
| SkipSpans.HostTryWithoutDot | src/lib.rs:96 | without a dot after its start, the host never finds a top-level domain |
| SkipSpans.UrlWithoutDot | src/lib.rs:96 | a web address needs a dot after its first character |
| SkipSpans.EnvironmentNeedsBackslash | src/lib.rs:104-105 | a LaTeX environment starts with a backslash |
| SkipSpans.EngineWithoutMarkers | src/lib.rs:91-109 | the engine finds no span in a text without dots, `@`, `#`, backslashes and `$` |
| SkipSpans.EngineNoSpanIn | src/lib.rs:260-267 | no span starts anywhere in a text without those marker characters |
| SkipSpans.Advance | src/lib.rs:181-183 | the `for _ in 0..count { chars.next(); }` loop moves the iterator exactly `count` characters on |
| SkipExamples.RunIs | src/lib.rs:91-109 | a greedy run is exactly as long as the stretch of its class that ends where the class fails or the text ends |
| SkipExamples.RunOver | src/lib.rs:91-109 | a greedy run over a known piece of text, ended by a character outside the class, takes exactly that piece |
| SkipExamples.HostTryBack | src/lib.rs:96 | backing off over host lengths not followed by a dot gives the same result as starting from the shorter length |
| SkipExamples.UrlNeedsHostStart | src/lib.rs:96 | a web address without a scheme starts with a host character |
| SkipExamples.NoScheme | src/lib.rs:96 | a text that does not start with h has no scheme |
| SkipExamples.EmailNeedsLocalStart | src/lib.rs:100 | an e-mail address starts with a character of its local part |
| SkipExamples.EnvironmentNeedsKeyword | src/lib.rs:104-105 | a LaTeX environment names its keyword right after the backslash |
| SkipExamples.MarkedPatterns | src/lib.rs:102-106 | no hashtag, command or environment starts with a character other than `#` or a backslash |
| SkipExamples.FirstMatchUrl | src/lib.rs:260-267 | when the web-address pattern matches, its match decides the span |
| SkipExamples.FirstMatchHashtag | src/lib.rs:260-267 | when only the hashtag pattern and later ones match, the hashtag decides the span |
| SkipExamples.FirstMatchEnvironment | src/lib.rs:260-267 | when the first three patterns fail and `\begin{…}` matches, it decides the span |
| SkipExamples.FirstMatchCommand | src/lib.rs:260-267 | when the first five patterns fail, the command pattern decides the span, and inline math when it fails too |
| SkipExamples.UrlSpan | src/lib.rs:326-334 | `https://igordejanovic.net/` followed by a space is one span of 26 characters, its path included |
| SkipExamples.UrlHost | src/lib.rs:326-334 | after the scheme, the host backs off to `igordejanovic` before `.net` |
| SkipExamples.UrlHostRun | src/lib.rs:326-334 | the greedy host takes `igordejanovic.net` and stops at the slash |
| SkipExamples.UrlTld | src/lib.rs:326-334 | `net` is the top-level domain, a word boundary follows it, and the path is the slash |
| SkipExamples.EmailSpan | src/lib.rs:337-346 | `neko@negde.net` followed by a space is one span of 14 characters, which the web-address pattern matches first |
| SkipExamples.EmailHost | src/lib.rs:337-346 | without a scheme, the host backs off to `neko@negde` before `.net` |
| SkipExamples.EmailHostRun | src/lib.rs:337-346 | the greedy host takes all of `neko@negde.net` |
| SkipExamples.EmailTld | src/lib.rs:337-346 | `net` is the top-level domain, a word boundary follows it, and no path |
| SkipExamples.HashtagSpan | src/lib.rs:337-346 | `#supercool` followed by a space is one span of 10 characters |
| SkipExamples.HashtagNotUrl | src/lib.rs:337-346 | `#` is a host character, but no dot follows, so `#supercool` is no web address |
| SkipExamples.HashtagHost | src/lib.rs:337-346 | the greedy host takes all of `#supercool` |
| SkipExamples.HashtagMatch | src/lib.rs:337-346 | `#supercool` is no e-mail address and is a hashtag of 10 characters |
| SkipExamples.EnvironmentSpan | src/lib.rs:349-370 | `\begin{itemize}` is one span of 15 characters |
| SkipExamples.EnvironmentMatch | src/lib.rs:349-370 | `\begin{itemize}` matches the environment pattern with 15 characters |
| SkipExamples.CommandSpan | src/lib.rs:372-378 | `\ljuljaška` followed by a space is one span of 10 characters, counted in characters, š being a word character |
| SkipExamples.CommandMatch | src/lib.rs:372-378 | `\ljuljaška` matches the command pattern with 10 characters |
| SkipExamples.MathSpan | src/lib.rs:349-370 | `$E=mc^2$` is one span of 8 characters |
| SkipExamples.MathMatch | src/lib.rs:349-370 | `$E=mc^2$` matches the inline-math pattern with 8 characters |
| RoundTrip.LetterBack | src/lib.rs:5-71 | a letter's Latin form reads back as that letter: a two-character form merges into it, a one-character form converts into it |
| RoundTrip.LatinFirst | src/lib.rs:5-71 | the first Latin character of a letter, lower-cased, is j only for ј, ž only for ж, and a single l, n or d only for л, н or д |
| RoundTrip.NoMergeBetween | src/lib.rs:229-242 | the Latin forms of two neighbouring letters do not merge across their boundary unless the letters are л or н before ј, or д before ж |
| RoundTrip.BackFrom | src/lib.rs:167-217 | when, from some position on, the Latin forms read back as the source letters, `lat_to_cyr` gives back the rest of the source |
| RoundTrip.FormAt | src/lib.rs:116-165 | where a source letter's Latin form starts in the Latin text, its characters and the start of the next form are there |
| RoundTrip.ReadingBackAt | src/lib.rs:5-71 | at the start of each Latin form, no exception starts, and the form's merge or single conversion is the source letter |
| RoundTrip.ReadsBackFrom | src/lib.rs:167-217 | when each form reads back where it starts, the whole rest of the Latin text reads back form by form |
| RoundTrip.RoundTripCyrillic | src/lib.rs:5-217 | without skip spans, a Cyrillic text of letters and unmapped characters, in which no л or н precedes ј, no д precedes ж and no exception occurs in its Latin form, comes back unchanged from Latin |
| RoundTrip.LatinReadsBack | src/lib.rs:167-217 | the Latin text of such a source reads back as the source, form by form |
| RoundTripExamples.NjegosToLatin | src/lib.rs:283 | "Његош" becomes "Njegoš": the digraph's second letter is lower-case before a lower-case letter |
| RoundTripExamples.NjegosLatin | src/lib.rs:283 | without spans, the Latin text of "Његош" is "Njegoš" |
| RoundTripExamples.NjegosLetters | src/lib.rs:283 | the Latin forms of the letters of "Његош" are Nj, e, g, o, š |
| RoundTripExamples.NjegosToCyrillic | src/lib.rs:304 | "Njegoš" becomes "Његош": nj merges into an upper-case Њ |
| RoundTripExamples.NjegosBack | src/lib.rs:304 | without spans, "Njegoš" converts back to "Његош" by the round trip |
| RoundTripExamples.NjegosTransliterable | src/lib.rs:283 | every character of "Његош" is a Serbian Cyrillic letter or unknown to both tables, and no neighbouring pair reads as a digraph in Latin |
| Tables.ExceptionLengths | src/lib.rs:74-88 | every exception has between five and nine characters, and "onjugacij" has exactly nine, the longest exception's length |
| RoundTripExamples.NoLongException | src/lib.rs:194-206 | where no window of five characters or more is an exception, no exception is found |
| RoundTripExamples.NjegosNoException | src/lib.rs:304 | no exception starts anywhere in "Njegoš" |
| RoundTripExamples.LjubaviCase | src/lib.rs:286-309 | Џ before а gives Dž, Љ before у gives Lj and before У gives LJ; back in Cyrillic, Dž, Lj and LJ merge into Џ and Љ whatever the case of their second letter |

## Left out

- `src/main.rs`, the command-line layer, is not part of this model. It covers reading a file or standard input, the direction flags, choosing the direction when none is given, and writing the result. That choice picks Cyrillic to Latin when any character lies in а..ш or А..Ш, a range that leaves out ђ, ј, љ, њ, ћ and џ.
- Byte offsets: the source indexes the text by UTF-8 bytes. This covers `char_indices`, the remaining length, the exception window and `input.get`, `skip_until`, and the match end of `find_skip_match`. The model indexes it by characters instead. Every exception is at most 9 bytes and at most 9 characters long, so both windows admit the same fragments, and `input.get` refuses exactly the byte ranges that are not whole characters. The character count of a skipped span is its length in the model.
- CaseFold.ToLower: Unicode case mapping is modelled only on ASCII, on the Cyrillic block U+0400..U+045F and on Ć, Č, Đ, Š, Ž. Other characters are treated as caseless. A few characters outside these blocks lower-case to a table key, such as the Kelvin sign (to k) and the dotted capital İ (to i and a combining dot). The source converts them and the model copies them. Caselessness also changes the case of a digraph before such a character: for "ЉÉ" the source gives "LJÉ", because it tests whether the next character is upper-case, while the model gives "LjÉ".
- SkipSpans.IsWordChar: `\w` follows the Unicode definition only on ASCII, Latin-1, Latin Extended-A/B, the combining diacritics and the Cyrillic blocks. Word characters of other scripts are treated as non-word characters.
- The regex engine: the seven patterns are hand-written as leftmost-first matchers with greedy repetition and backing off. The engine itself, its compilation and its `once_cell` initialisation are not modelled, and the `phf` maps and set are Dafny functions and sets.
- SkipSpans.MatchUrl, SkipSpans.UrlAfterScheme, SkipSpans.HostTry, SkipSpans.TldTry, SkipSpans.MatchEmail, SkipSpans.DomainTry, SkipSpans.MatchHashtag, SkipSpans.MatchEnvironment, SkipSpans.MatchCommand, SkipSpans.MatchMath: the contracts state only that a match is non-empty and within the text. What each pattern accepts is its body, and the example lemmas of `SkipExamples` pin it down on the texts of the unit tests.
- LatinToCyrillic.LatToCyrTurn, LatinToCyrillic.ConvertTurn: the contracts state only bounds. LatinToCyrillicFacts.TurnRules states each turn in full.
- RoundTrip.RoundTripCyrillic: the round trip is proved only without skip spans. It also requires that no л or н precedes ј, no д precedes ж, and no exception fragment occurs in the Latin text. A text that breaks one of these conditions does not come back: "љ" and "лј" both become "lj", and "оџиве" becomes "odžive", which comes back as "одживе". The Latin-to-Cyrillic-to-Latin direction is not stated: "Dž" and "DŽ" both become "Џ".
- The whole sentences of the unit tests are not stated as lemmas. The model states the words and spans that carry the behaviour each test is about: "Njegoš", "Tanjug", "Odžubori", the Џак/Љубави digraphs and each skip span. Evaluating a whole sentence through the recursive definitions is beyond the verifier's resource limit.
- `String::with_capacity` preallocation has no observable effect and is not modelled.
