/**
 * Simple (one character to one character) case mapping, as the engine uses it
 * through `is_uppercase`, `to_lowercase().next()` and `to_uppercase()`.
 *
 * It is concrete on the characters the transliteration works with: the ASCII
 * letters, the Cyrillic block U+0400..U+045F (which holds all 30 letters of the
 * Serbian Cyrillic alphabet in both cases) and the five Latin letters with
 * diacritics of the Serbian Latin alphabet. Every other character is caseless.
 */
module CaseFold {
  /** Upper-case Ć, Č, Đ, Š, Ž; each one's lower-case form is the next code point. */
  predicate IsLatinDiacriticUpper(c: char) {
    c == 'Ć' || c == 'Č' || c == 'Đ' || c == 'Š' || c == 'Ž'
  }

  predicate IsLatinDiacriticLower(c: char) {
    c == 'ć' || c == 'č' || c == 'đ' || c == 'š' || c == 'ž'
  }

  predicate IsUpper(c: char) {
    'A' <= c <= 'Z' || '\U{0400}' <= c <= '\U{042F}' || IsLatinDiacriticUpper(c)
  }

  predicate IsLower(c: char) {
    'a' <= c <= 'z' || '\U{0430}' <= c <= '\U{045F}' || IsLatinDiacriticLower(c)
  }

  function ToLower(c: char): (r: char)
    ensures IsUpper(c) ==> IsLower(r) && r != c
    ensures !IsUpper(c) ==> r == c
    ensures !IsUpper(r)
  {
    if 'A' <= c <= 'Z' then (c as int + 0x20) as char
    else if '\U{0400}' <= c <= '\U{040F}' then (c as int + 0x50) as char
    else if '\U{0410}' <= c <= '\U{042F}' then (c as int + 0x20) as char
    else if IsLatinDiacriticUpper(c) then (c as int + 1) as char
    else c
  }

  function ToUpper(c: char): (r: char)
    ensures IsLower(c) ==> IsUpper(r) && r != c
    ensures !IsLower(c) ==> r == c
  {
    if 'a' <= c <= 'z' then (c as int - 0x20) as char
    else if '\U{0450}' <= c <= '\U{045F}' then (c as int - 0x50) as char
    else if '\U{0430}' <= c <= '\U{044F}' then (c as int - 0x20) as char
    else if IsLatinDiacriticLower(c) then (c as int - 1) as char
    else c
  }

  /** Lower- and upper-casing undo each other, and no character has both cases. */
  lemma CaseRoundTrip(c: char)
    ensures !(IsUpper(c) && IsLower(c))
    ensures IsUpper(c) ==> ToUpper(ToLower(c)) == c
    ensures IsLower(c) ==> ToLower(ToUpper(c)) == c
  {
  }

  /** `str::to_lowercase` under the simple mapping: every character lower-cased in place. */
  function LowerStr(w: string): (r: string)
    ensures |r| == |w|
    ensures forall k :: 0 <= k < |w| ==> r[k] == ToLower(w[k])
    ensures forall k :: 0 <= k < |r| ==> !IsUpper(r[k])
  {
    seq(|w|, k requires 0 <= k < |w| => ToLower(w[k]))
  }
}
