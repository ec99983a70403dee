/**
 Character-level helpers shared by the typing core: the part of JavaScript's
 `String.prototype.toLowerCase` that the core can meet (ASCII, the Latin-1
 capitals and the capitals of the toned pinyin vowels), and the vowel test the
 dictation modes use.
 */
module Text {

  /** 'A'..'Z' */
  predicate IsAsciiUpper(c: char) {
    'A' <= c <= 'Z'
  }

  /** À..Þ without the multiplication sign ×; each lower-cases to the code point 0x20 above */
  predicate IsLatin1Upper(c: char) {
    '\U{00C0}' <= c <= '\U{00DE}' && c != '\U{00D7}'
  }

  /** Ā Ē Ě Ī Ō Ū Ǎ Ǐ Ǒ Ǔ Ǖ Ǘ Ǚ Ǜ: capitals of toned pinyin vowels outside Latin-1;
      each lower-cases to the next code point */
  predicate IsPinyinCapital(c: char) {
    || c == '\U{0100}' || c == '\U{0112}' || c == '\U{011A}' || c == '\U{012A}'
    || c == '\U{014C}' || c == '\U{016A}' || c == '\U{01CD}' || c == '\U{01CF}'
    || c == '\U{01D1}' || c == '\U{01D3}' || c == '\U{01D5}' || c == '\U{01D7}'
    || c == '\U{01D9}' || c == '\U{01DB}'
  }

  /** A character that `toLowerCase` changes (within the modelled repertoire) */
  predicate IsUpper(c: char) {
    IsAsciiUpper(c) || IsLatin1Upper(c) || IsPinyinCapital(c)
  }

  /** `c.toLowerCase()` for a one-character string */
  function Lower(c: char): (r: char)
    ensures !IsUpper(r)
    ensures !IsUpper(c) ==> r == c
    ensures IsAsciiUpper(c) ==> r as int == c as int + 32
  {
    if IsAsciiUpper(c) || IsLatin1Upper(c) then (c as int + 32) as char
    else if IsPinyinCapital(c) then (c as int + 1) as char
    else c
  }

  /** No character of `s` is changed by lower-casing */
  predicate IsLowerString(s: string) {
    forall i :: 0 <= i < |s| ==> !IsUpper(s[i])
  }

  /** `s.toLowerCase()`, character by character */
  function LowerString(s: string): (r: string)
    ensures |r| == |s|
    ensures forall i :: 0 <= i < |s| ==> r[i] == Lower(s[i])
    ensures IsLowerString(r)
  {
    if s == [] then [] else [Lower(s[0])] + LowerString(s[1..])
  }

  /** Lower-casing twice is lower-casing once */
  lemma LowerStringIdempotent(s: string)
    ensures LowerString(LowerString(s)) == LowerString(s)
  {
    var l := LowerString(s);
    assert forall i :: 0 <= i < |l| ==> Lower(l[i]) == l[i];
  }

  /** `vowelLetters.includes(c.toUpperCase())` with vowelLetters = A E I O U.
      Besides a/e/i/o/u in either case, the dotless ı (U+0131) upper-cases to 'I'. */
  predicate IsVowelLetter(c: char) {
    c in "AEIOUaeiou\U{0131}"
  }

  /** The vowel test does not depend on case: lower-casing never turns a vowel into a
      consonant or back */
  lemma VowelIgnoresCase(c: char)
    ensures IsVowelLetter(Lower(c)) <==> IsVowelLetter(c)
  {
  }
}
