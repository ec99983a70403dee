/**
 Pinyin utilities: the diacritic-stripping table, normalisation, the
 tone-insensitive match and the parser of "字(pīn)" pairs.
 */
module Pinyin {
  import opened Text
  import opened Optional
  import opened NotationRegex

  /** What the table maps to */
  predicate IsBaseVowel(c: char) {
    c == 'a' || c == 'e' || c == 'i' || c == 'o' || c == 'u' || c == 'v'
  }

  /** `toneMap[c] || c`: the base letter of a toned vowel, any other character unchanged */
  function ToneBase(c: char): (r: char)
    ensures r == c || IsBaseVowel(r)
    ensures IsBaseVowel(c) ==> r == c
  {
    if c == '\U{0101}' || c == '\U{00E1}' || c == '\U{01CE}' || c == '\U{00E0}' then 'a'      // ā á ǎ à
    else if c == '\U{0113}' || c == '\U{00E9}' || c == '\U{011B}' || c == '\U{00E8}' then 'e' // ē é ě è
    else if c == '\U{012B}' || c == '\U{00ED}' || c == '\U{01D0}' || c == '\U{00EC}' then 'i' // ī í ǐ ì
    else if c == '\U{014D}' || c == '\U{00F3}' || c == '\U{01D2}' || c == '\U{00F2}' then 'o' // ō ó ǒ ò
    else if c == '\U{016B}' || c == '\U{00FA}' || c == '\U{01D4}' || c == '\U{00F9}' then 'u' // ū ú ǔ ù
    else if c == '\U{01D6}' || c == '\U{01D8}' || c == '\U{01DA}' || c == '\U{01DC}' || c == '\U{00FC}' then 'v' // ǖ ǘ ǚ ǜ ü
    else c
  }

  /** The table by family, written independently of `ToneBase`: the toned forms of a
      letter and the letter they all stand for */
  const Families: seq<(string, char)> := [
    ("\U{0101}\U{00E1}\U{01CE}\U{00E0}", 'a'),          // ā á ǎ à
    ("\U{0113}\U{00E9}\U{011B}\U{00E8}", 'e'),          // ē é ě è
    ("\U{012B}\U{00ED}\U{01D0}\U{00EC}", 'i'),          // ī í ǐ ì
    ("\U{014D}\U{00F3}\U{01D2}\U{00F2}", 'o'),          // ō ó ǒ ò
    ("\U{016B}\U{00FA}\U{01D4}\U{00F9}", 'u'),          // ū ú ǔ ù
    ("\U{01D6}\U{01D8}\U{01DA}\U{01DC}\U{00FC}", 'v')  // ǖ ǘ ǚ ǜ ü
  ]

  /** Each toned form maps to its own family's letter, and a character in no family
      passes through unchanged */
  lemma ToneBaseFamilies(c: char)
    ensures forall k :: 0 <= k < |Families| && c in Families[k].0 ==> ToneBase(c) == Families[k].1
    ensures (forall k :: 0 <= k < |Families| ==> c !in Families[k].0) ==> ToneBase(c) == c
  {
    assert Families[0].0 == "\U{0101}\U{00E1}\U{01CE}\U{00E0}" && Families[0].1 == 'a';
    assert Families[1].0 == "\U{0113}\U{00E9}\U{011B}\U{00E8}" && Families[1].1 == 'e';
    assert Families[2].0 == "\U{012B}\U{00ED}\U{01D0}\U{00EC}" && Families[2].1 == 'i';
    assert Families[3].0 == "\U{014D}\U{00F3}\U{01D2}\U{00F2}" && Families[3].1 == 'o';
    assert Families[4].0 == "\U{016B}\U{00FA}\U{01D4}\U{00F9}" && Families[4].1 == 'u';
    assert Families[5].0 == "\U{01D6}\U{01D8}\U{01DA}\U{01DC}\U{00FC}" && Families[5].1 == 'v';
  }

  /** A key of the tone table (the twenty toned a/e/i/o/u and the five forms of ü):
      exactly the characters the table changes */
  predicate IsToned(c: char) {
    ToneBase(c) != c
  }

  /** The table applied to every character */
  function StripTones(s: string): (r: string)
    ensures |r| == |s|
    ensures forall i :: 0 <= i < |s| ==> r[i] == ToneBase(s[i])
  {
    if s == [] then [] else [ToneBase(s[0])] + StripTones(s[1..])
  }

  /** `normalizePinyin` as written: the table first, then `toLowerCase` */
  function NormalizePinyin(p: string): (r: string)
    ensures |r| == |p|
    ensures IsLowerString(r)
  {
    LowerString(StripTones(p))
  }

  /** One character through the table and then lower-casing */
  lemma NormalizeChar(c: char)
    ensures IsToned(c) ==> IsBaseVowel(Lower(ToneBase(c)))
    ensures !IsToned(c) && !IsUpper(c) ==> Lower(ToneBase(c)) == c
  {
    if IsToned(c) {
      assert !IsUpper(ToneBase(c));
    }
  }

  /** Normalisation replaces each toned vowel by the letter of its own family and keeps
      every character that is in no family and not upper-case */
  lemma NormalizePinyinSpec(p: string)
    ensures forall i, k :: 0 <= i < |p| && 0 <= k < |Families| && p[i] in Families[k].0 ==>
      NormalizePinyin(p)[i] == Families[k].1
    ensures forall i :: 0 <= i < |p| && !IsToned(p[i]) && !IsUpper(p[i]) ==> NormalizePinyin(p)[i] == p[i]
  {
    var r := NormalizePinyin(p);
    forall i | 0 <= i < |p|
      ensures r[i] == Lower(ToneBase(p[i]))
    {
      assert StripTones(p)[i] == ToneBase(p[i]);
    }
    forall i, k | 0 <= i < |p| && 0 <= k < |Families| && p[i] in Families[k].0
      ensures r[i] == Families[k].1
    {
      ToneBaseFamilies(p[i]);
      assert IsBaseVowel(Families[k].1) by { ToneBaseFamilies('a'); }
    }
    forall i | 0 <= i < |p|
      ensures !IsToned(p[i]) && !IsUpper(p[i]) ==> r[i] == p[i]
    {
      NormalizeChar(p[i]);
    }
  }

  /** `isPinyinMatch`: equal after normalisation */
  predicate IsPinyinMatch(typed: string, expected: string) {
    NormalizePinyin(typed) == NormalizePinyin(expected)
  }

  /** `x` and `y` are the same letter up to its tone mark: equal, or both a toned form or
      the plain letter of one family */
  predicate SameLetter(x: char, y: char) {
    x == y || exists k :: 0 <= k < |Families| && (x in Families[k].0 || x == Families[k].1)
                                             && (y in Families[k].0 || y == Families[k].1)
  }

  /** `b` differs from `a` at most in the tone marks of its vowels */
  predicate IsToneVariant(a: string, b: string) {
    |a| == |b| && forall i :: 0 <= i < |a| ==> SameLetter(a[i], b[i])
  }

  /** Letters of one family have the same image under the table */
  lemma SameLetterSameBase(x: char, y: char)
    requires SameLetter(x, y)
    ensures ToneBase(x) == ToneBase(y)
  {
    if x != y {
      var k :| 0 <= k < |Families| && (x in Families[k].0 || x == Families[k].1)
                                   && (y in Families[k].0 || y == Families[k].1);
      ToneBaseFamilies(x);
      ToneBaseFamilies(y);
      ToneBaseFamilies('a');
      assert IsBaseVowel(Families[k].1);
    }
  }

  /** Tone invariance: any two tone variants normalise alike, so they match */
  lemma ToneVariantsMatch(a: string, b: string)
    requires IsToneVariant(a, b)
    ensures IsPinyinMatch(a, b)
  {
    var na, nb := NormalizePinyin(a), NormalizePinyin(b);
    assert forall i :: 0 <= i < |na| ==> na[i] == nb[i] by {
      forall i | 0 <= i < |na|
        ensures na[i] == nb[i]
      {
        SameLetterSameBase(a[i], b[i]);
        assert StripTones(a)[i] == StripTones(b)[i];
      }
    }
  }

  /** The match is an equivalence: reflexive, symmetric and transitive */
  lemma MatchIsEquivalence(a: string, b: string, c: string)
    ensures IsPinyinMatch(a, a)
    ensures IsPinyinMatch(a, b) ==> IsPinyinMatch(b, a)
    ensures IsPinyinMatch(a, b) && IsPinyinMatch(b, c) ==> IsPinyinMatch(a, c)
  {
  }

  /** Matching strings have the same length: the table maps one character to one */
  lemma MatchPreservesLength(a: string, b: string)
    requires IsPinyinMatch(a, b)
    ensures |a| == |b|
  {
    assert |NormalizePinyin(a)| == |NormalizePinyin(b)|;
  }

  /** "xiè" matches "xie": the two differ only in the tone mark of the last vowel */
  lemma XieExample()
    ensures IsPinyinMatch("xi\U{00E8}", "xie")
  {
    var a, b := "xi\U{00E8}", "xie";
    assert a[2] in Families[1].0 && b[2] == Families[1].1;
    assert SameLetter(a[2], b[2]);
    assert IsToneVariant(a, b);
    ToneVariantsMatch(a, b);
  }

  /** As written the table runs before lower-casing, so an upper-case toned vowel is
      lower-cased but keeps its tone: it normalises to the lower-case toned vowel and
      does not match it, although the two differ only in case */
  lemma UpperToneKept(c: char)
    requires IsUpper(c) && IsToned(Lower(c))
    ensures NormalizePinyin([c]) == [Lower(c)]
    ensures NormalizePinyin([Lower(c)]) == [ToneBase(Lower(c))]
    ensures !IsPinyinMatch([c], [Lower(c)])
  {
    UpperIsNotToned(c);
    assert StripTones([c]) == [c];
    assert LowerString([c]) == [Lower(c)];
    var l := Lower(c);
    assert StripTones([l]) == [ToneBase(l)];
    assert !IsUpper(ToneBase(l));
    assert LowerString([ToneBase(l)]) == [ToneBase(l)];
  }

  /** "È" (U+00C8) normalises to "è" and so does not match "è" */
  lemma UpperToneNotStripped()
    ensures NormalizePinyin("\U{00C8}") == "\U{00E8}"
    ensures !IsPinyinMatch("\U{00C8}", "\U{00E8}")
  {
    assert Lower('\U{00C8}') == '\U{00E8}';
    assert IsToned('\U{00E8}');
    UpperToneKept('\U{00C8}');
  }

  /** Normalisation with the intended order: lower-case first, then the table */
  function NormalizePinyinCaseless(p: string): (r: string)
    ensures |r| == |p|
  {
    StripTones(LowerString(p))
  }

  /** A lower-case character stays lower-case through the table, and the table
      leaves nothing toned */
  lemma ToneBaseChar(c: char)
    requires !IsUpper(c)
    ensures !IsUpper(ToneBase(c)) && !IsToned(ToneBase(c))
  {
  }

  /** The corrected normalisation leaves no upper-case and no toned character */
  lemma NormalizePinyinCaselessSpec(p: string)
    ensures IsLowerString(NormalizePinyinCaseless(p))
    ensures forall i :: 0 <= i < |p| ==> !IsToned(NormalizePinyinCaseless(p)[i])
  {
    var l, r := LowerString(p), NormalizePinyinCaseless(p);
    forall i | 0 <= i < |p|
      ensures !IsUpper(r[i]) && !IsToned(r[i])
    {
      assert r[i] == ToneBase(l[i]);
      ToneBaseChar(l[i]);
    }
  }

  /** The intended `isPinyinMatch`: case-insensitive and tone-insensitive */
  predicate IsPinyinMatchCaseless(typed: string, expected: string) {
    NormalizePinyinCaseless(typed) == NormalizePinyinCaseless(expected)
  }

  /** The corrected normalisation ignores case and is idempotent */
  lemma CaselessIgnoresCase(p: string)
    ensures NormalizePinyinCaseless(LowerString(p)) == NormalizePinyinCaseless(p)
    ensures NormalizePinyinCaseless(NormalizePinyinCaseless(p)) == NormalizePinyinCaseless(p)
    ensures IsPinyinMatchCaseless(p, LowerString(p))
  {
    LowerStringIdempotent(p);
    NormalizePinyinCaselessSpec(p);
    var n := NormalizePinyinCaseless(p);
    assert LowerString(n) == n;
    assert StripTones(n) == n;
  }

  /** The corrected match accepts the pair the written one rejects */
  lemma CaselessMatchesUpperTone(c: char)
    ensures IsPinyinMatchCaseless([c], [Lower(c)])
  {
    CaselessIgnoresCase([c]);
    assert LowerString([c]) == [Lower(c)];
  }

  /** "È" and "è" match once lower-casing comes first */
  lemma CaselessUpperToneExample()
    ensures IsPinyinMatchCaseless("\U{00C8}", "\U{00E8}")
  {
    assert Lower('\U{00C8}') == '\U{00E8}';
    CaselessMatchesUpperTone('\U{00C8}');
  }

  /** The keys of the table are all lower-case */
  lemma UpperIsNotToned(c: char)
    requires IsUpper(c)
    ensures ToneBase(c) == c
  {
  }

  /** For one character that is not an upper-case toned vowel the two orders agree */
  lemma ToneLowerCommute(c: char)
    requires !IsToned(Lower(c)) || !IsUpper(c)
    ensures ToneBase(Lower(c)) == Lower(ToneBase(c))
  {
    if IsUpper(c) {
      UpperIsNotToned(c);
    }
  }

  /** On strings without an upper-case toned vowel the two orders agree */
  lemma CaselessAgreesWithoutToneCapitals(p: string)
    requires forall i :: 0 <= i < |p| ==> !IsToned(Lower(p[i])) || !IsUpper(p[i])
    ensures NormalizePinyinCaseless(p) == NormalizePinyin(p)
  {
    var a, b := NormalizePinyinCaseless(p), NormalizePinyin(p);
    forall i | 0 <= i < |p|
      ensures a[i] == b[i]
    {
      ToneLowerCommute(p[i]);
      assert a[i] == ToneBase(Lower(p[i]));
      assert b[i] == Lower(ToneBase(p[i]));
    }
  }

  /** A character with its reading */
  datatype CharPinyinPair = CharPinyinPair(character: string, pinyin: string)

  /** `parseChineseNotation`: one pair per match of the global regex, in order */
  function ParseChineseNotation(notation: string): (pairs: seq<CharPinyinPair>)
    ensures |pairs| == |AllMatches(notation, 0)|
    ensures forall i :: 0 <= i < |pairs| ==> pairs[i].character != [] && pairs[i].pinyin != []
  {
    PairsOf(notation, AllMatches(notation, 0))
  }

  /** The pair of one match: the first group and the second group */
  function PairOf(s: string, m: Match): (r: CharPinyinPair)
    requires Delimited(s, m)
  {
    CharPinyinPair(s[m.start..m.open], s[m.open + 1..m.close])
  }

  function PairsOf(s: string, ms: seq<Match>): (pairs: seq<CharPinyinPair>)
    requires forall i :: 0 <= i < |ms| ==> Delimited(s, ms[i])
    ensures |pairs| == |ms|
    ensures forall i :: 0 <= i < |ms| ==> pairs[i] == PairOf(s, ms[i])
  {
    if ms == [] then [] else [PairOf(s, ms[0])] + PairsOf(s, ms[1..])
  }

  /** The notation text the pairs were read from: each character followed by its
      reading in parentheses */
  function RenderPairs(pairs: seq<CharPinyinPair>): string {
    if pairs == [] then []
    else pairs[0].character + "(" + pairs[0].pinyin + ")" + RenderPairs(pairs[1..])
  }

  lemma RenderPairsCons(p: CharPinyinPair, rest: seq<CharPinyinPair>)
    ensures RenderPairs([p] + rest) == p.character + "(" + p.pinyin + ")" + RenderPairs(rest)
  {
    assert ([p] + rest)[1..] == rest;
  }

  /** The text a match covers is its pair written out */
  lemma MatchText(s: string, m: Match, e: nat)
    requires Delimited(s, m)
    requires m.close < e <= |s|
    ensures s[m.start..e] == PairOf(s, m).character + "(" + PairOf(s, m).pinyin + ")" + s[m.close + 1..e]
  {
    assert s[m.start..e] == s[m.start..m.open] + [s[m.open]] + s[m.open + 1..m.close] + [s[m.close]] + s[m.close + 1..e];
  }

  lemma {:induction false} RenderPairsOf(s: string, from: nat, ms: seq<Match>)
    requires Chain(s, from, ms) && Tight(from, ms)
    ensures EndOf(from, ms) <= |s|
    ensures RenderPairs(PairsOf(s, ms)) == s[from..EndOf(from, ms)]
    decreases ms
  {
    if ms != [] {
      var m, rest := ms[0], ms[1..];
      RenderPairsOf(s, m.close + 1, rest);
      assert ms == [m] + rest;
      assert PairsOf(s, ms) == [PairOf(s, m)] + PairsOf(s, rest);
      RenderPairsCons(PairOf(s, m), PairsOf(s, rest));
      MatchText(s, m, EndOf(m.close + 1, rest));
    }
  }

  /** Round trip on single-line notations: writing the pairs back out gives the
      notation up to the end of its last match; what follows (unmatched trailing
      text) holds no further match and is dropped */
  lemma ParseRoundTrip(notation: string)
    requires SingleLine(notation)
    ensures MatchedEnd(notation, 0) <= |notation|
    ensures RenderPairs(ParseChineseNotation(notation)) == notation[..MatchedEnd(notation, 0)]
    ensures NextMatch(notation, MatchedEnd(notation, 0)).None?
  {
    SingleLineIsTight(notation, 0);
    RenderPairsOf(notation, 0, AllMatches(notation, 0));
    MatchedEndIsFinal(notation, 0);
  }

  /** "谢(xiè)谢(xie)" gives the pairs (谢, xiè) and (谢, xie) */
  lemma ParseExample()
    ensures ParseChineseNotation("\U{8C22}(xi\U{00E8})\U{8C22}(xie)")
         == [CharPinyinPair("\U{8C22}", "xi\U{00E8}"), CharPinyinPair("\U{8C22}", "xie")]
  {
    var s := "\U{8C22}(xi\U{00E8})\U{8C22}(xie)";
    assert CloseOf(s, 1) == Some(5);
    assert MatchAt(s, 0) == Some(Match(0, 1, 5));
    assert NextMatch(s, 0) == Some(Match(0, 1, 5));
    assert CloseOf(s, 7) == Some(11);
    assert MatchAt(s, 6) == Some(Match(6, 7, 11));
    assert NextMatch(s, 6) == Some(Match(6, 7, 11));
    assert NextMatch(s, 12) == None;
    assert AllMatches(s, 0) == [Match(0, 1, 5), Match(6, 7, 11)];
    assert s[0..1] == "\U{8C22}" && s[2..5] == "xi\U{00E8}";
    assert s[6..7] == "\U{8C22}" && s[8..11] == "xie";
    assert PairsOf(s, [Match(6, 7, 11)]) == [PairOf(s, Match(6, 7, 11))];
  }
}
