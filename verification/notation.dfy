/**
 The notation component: segmentation of a notation such as "谢(xiè)谢(xie)"
 into (word, phonetic) units, grouping of the units into display lines that
 break after punctuation, and the per-character cells of the pinyin-only
 rendering (reading above, glyph below, letter state).
 */
module Notation {
  import opened Letter
  import opened Optional
  import opened NotationRegex

  /** One unit of the notation: displayed text and the reading shown above it */
  datatype Info = Info(word: string, phonetic: string)

  /** The character class of `isPunctuation`: ，。、；：？！ " ' （）《》【】…— and , . ; : ? ! ( ) [ ] */
  predicate IsPunctuationChar(c: char) {
    || c == '\U{FF0C}' || c == '\U{3002}' || c == '\U{3001}' || c == '\U{FF1B}'
    || c == '\U{FF1A}' || c == '\U{FF1F}' || c == '\U{FF01}' || c == '"' || c == '\''
    || c == '\U{FF08}' || c == '\U{FF09}' || c == '\U{300A}' || c == '\U{300B}'
    || c == '\U{3010}' || c == '\U{3011}' || c == '\U{2026}' || c == '\U{2014}'
    || c == ',' || c == '.' || c == ';' || c == ':' || c == '?' || c == '!'
    || c == '(' || c == ')' || c == '[' || c == ']'
  }

  /** `isPunctuation`: the unanchored test succeeds when some character is in the class */
  predicate IsPunctuation(s: string) {
    exists i :: 0 <= i < |s| && IsPunctuationChar(s[i])
  }

  /** The test is not anchored: a word is punctuation when either part of it is, a
      single character exactly when it is in the class, and the empty word never */
  lemma PunctuationUnanchored(a: string, b: string)
    ensures IsPunctuation(a + b) <==> IsPunctuation(a) || IsPunctuation(b)
    ensures |a| == 1 ==> (IsPunctuation(a) <==> IsPunctuationChar(a[0]))
    ensures !IsPunctuation("")
  {
    if IsPunctuation(a + b) {
      var i :| 0 <= i < |a + b| && IsPunctuationChar((a + b)[i]);
      if i < |a| {
        assert a[i] == (a + b)[i];
      } else {
        assert b[i - |a|] == (a + b)[i];
      }
    }
    if IsPunctuation(a) {
      var i :| 0 <= i < |a| && IsPunctuationChar(a[i]);
      assert (a + b)[i] == a[i];
    }
    if IsPunctuation(b) {
      var i :| 0 <= i < |b| && IsPunctuationChar(b[i]);
      assert (a + b)[|a| + i] == b[i];
    }
  }

  // ---------------------------------------------------------------------------
  // Lines

  function Flatten<T>(lines: seq<seq<T>>): seq<T> {
    if lines == [] then [] else lines[0] + Flatten(lines[1..])
  }

  lemma FlattenAppend<T>(a: seq<seq<T>>, b: seq<seq<T>>)
    ensures Flatten(a + b) == Flatten(a) + Flatten(b)
  {
    if a == [] {
      assert a + b == b;
    } else {
      assert (a + b)[1..] == a[1..] + b;
      FlattenAppend(a[1..], b);
    }
  }

  /** Every line is non-empty; a punctuation unit occurs only as the last unit of a
      line; every line but the last ends with one */
  ghost predicate WellGrouped(lines: seq<seq<Info>>) {
    && (forall l :: 0 <= l < |lines| ==> lines[l] != [])
    && (forall l, k :: 0 <= l < |lines| && 0 <= k < |lines[l]| - 1 ==> !IsPunctuation(lines[l][k].word))
    && (forall l :: 0 <= l < |lines| - 1 ==> IsPunctuation(lines[l][|lines[l]| - 1].word))
  }

  /** The loop of `groupIntoLines` from unit `i`, with the open line `current` and the
      closed `lines` */
  function GroupFrom(infos: seq<Info>, i: nat, current: seq<Info>, lines: seq<seq<Info>>): seq<seq<Info>>
    requires i <= |infos|
    decreases |infos| - i
  {
    if i == |infos| then
      (if |current| > 0 then lines + [current] else lines)
    else
      var line := current + [infos[i]];
      if IsPunctuation(infos[i].word) then GroupFrom(infos, i + 1, [], lines + [line])
      else GroupFrom(infos, i + 1, line, lines)
  }

  /** `groupIntoLines` */
  function GroupIntoLines(infos: seq<Info>): seq<seq<Info>> {
    GroupFrom(infos, 0, [], [])
  }

  /** Every closed line ends with punctuation */
  ghost predicate AllClosed(lines: seq<seq<Info>>) {
    forall l :: 0 <= l < |lines| ==> lines[l] != [] && IsPunctuation(lines[l][|lines[l]| - 1].word)
  }

  /** Appending a line whose inner units are not punctuation keeps the grouping well formed */
  lemma AppendLine(lines: seq<seq<Info>>, line: seq<Info>)
    requires WellGrouped(lines) && AllClosed(lines)
    requires line != []
    requires forall k :: 0 <= k < |line| - 1 ==> !IsPunctuation(line[k].word)
    ensures WellGrouped(lines + [line])
    ensures IsPunctuation(line[|line| - 1].word) ==> AllClosed(lines + [line])
    ensures Flatten(lines + [line]) == Flatten(lines) + line
  {
    var ls := lines + [line];
    assert forall l :: 0 <= l < |lines| ==> ls[l] == lines[l];
    assert ls[|lines|] == line;
    FlattenAppend(lines, [line]);
    assert Flatten([line]) == line + Flatten([line][1..]);
  }

  lemma {:induction false} GroupFromSound(infos: seq<Info>, i: nat, current: seq<Info>, lines: seq<seq<Info>>)
    requires i <= |infos|
    requires WellGrouped(lines) && AllClosed(lines)
    requires forall k :: 0 <= k < |current| ==> !IsPunctuation(current[k].word)
    ensures Flatten(GroupFrom(infos, i, current, lines)) == Flatten(lines) + current + infos[i..]
    ensures WellGrouped(GroupFrom(infos, i, current, lines))
    decreases |infos| - i
  {
    if i == |infos| {
      if |current| > 0 {
        AppendLine(lines, current);
      }
    } else {
      var line := current + [infos[i]];
      assert infos[i..] == [infos[i]] + infos[i + 1..];
      if IsPunctuation(infos[i].word) {
        AppendLine(lines, line);
        GroupFromSound(infos, i + 1, [], lines + [line]);
      } else {
        GroupFromSound(infos, i + 1, line, lines);
      }
    }
  }

  /** Grouping loses, adds and reorders nothing, and every line is well formed */
  lemma GroupIntoLinesSound(infos: seq<Info>)
    ensures Flatten(GroupIntoLines(infos)) == infos
    ensures WellGrouped(GroupIntoLines(infos))
  {
    GroupFromSound(infos, 0, [], []);
  }

  // ---------------------------------------------------------------------------
  // Segmentation

  /** A unit may be split at `i`: a kanji with a non-kanji somewhere before it */
  ghost predicate IsSplitPoint(word: string, isKanji: char -> bool, i: int) {
    0 < i < |word| && isKanji(word[i]) && exists j :: 0 <= j < i && !isKanji(word[j])
  }

  /** The `kanjiStart` loop from index `i`; `seenOther` says whether `kanjiStart > 0`.
      Returns the split index, or 0 when the unit is not split. */
  function KanjiSplitFrom(word: string, isKanji: char -> bool, i: nat, seenOther: bool): (r: nat)
    requires i <= |word|
    ensures r == 0 || i <= r < |word|
    decreases |word| - i
  {
    if i == |word| then 0
    else if !isKanji(word[i]) then KanjiSplitFrom(word, isKanji, i + 1, true)
    else if seenOther then i
    else KanjiSplitFrom(word, isKanji, i + 1, false)
  }

  /** The index at which `getNotationInfo` splits a matched unit; 0 when it does not */
  function KanjiSplit(word: string, isKanji: char -> bool): (r: nat)
    ensures r < |word| || r == 0
  {
    KanjiSplitFrom(word, isKanji, 0, false)
  }

  lemma {:induction false} KanjiSplitFromSpec(word: string, isKanji: char -> bool, i: nat, seenOther: bool)
    requires i <= |word|
    requires seenOther <==> exists j :: 0 <= j < i && !isKanji(word[j])
    requires forall j :: 0 <= j < i ==> !IsSplitPoint(word, isKanji, j)
    ensures var r := KanjiSplitFrom(word, isKanji, i, seenOther);
      && (r == 0 ==> forall j :: i <= j < |word| ==> !IsSplitPoint(word, isKanji, j))
      && (r != 0 ==> IsSplitPoint(word, isKanji, r) && forall j :: 0 <= j < r ==> !IsSplitPoint(word, isKanji, j))
    decreases |word| - i
  {
    if i < |word| {
      if !isKanji(word[i]) {
        assert !IsSplitPoint(word, isKanji, i);
        KanjiSplitFromSpec(word, isKanji, i + 1, true);
      } else if !seenOther {
        assert !IsSplitPoint(word, isKanji, i);
        KanjiSplitFromSpec(word, isKanji, i + 1, false);
      }
    }
  }

  /** The split index is the first kanji that has a non-kanji before it; 0 exactly
      when there is no such kanji */
  lemma KanjiSplitSpec(word: string, isKanji: char -> bool)
    ensures var r := KanjiSplit(word, isKanji);
      && (r == 0 <==> forall j :: 0 <= j < |word| ==> !IsSplitPoint(word, isKanji, j))
      && (r != 0 ==> IsSplitPoint(word, isKanji, r) && forall j :: 0 <= j < r ==> !IsSplitPoint(word, isKanji, j))
  {
    KanjiSplitFromSpec(word, isKanji, 0, false);
  }

  /** The segments of one match: the unit, or its non-kanji prefix (reading " ")
      followed by the rest (the matched reading) */
  function UnitInfos(s: string, m: Match, isKanji: char -> bool): (r: seq<Info>)
    requires Delimited(s, m)
  {
    var word := s[m.start..m.open];
    var phonetic := s[m.open + 1..m.close];
    var k := KanjiSplit(word, isKanji);
    if k > 0 then [Info(word[..k], " "), Info(word[k..], phonetic)]
    else [Info(word, phonetic)]
  }

  /** The unmatched text between the cursor and the next match, as a segment without reading */
  function Gap(s: string, from: nat, start: nat): seq<Info>
    requires from <= start <= |s|
  {
    if start > from then [Info(s[from..start], "")] else []
  }

  /** The body of the `exec` loop of `getNotationInfo` over the matches `ms`, with
      `start == lastIndex == from`, followed by the trailing text after the loop */
  function InfosOf(s: string, from: nat, ms: seq<Match>, isKanji: char -> bool): seq<Info>
    requires Chain(s, from, ms)
    decreases ms
  {
    if ms == [] then (if from < |s| then [Info(s[from..], "")] else [])
    else
      Gap(s, from, ms[0].start)
      + UnitInfos(s, ms[0], isKanji)
      + InfosOf(s, ms[0].close + 1, ms[1..], isKanji)
  }

  /** `getNotationInfo`, with the kanji test supplied by the caller */
  function GetNotationInfo(notation: string, isKanji: char -> bool): seq<Info> {
    InfosOf(notation, 0, AllMatches(notation, 0), isKanji)
  }

  function Last<T>(xs: seq<T>): T
    requires xs != []
  {
    xs[|xs| - 1]
  }

  /** The displayed text of a list of units */
  function Words(infos: seq<Info>): string {
    if infos == [] then [] else infos[0].word + Words(infos[1..])
  }

  lemma WordsAppend(a: seq<Info>, b: seq<Info>)
    ensures Words(a + b) == Words(a) + Words(b)
  {
    if a == [] {
      assert a + b == b;
    } else {
      assert (a + b)[1..] == a[1..] + b;
      WordsAppend(a[1..], b);
    }
  }

  /** The text from `from` on with the "(reading)" group of every match in `ms` removed */
  function StripOf(s: string, from: nat, ms: seq<Match>): string
    requires Chain(s, from, ms)
    decreases ms
  {
    if ms == [] then s[from..]
    else s[from..ms[0].open] + StripOf(s, ms[0].close + 1, ms[1..])
  }

  /** The notation with every matched "(reading)" group removed */
  function StripMatched(notation: string): string {
    StripOf(notation, 0, AllMatches(notation, 0))
  }

  /** The units of one match spell its first group, and none of them is empty */
  lemma UnitInfosWords(s: string, m: Match, isKanji: char -> bool)
    requires Delimited(s, m)
    ensures Words(UnitInfos(s, m, isKanji)) == s[m.start..m.open]
    ensures forall i :: 0 <= i < |UnitInfos(s, m, isKanji)| ==> UnitInfos(s, m, isKanji)[i].word != []
  {
    var word := s[m.start..m.open];
    var k := KanjiSplit(word, isKanji);
    if k > 0 {
      assert Words([Info(word[k..], s[m.open + 1..m.close])]) == word[k..];
      assert word[..k] + word[k..] == word;
    } else {
      assert Words([Info(word, s[m.open + 1..m.close])]) == word;
    }
  }

  /** The gap before a match and the units of the match spell the text up to its '(' */
  lemma FrontWords(s: string, from: nat, m: Match, isKanji: char -> bool)
    requires from <= m.start
    requires Delimited(s, m)
    ensures Words(Gap(s, from, m.start) + UnitInfos(s, m, isKanji)) == s[from..m.open]
  {
    var gap := Gap(s, from, m.start);
    UnitInfosWords(s, m, isKanji);
    WordsAppend(gap, UnitInfos(s, m, isKanji));
    assert Words(gap) == s[from..m.start] by {
      if m.start > from {
        assert Words(gap) == s[from..m.start] + Words([]);
      }
    }
    assert s[from..m.open] == s[from..m.start] + s[m.start..m.open];
  }

  lemma StripOfCons(s: string, from: nat, ms: seq<Match>)
    requires Chain(s, from, ms) && ms != []
    ensures StripOf(s, from, ms) == s[from..ms[0].open] + StripOf(s, ms[0].close + 1, ms[1..])
  {
  }

  lemma InfosOfCons(s: string, from: nat, ms: seq<Match>, isKanji: char -> bool)
    requires Chain(s, from, ms) && ms != []
    ensures InfosOf(s, from, ms, isKanji) == (Gap(s, from, ms[0].start) + UnitInfos(s, ms[0], isKanji)) + InfosOf(s, ms[0].close + 1, ms[1..], isKanji)
  {
  }

  /** Concatenation of units concatenates their texts */
  lemma WordsGlue(x: seq<Info>, front: seq<Info>, rest: seq<Info>, y: string, a: string, b: string)
    requires x == front + rest && y == a + b
    requires Words(front) == a && Words(rest) == b
    ensures Words(x) == y
  {
    WordsAppend(front, rest);
  }

  lemma InfosOfWordsNil(s: string, from: nat, isKanji: char -> bool)
    requires from <= |s|
    ensures Words(InfosOf(s, from, [], isKanji)) == StripOf(s, from, [])
  {
    if from < |s| {
      assert Words([Info(s[from..], "")]) == s[from..] + Words([]);
    } else {
      assert s[from..] == [];
    }
  }

  lemma {:induction false} InfosOfWords(s: string, from: nat, ms: seq<Match>, isKanji: char -> bool)
    requires Chain(s, from, ms)
    ensures Words(InfosOf(s, from, ms, isKanji)) == StripOf(s, from, ms)
    decreases ms
  {
    if ms == [] {
      InfosOfWordsNil(s, from, isKanji);
    } else {
      var m := ms[0];
      InfosOfCons(s, from, ms, isKanji);
      StripOfCons(s, from, ms);
      FrontWords(s, from, m, isKanji);
      InfosOfWords(s, m.close + 1, ms[1..], isKanji);
      WordsGlue(InfosOf(s, from, ms, isKanji), Gap(s, from, m.start) + UnitInfos(s, m, isKanji),
        InfosOf(s, m.close + 1, ms[1..], isKanji),
        StripOf(s, from, ms), s[from..m.open], StripOf(s, m.close + 1, ms[1..]));
    }
  }

  lemma {:induction false} InfosOfNonEmpty(s: string, from: nat, ms: seq<Match>, isKanji: char -> bool)
    requires Chain(s, from, ms)
    ensures forall i :: 0 <= i < |InfosOf(s, from, ms, isKanji)| ==> InfosOf(s, from, ms, isKanji)[i].word != []
    decreases ms
  {
    if ms != [] {
      var m := ms[0];
      var front := Gap(s, from, m.start) + UnitInfos(s, m, isKanji);
      var rest := InfosOf(s, m.close + 1, ms[1..], isKanji);
      UnitInfosWords(s, m, isKanji);
      InfosOfNonEmpty(s, m.close + 1, ms[1..], isKanji);
      assert forall i :: 0 <= i < |front| ==> front[i].word != [];
      var infos := InfosOf(s, from, ms, isKanji);
      forall i | 0 <= i < |infos|
        ensures infos[i].word != []
      {
        if i < |front| {
          assert infos[i] == front[i];
        } else {
          assert infos[i] == rest[i - |front|];
        }
      }
    }
  }

  /** The displayed text of the segments is the notation with every matched
      "(reading)" group removed, and no segment is empty */
  lemma NotationWordsAreStripped(notation: string, isKanji: char -> bool)
    ensures Words(GetNotationInfo(notation, isKanji)) == StripMatched(notation)
    ensures forall i :: 0 <= i < |GetNotationInfo(notation, isKanji)| ==> GetNotationInfo(notation, isKanji)[i].word != []
  {
    InfosOfWords(notation, 0, AllMatches(notation, 0), isKanji);
    InfosOfNonEmpty(notation, 0, AllMatches(notation, 0), isKanji);
  }

  /** The split rule of one matched unit, stated on the unit itself */
  lemma UnitSplitRule(s: string, m: Match, isKanji: char -> bool)
    requires Delimited(s, m)
    ensures var word, phonetic := s[m.start..m.open], s[m.open + 1..m.close];
      && ((forall j :: 0 <= j < |word| ==> !IsSplitPoint(word, isKanji, j))
            ==> UnitInfos(s, m, isKanji) == [Info(word, phonetic)])
      && (forall k :: IsSplitPoint(word, isKanji, k) && (forall j :: 0 <= j < k ==> !IsSplitPoint(word, isKanji, j))
            ==> UnitInfos(s, m, isKanji) == [Info(word[..k], " "), Info(word[k..], phonetic)])
  {
    var word := s[m.start..m.open];
    KanjiSplitSpec(word, isKanji);
  }

  /** The empty notation has no segments */
  lemma EmptyNotation(isKanji: char -> bool)
    ensures GetNotationInfo("", isKanji) == []
  {
    assert AllMatches("", 0) == [];
  }

  /** A notation without any match is one segment with an empty reading */
  lemma NoMatchIsOneSegment(notation: string, isKanji: char -> bool)
    requires notation != []
    requires forall p, q, c :: !IsMatch(notation, p, q, c)
    ensures GetNotationInfo(notation, isKanji) == [Info(notation, "")]
  {
    assert NextMatch(notation, 0).None?;
    assert AllMatches(notation, 0) == [];
  }

  /** Every segment of a match has a reading; the last one has the matched reading */
  lemma UnitInfosReadings(s: string, m: Match, isKanji: char -> bool)
    requires Delimited(s, m)
    ensures var unit := UnitInfos(s, m, isKanji);
      && unit != []
      && (forall i :: 0 <= i < |unit| ==> unit[i].phonetic != "")
      && unit[|unit| - 1].phonetic == s[m.open + 1..m.close]
  {
  }

  /** The last segment of a non-empty list followed by `rest` */
  lemma LastOfAppend(front: seq<Info>, rest: seq<Info>)
    requires front != []
    ensures rest != [] ==> Last(front + rest) == Last(rest)
    ensures rest == [] ==> Last(front + rest) == Last(front)
  {
  }

  lemma {:induction false} TrailingTextOf(s: string, from: nat, ms: seq<Match>, isKanji: char -> bool)
    requires Chain(s, from, ms)
    requires EndOf(from, ms) < |s|
    ensures InfosOf(s, from, ms, isKanji) != []
    ensures Last(InfosOf(s, from, ms, isKanji)) == Info(s[EndOf(from, ms)..], "")
    decreases ms
  {
    if ms != [] {
      var m := ms[0];
      var front := Gap(s, from, m.start) + UnitInfos(s, m, isKanji);
      var rest := InfosOf(s, m.close + 1, ms[1..], isKanji);
      TrailingTextOf(s, m.close + 1, ms[1..], isKanji);
      UnitInfosReadings(s, m, isKanji);
      LastOfAppend(front, rest);
    }
  }

  lemma {:induction false} NoTrailingTextOf(s: string, from: nat, ms: seq<Match>, isKanji: char -> bool)
    requires Chain(s, from, ms)
    requires EndOf(from, ms) >= |s|
    requires InfosOf(s, from, ms, isKanji) != []
    ensures Last(InfosOf(s, from, ms, isKanji)).phonetic != ""
    decreases ms
  {
    if ms != [] {
      var m := ms[0];
      var unit := UnitInfos(s, m, isKanji);
      var front := Gap(s, from, m.start) + unit;
      var rest := InfosOf(s, m.close + 1, ms[1..], isKanji);
      UnitInfosReadings(s, m, isKanji);
      LastOfAppend(front, rest);
      if rest != [] {
        NoTrailingTextOf(s, m.close + 1, ms[1..], isKanji);
      } else {
        assert Last(front) == Last(unit);
      }
    }
  }

  /** The text after the last match becomes one final segment with an empty
      reading; when there is no such text the final segment carries a reading */
  lemma TrailingSegment(notation: string, isKanji: char -> bool)
    ensures MatchedEnd(notation, 0) < |notation| ==>
      GetNotationInfo(notation, isKanji) != []
      && Last(GetNotationInfo(notation, isKanji)) == Info(notation[MatchedEnd(notation, 0)..], "")
    ensures MatchedEnd(notation, 0) >= |notation| && GetNotationInfo(notation, isKanji) != [] ==>
      Last(GetNotationInfo(notation, isKanji)).phonetic != ""
  {
    var ms := AllMatches(notation, 0);
    if EndOf(0, ms) < |notation| {
      TrailingTextOf(notation, 0, ms, isKanji);
    } else if GetNotationInfo(notation, isKanji) != [] {
      NoTrailingTextOf(notation, 0, ms, isKanji);
    }
  }

  lemma {:induction false} TightReadings(s: string, from: nat, ms: seq<Match>, isKanji: char -> bool)
    requires Chain(s, from, ms) && Tight(from, ms)
    ensures forall i :: 0 <= i < |InfosOf(s, from, ms, isKanji)| - 1 ==> InfosOf(s, from, ms, isKanji)[i].phonetic != ""
    decreases ms
  {
    if ms != [] {
      var m := ms[0];
      var unit := UnitInfos(s, m, isKanji);
      var rest := InfosOf(s, m.close + 1, ms[1..], isKanji);
      assert InfosOf(s, from, ms, isKanji) == [] + unit + rest;
      TightReadings(s, m.close + 1, ms[1..], isKanji);
      var infos := InfosOf(s, from, ms, isKanji);
      UnitInfosReadings(s, m, isKanji);
      forall i | 0 <= i < |infos| - 1
        ensures infos[i].phonetic != ""
      {
        if i < |unit| {
          assert infos[i] == unit[i];
        } else {
          assert infos[i] == rest[i - |unit|];
          assert i - |unit| < |rest| - 1;
        }
      }
    }
  }

  /** On a single-line notation every segment but the last has a reading: no gap
      segments arise, because each match starts where the previous one ended */
  lemma SingleLineReadings(notation: string, isKanji: char -> bool)
    requires SingleLine(notation)
    ensures var infos := GetNotationInfo(notation, isKanji);
      forall i :: 0 <= i < |infos| - 1 ==> infos[i].phonetic != ""
  {
    SingleLineIsTight(notation, 0);
    TightReadings(notation, 0, AllMatches(notation, 0), isKanji);
  }

  // ---------------------------------------------------------------------------
  // Per-character cells of the pinyin-only rendering

  /** The reading shown above the character at `offset` of a unit of `wordLength`
      characters carrying `phonetic`: the unit's whole reading or nothing, never a part */
  function CharPinyin(c: char, wordLength: nat, offset: nat, phonetic: string): (r: string)
    ensures r == "" || r == phonetic
  {
    if !IsPunctuationChar(c) && phonetic != [] then
      (if wordLength == 1 then phonetic else if offset == 0 then phonetic else "")
    else ""
  }

  /** One rendered character: reading, glyph and colour state */
  datatype Cell = Cell(pinyin: string, glyph: char, state: LetterState)

  /** The cells of one unit whose first character has global index `base`, from offset `k` */
  function UnitCells(info: Info, k: nat, base: nat, states: seq<LetterState>, visible: nat -> bool): seq<Cell>
    requires k <= |info.word|
    decreases |info.word| - k
  {
    if k == |info.word| then []
    else
      [Cell(CharPinyin(info.word[k], |info.word|, k, info.phonetic),
            Glyph(info.word[k], visible(base + k)),
            StateAt(states, base + k))]
      + UnitCells(info, k + 1, base, states, visible)
  }

  /** The cells of a run of units; `charIndex` starts at `base` */
  function Cells(infos: seq<Info>, base: nat, states: seq<LetterState>, visible: nat -> bool): seq<Cell> {
    if infos == [] then []
    else UnitCells(infos[0], 0, base, states, visible) + Cells(infos[1..], base + |infos[0].word|, states, visible)
  }

  /** The cells of the rendering, line by line; `charIndex` runs on across lines */
  function LineCells(lines: seq<seq<Info>>, base: nat, states: seq<LetterState>, visible: nat -> bool): seq<Cell> {
    if lines == [] then []
    else Cells(lines[0], base, states, visible) + LineCells(lines[1..], base + |Words(lines[0])|, states, visible)
  }

  /** The pinyin-only rendering of a notation */
  function RenderPinyinOnly(notation: string, isKanji: char -> bool, states: seq<LetterState>, visible: nat -> bool): seq<Cell> {
    LineCells(GroupIntoLines(GetNotationInfo(notation, isKanji)), 0, states, visible)
  }

  lemma {:induction false} UnitCellsSpec(info: Info, k: nat, base: nat, states: seq<LetterState>, visible: nat -> bool)
    requires k <= |info.word|
    ensures var cs := UnitCells(info, k, base, states, visible);
      && |cs| == |info.word| - k
      && forall j :: 0 <= j < |cs| ==>
           && cs[j].glyph == Glyph(info.word[k + j], visible(base + k + j))
           && cs[j].state == StateAt(states, base + k + j)
           && cs[j].pinyin == CharPinyin(info.word[k + j], |info.word|, k + j, info.phonetic)
    decreases |info.word| - k
  {
    if k < |info.word| {
      UnitCellsSpec(info, k + 1, base, states, visible);
    }
  }

  /** Cell j draws character j of `w`, at global index base + j: its glyph and its state */
  ghost predicate Draws(cs: seq<Cell>, w: string, base: nat, states: seq<LetterState>, visible: nat -> bool) {
    && |cs| == |w|
    && forall j :: 0 <= j < |cs| ==>
         cs[j].glyph == Glyph(w[j], visible(base + j)) && cs[j].state == StateAt(states, base + j)
  }

  lemma {:induction false} CellsSpec(infos: seq<Info>, base: nat, states: seq<LetterState>, visible: nat -> bool)
    ensures Draws(Cells(infos, base, states, visible), Words(infos), base, states, visible)
  {
    if infos != [] {
      UnitCellsSpec(infos[0], 0, base, states, visible);
      CellsSpec(infos[1..], base + |infos[0].word|, states, visible);
      var head := UnitCells(infos[0], 0, base, states, visible);
      var cs, w := Cells(infos, base, states, visible), Words(infos);
      assert w == infos[0].word + Words(infos[1..]);
      forall j | 0 <= j < |cs|
        ensures cs[j].glyph == Glyph(w[j], visible(base + j)) && cs[j].state == StateAt(states, base + j)
      {
        if j >= |head| {
          assert cs[j] == Cells(infos[1..], base + |infos[0].word|, states, visible)[j - |head|];
        }
      }
    }
  }

  lemma {:induction false} LineCellsFlatten(lines: seq<seq<Info>>, base: nat, states: seq<LetterState>, visible: nat -> bool)
    ensures LineCells(lines, base, states, visible) == Cells(Flatten(lines), base, states, visible)
  {
    if lines != [] {
      LineCellsFlatten(lines[1..], base + |Words(lines[0])|, states, visible);
      CellsAppend(lines[0], Flatten(lines[1..]), base, states, visible);
    }
  }

  /** Unfolding `Cells` once on a non-empty run */
  lemma CellsCons(infos: seq<Info>, base: nat, states: seq<LetterState>, visible: nat -> bool)
    requires infos != []
    ensures Cells(infos, base, states, visible)
         == UnitCells(infos[0], 0, base, states, visible) + Cells(infos[1..], base + |infos[0].word|, states, visible)
  {
  }

  lemma {:induction false} CellsAppend(a: seq<Info>, b: seq<Info>, base: nat, states: seq<LetterState>, visible: nat -> bool)
    ensures Cells(a + b, base, states, visible) == Cells(a, base, states, visible) + Cells(b, base + |Words(a)|, states, visible)
  {
    if a == [] {
      assert a + b == b;
    } else {
      var n := |a[0].word|;
      var head := UnitCells(a[0], 0, base, states, visible);
      assert (a + b)[0] == a[0];
      assert (a + b)[1..] == a[1..] + b;
      CellsCons(a + b, base, states, visible);
      CellsCons(a, base, states, visible);
      CellsAppend(a[1..], b, base + n, states, visible);
      assert |Words(a)| == n + |Words(a[1..])|;
    }
  }

  /** The k-th cell of the rendering draws the k-th character of the notation's
      displayed text: '_' when position k is hidden, the space glyph for ' ',
      otherwise the character; its colour is the k-th letter state, Normal when
      there is none. Line breaking does not disturb the running index. */
  lemma RenderedCells(notation: string, isKanji: char -> bool, states: seq<LetterState>, visible: nat -> bool)
    ensures Draws(RenderPinyinOnly(notation, isKanji, states, visible), StripMatched(notation), 0, states, visible)
  {
    var infos := GetNotationInfo(notation, isKanji);
    GroupIntoLinesSound(infos);
    LineCellsFlatten(GroupIntoLines(infos), 0, states, visible);
    assert RenderPinyinOnly(notation, isKanji, states, visible) == Cells(infos, 0, states, visible);
    CellsSpec(infos, 0, states, visible);
    NotationWordsAreStripped(notation, isKanji);
  }

  /** Readings within one unit: punctuation gets none, a one-character unit gets the
      whole reading, a longer unit shows it above its first character only */
  lemma UnitReadings(info: Info, base: nat, states: seq<LetterState>, visible: nat -> bool)
    ensures var cs := UnitCells(info, 0, base, states, visible);
      && |cs| == |info.word|
      && (forall j :: 0 <= j < |cs| && IsPunctuationChar(info.word[j]) ==> cs[j].pinyin == "")
      && (|info.word| == 1 && !IsPunctuationChar(info.word[0]) ==> cs[0].pinyin == info.phonetic)
      && (forall j :: 0 < j < |cs| && |info.word| > 1 ==> cs[j].pinyin == "")
  {
    UnitCellsSpec(info, 0, base, states, visible);
  }
}
