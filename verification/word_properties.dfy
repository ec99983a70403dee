/**
 What the word state machine promises: the effect of one validation in each of
 its three cases, the two recovery policies, the counters that never go down,
 and the shape of the letter states that every reachable state keeps.
 */
module WordProperties {
  import opened Optional
  import opened Text
  import opened Letter
  import opened WordMachine

  // ---------------------------------------------------------------- one validation

  /** The early return changes nothing but the remembered length */
  lemma ValidateIdle(s: WordState, ignoreCase: bool, now: int, stamp: string, firstWord: bool)
    requires s.hasWrong || |s.inputWord| == 0 || |s.displayWord| == 0
    ensures var o := Validate(s, ignoreCase, now, stamp, firstWord);
      && o.state.(prevLen := s.prevLen) == s
      && o.report == NoReport && !o.showTip
  {
  }

  /** Every new position agrees: the new positions turn Correct, one timestamp and one
      correct count per new character, and the word is finished exactly when the
      input has reached the display word's length */
  lemma ValidateAllCorrect(s: WordState, ignoreCase: bool, now: int, stamp: string, firstWord: bool)
    requires !Idle(s)
    requires forall i :: s.prevLen <= i < |s.inputWord| ==> Agrees(s.inputWord, s.displayWord, i, ignoreCase)
    ensures var t := Validate(s, ignoreCase, now, stamp, firstWord).state;
      var k := if s.prevLen <= |s.inputWord| then |s.inputWord| - s.prevLen else 0;
      && (forall i :: s.prevLen <= i < |s.inputWord| ==> i < |t.letterStates| && t.letterStates[i] == Correct)
      && (forall i :: 0 <= i < |s.letterStates| && !(s.prevLen <= i < |s.inputWord|) ==>
            i < |t.letterStates| && t.letterStates[i] == s.letterStates[i])
      && t.correctCount == s.correctCount + k
      && |t.letterTimeArray| == |s.letterTimeArray| + k
      && t.letterTimeArray[..|s.letterTimeArray|] == s.letterTimeArray
      && (t.isFinished <==> s.isFinished || |s.inputWord| >= |s.displayWord|)
      && !t.hasWrong && t.wrongCount == s.wrongCount && t.letterMistake == s.letterMistake
    ensures Validate(s, ignoreCase, now, stamp, firstWord).report == ReportCorrect
  {
    assert FirstMismatch(s.inputWord, s.displayWord, s.prevLen, ignoreCase).None?;
  }

  /** The first disagreeing position `w`: the positions before it turn Correct, `w`
      turns Wrong, exactly one more mistake is counted, the timestamps are dropped
      and the typed character is appended to the mistakes recorded at `w` */
  lemma ValidateMismatch(s: WordState, ignoreCase: bool, now: int, stamp: string, firstWord: bool, w: nat)
    requires !Idle(s)
    requires s.prevLen <= w < |s.inputWord| && !Agrees(s.inputWord, s.displayWord, w, ignoreCase)
    requires forall i :: s.prevLen <= i < w ==> Agrees(s.inputWord, s.displayWord, i, ignoreCase)
    ensures var o := Validate(s, ignoreCase, now, stamp, firstWord);
      var t := o.state;
      && w < |t.letterStates| && t.letterStates[w] == Wrong
      && (forall i :: s.prevLen <= i < w ==> t.letterStates[i] == Correct)
      && (forall i :: 0 <= i < |s.letterStates| && !(s.prevLen <= i <= w) ==> t.letterStates[i] == s.letterStates[i])
      && t.hasWrong && t.hasMadeInputWrong
      && t.wrongCount == s.wrongCount + 1
      && t.correctCount == s.correctCount + (w - s.prevLen)
      && t.letterTimeArray == []
      && w in t.letterMistake
      && t.letterMistake[w] == (if w in s.letterMistake then s.letterMistake[w] else []) + [s.inputWord[w]]
      && (forall k :: k in s.letterMistake && k != w ==> k in t.letterMistake && t.letterMistake[k] == s.letterMistake[k])
      && t.letterMistake.Keys == s.letterMistake.Keys + {w}
      && t.isFinished == s.isFinished
      && o.report == ReportWrong(t.letterMistake)
      && (o.showTip <==> firstWord && s.wrongCount >= 3)
  {
    assert FirstMismatch(s.inputWord, s.displayWord, s.prevLen, ignoreCase) == Some(w);
  }

  /** A character typed past the end of the display word is a mistake at that position */
  lemma PastEndIsMistake(s: WordState, ignoreCase: bool, now: int, stamp: string, firstWord: bool)
    requires !Idle(s)
    requires s.prevLen <= |s.displayWord| < |s.inputWord|
    requires forall i :: s.prevLen <= i < |s.displayWord| ==> Agrees(s.inputWord, s.displayWord, i, ignoreCase)
    ensures var t := Validate(s, ignoreCase, now, stamp, firstWord).state;
      && t.hasWrong && t.wrongCount == s.wrongCount + 1
      && |s.displayWord| < |t.letterStates| && t.letterStates[|s.displayWord|] == Wrong
      && t.letterMistake[|s.displayWord|][|t.letterMistake[|s.displayWord|]| - 1] == s.inputWord[|s.displayWord|]
  {
    ValidateMismatch(s, ignoreCase, now, stamp, firstWord, |s.displayWord|);
  }

  // ---------------------------------------------------------------- recovery

  /** `zh`: the input is cut back to the first wrong position, the states from there on
      are reset and the earlier ones kept, and validation resumes at that position */
  lemma RecoverZh(s: WordState, w: nat)
    requires s.hasWrong
    requires w < |s.letterStates| && s.letterStates[w] == Wrong
    requires forall i :: 0 <= i < w ==> s.letterStates[i] != Wrong
    ensures var r := Recover(s, "zh");
      && r.inputWord == s.inputWord[..Min(w, |s.inputWord|)]
      && (forall i :: 0 <= i < w ==> r.letterStates[i] == s.letterStates[i])
      && (forall i :: w <= i < |r.letterStates| ==> r.letterStates[i] == Normal)
      && r.prevLen == w && !r.hasWrong
  {
    assert FirstWrong(s.letterStates) == Some(w);
  }

  /** Any other language: the word starts over */
  lemma RecoverOther(s: WordState, lang: string)
    requires s.hasWrong && lang != "zh"
    ensures var r := Recover(s, lang);
      && r.inputWord == "" && r.prevLen == 0 && !r.hasWrong
      && forall i :: 0 <= i < |r.letterStates| ==> r.letterStates[i] == Normal
  {
  }

  // ---------------------------------------------------------------- counters

  /** Counters and recorded mistakes only grow: every old entry of `letterMistake`
      survives as a prefix of the new one */
  predicate Grows(s: WordState, t: WordState) {
    && s.correctCount <= t.correctCount && s.wrongCount <= t.wrongCount
    && forall k :: k in s.letterMistake ==> k in t.letterMistake && s.letterMistake[k] <= t.letterMistake[k]
  }

  lemma GrowsTransitive(a: WordState, b: WordState, c: WordState)
    requires Grows(a, b) && Grows(b, c)
    ensures Grows(a, c)
  {
    forall k | k in a.letterMistake
      ensures k in c.letterMistake && a.letterMistake[k] <= c.letterMistake[k]
    {
      var x, y, z := a.letterMistake[k], b.letterMistake[k], c.letterMistake[k];
      assert x == y[..|x|] && y == z[..|y|];
    }
  }

  lemma ValidateGrows(s: WordState, ignoreCase: bool, now: int, stamp: string, firstWord: bool)
    ensures Grows(s, Validate(s, ignoreCase, now, stamp, firstWord).state)
  {
    if !Idle(s) {
      match FirstMismatch(s.inputWord, s.displayWord, s.prevLen, ignoreCase)
      case None =>
      case Some(w) =>
        ValidateMismatch(s, ignoreCase, now, stamp, firstWord, w);
    }
  }

  /** No event decreases a counter or forgets a mistake, recovery included */
  lemma ApplyGrows(s: WordState, e: Event, cfg: Settings)
    ensures Grows(s, Apply(s, e, cfg).state)
  {
    match e
    case Typed(v, now, stamp) =>
      var a := Add(s, v);
      ValidateGrows(a, cfg.ignoreCase, now, stamp, cfg.firstWord);
    case TimerFired(now, stamp) =>
      var r := Recover(s, cfg.lang);
      ValidateGrows(r, cfg.ignoreCase, now, stamp, cfg.firstWord);
  }

  lemma {:induction false} RunGrows(s: WordState, es: seq<Event>, cfg: Settings)
    ensures Grows(s, Run(s, es, cfg))
    decreases |es|
  {
    if es != [] {
      var t := Apply(s, es[0], cfg).state;
      ApplyGrows(s, es[0], cfg);
      RunGrows(t, es[1..], cfg);
      GrowsTransitive(s, t, Run(s, es, cfg));
    }
  }

  /** Once the skip is due it stays due */
  lemma SkipStaysDue(s: WordState, es: seq<Event>, cfg: Settings)
    requires ShouldSkip(s)
    ensures ShouldSkip(Run(s, es, cfg))
  {
    RunGrows(s, es, cfg);
  }

  /** The fourth mistake makes the skip due */
  lemma FourthMistakeSkips(s: WordState, ignoreCase: bool, now: int, stamp: string, firstWord: bool, w: nat)
    requires !Idle(s) && s.wrongCount == 3
    requires s.prevLen <= w < |s.inputWord| && !Agrees(s.inputWord, s.displayWord, w, ignoreCase)
    requires forall i :: s.prevLen <= i < w ==> Agrees(s.inputWord, s.displayWord, i, ignoreCase)
    ensures ShouldSkip(Validate(s, ignoreCase, now, stamp, firstWord).state)
  {
    ValidateMismatch(s, ignoreCase, now, stamp, firstWord, w);
  }

  // ---------------------------------------------------------------- reachable shape

  /** The first `c` states are Correct, then (with `wrong`) one Wrong, the rest Normal */
  predicate Layout(states: seq<LetterState>, c: nat, wrong: bool) {
    && (wrong ==> c < |states|)
    && forall i :: 0 <= i < |states| ==> states[i] == (if i < c then Correct else if wrong && i == c then Wrong else Normal)
  }

  /** The mistake is shown at `w`, inside the typed text and at most one past the word */
  predicate WrongAt(s: WordState, w: nat) {
    w < |s.inputWord| && w <= |s.displayWord| && Layout(s.letterStates, w, true)
  }

  /** The first `n` typed characters each agree with the word */
  predicate AgreesUpTo(s: WordState, n: nat, ignoreCase: bool) {
    forall i :: 0 <= i < n ==> Agrees(s.inputWord, s.displayWord, i, ignoreCase)
  }

  /** The shape every reachable state keeps between events: validation resumes at the
      end of the typed text; without a mistake the typed text is a correct prefix of the
      word, marked Correct; with one, the text before it agrees with the word and is
      marked Correct, and the states after it are Normal */
  predicate Inv(s: WordState, ignoreCase: bool) {
    && s.prevLen == |s.inputWord|
    && |s.displayWord| <= |s.letterStates| <= |s.displayWord| + 1
    && (|s.displayWord| == 0 ==> !s.hasWrong)
    && (!s.hasWrong && |s.displayWord| > 0 ==>
          && |s.inputWord| <= |s.displayWord| && Layout(s.letterStates, |s.inputWord|, false)
          && AgreesUpTo(s, |s.inputWord|, ignoreCase))
    && (s.hasWrong ==>
          && FirstWrong(s.letterStates).Some? && WrongAt(s, FirstWrong(s.letterStates).value)
          && AgreesUpTo(s, FirstWrong(s.letterStates).value, ignoreCase))
  }

  /** A state about to be validated: no mistake shown, the text before `prevLen`
      agrees with the word and is marked Correct, the rest Normal */
  predicate Ready(s: WordState, ignoreCase: bool) {
    && !s.hasWrong && s.prevLen <= |s.inputWord|
    && |s.displayWord| <= |s.letterStates| <= |s.displayWord| + 1
    && (|s.displayWord| > 0 ==>
          && s.prevLen <= |s.displayWord| && Layout(s.letterStates, s.prevLen, false)
          && AgreesUpTo(s, s.prevLen, ignoreCase))
  }

  lemma LayoutFirstWrong(states: seq<LetterState>, w: nat)
    requires Layout(states, w, true)
    ensures FirstWrong(states) == Some(w)
  {
    assert states[w] == Wrong;
  }

  lemma ReadyNoMismatch(s: WordState, ignoreCase: bool, now: int, stamp: string, firstWord: bool)
    requires Ready(s, ignoreCase) && !Idle(s)
    requires FirstMismatch(s.inputWord, s.displayWord, s.prevLen, ignoreCase).None?
    ensures Inv(Validate(s, ignoreCase, now, stamp, firstWord).state, ignoreCase)
  {
    var n := |s.inputWord|;
    if s.prevLen < n {
      assert Agrees(s.inputWord, s.displayWord, n - 1, ignoreCase);
    }
    ValidateAllCorrect(s, ignoreCase, now, stamp, firstWord);
    var t := Validate(s, ignoreCase, now, stamp, firstWord).state;
    assert t.letterStates == MarkCorrect(s.letterStates, s.prevLen, n);
    assert Layout(t.letterStates, n, false);
  }

  lemma ReadyMismatch(s: WordState, ignoreCase: bool, now: int, stamp: string, firstWord: bool, w: nat)
    requires Ready(s, ignoreCase) && !Idle(s)
    requires FirstMismatch(s.inputWord, s.displayWord, s.prevLen, ignoreCase) == Some(w)
    ensures Inv(Validate(s, ignoreCase, now, stamp, firstWord).state, ignoreCase)
  {
    var t := Validate(s, ignoreCase, now, stamp, firstWord).state;
    var marked := MarkCorrect(s.letterStates, s.prevLen, w);
    assert t.letterStates == SetState(marked, w, Wrong);
    assert |marked| == |s.letterStates|;
    assert Layout(t.letterStates, w, true);
    LayoutFirstWrong(t.letterStates, w);
  }

  /** Validating a ready state lands in the invariant */
  lemma ReadyValidates(s: WordState, ignoreCase: bool, now: int, stamp: string, firstWord: bool)
    requires Ready(s, ignoreCase)
    ensures Inv(Validate(s, ignoreCase, now, stamp, firstWord).state, ignoreCase)
  {
    if !Idle(s) {
      match FirstMismatch(s.inputWord, s.displayWord, s.prevLen, ignoreCase)
      case None => ReadyNoMismatch(s, ignoreCase, now, stamp, firstWord);
      case Some(w) => ReadyMismatch(s, ignoreCase, now, stamp, firstWord, w);
    }
  }

  lemma RecoverReady(s: WordState, lang: string, ignoreCase: bool)
    requires Inv(s, ignoreCase) && s.hasWrong
    ensures Ready(Recover(s, lang), ignoreCase)
    ensures Recover(s, lang).inputWord != s.inputWord
  {
    var w := FirstWrong(s.letterStates).value;
    if lang == "zh" {
      var r := Recover(s, lang);
      assert r.inputWord == s.inputWord[..w];
      assert Layout(r.letterStates, w, false);
      assert AgreesUpTo(r, w, ignoreCase) by {
        forall i | 0 <= i < w
          ensures Agrees(r.inputWord, r.displayWord, i, ignoreCase)
        {
          assert Agrees(s.inputWord, s.displayWord, i, ignoreCase);
          assert r.inputWord[i] == s.inputWord[i];
        }
      }
    }
  }

  /** A fresh word satisfies the invariant */
  lemma InitInv(name: Option<string>, stamp: string, draws: nat -> real, ignoreCase: bool)
    ensures Inv(Init(name, stamp, draws), ignoreCase)
  {
  }

  /** Every event keeps the invariant */
  lemma ApplyInv(s: WordState, e: Event, cfg: Settings)
    requires Inv(s, cfg.ignoreCase)
    ensures Inv(Apply(s, e, cfg).state, cfg.ignoreCase)
  {
    match e
    case Typed(v, now, stamp) =>
      var a := Add(s, v);
      if a.inputWord != s.inputWord {
        if |a.displayWord| > 0 {
          forall i | 0 <= i < a.prevLen
            ensures Agrees(a.inputWord, a.displayWord, i, cfg.ignoreCase)
          {
            assert Agrees(s.inputWord, s.displayWord, i, cfg.ignoreCase);
            assert a.inputWord[i] == s.inputWord[i];
          }
        }
        assert Ready(a, cfg.ignoreCase);
        ReadyValidates(a, cfg.ignoreCase, now, stamp, cfg.firstWord);
      }
    case TimerFired(now, stamp) =>
      if s.hasWrong {
        RecoverReady(s, cfg.lang, cfg.ignoreCase);
        ReadyValidates(Recover(s, cfg.lang), cfg.ignoreCase, now, stamp, cfg.firstWord);
      }
  }

  /** Every state reachable from a fresh word satisfies the invariant */
  lemma {:induction false} RunInv(s: WordState, es: seq<Event>, cfg: Settings)
    requires Inv(s, cfg.ignoreCase)
    ensures Inv(Run(s, es, cfg), cfg.ignoreCase)
    decreases |es|
  {
    if es != [] {
      ApplyInv(s, es[0], cfg);
      RunInv(Apply(s, es[0], cfg).state, es[1..], cfg);
    }
  }

  /** A word whose display word is empty is never finished, whatever is typed */
  lemma {:induction false} EmptyWordNeverFinishes(s: WordState, es: seq<Event>, cfg: Settings)
    requires s.displayWord == "" && !s.isFinished
    ensures !Run(s, es, cfg).isFinished
    decreases |es|
  {
    if es != [] {
      var t := Apply(s, es[0], cfg).state;
      assert t.displayWord == "" && !t.isFinished;
      EmptyWordNeverFinishes(t, es[1..], cfg);
    }
  }

  /** In `zh` a recovery that keeps some typed text re-validates an empty range: it
      reports a correct word, counts nothing, and finishes the word when the mistake
      sat just past its end */
  lemma ZhRecoveryRevalidates(s: WordState, cfg: Settings, now: int, stamp: string)
    requires Inv(s, cfg.ignoreCase) && s.hasWrong && cfg.lang == "zh"
    requires FirstWrong(s.letterStates).value > 0
    ensures var o := Timer(s, cfg, now, stamp);
      && o.report == ReportCorrect
      && o.state.correctCount == s.correctCount
      && (o.state.isFinished <==> s.isFinished || FirstWrong(s.letterStates).value == |s.displayWord|)
  {
    var w := FirstWrong(s.letterStates).value;
    var r := Recover(s, cfg.lang);
    RecoverReady(s, cfg.lang, cfg.ignoreCase);
    assert |r.inputWord| == w && r.prevLen == w;
    ValidateAllCorrect(r, cfg.ignoreCase, now, stamp, cfg.firstWord);
  }

  // ---------------------------------------------------------------- visibility

  /** Hiding vowels or consonants treats a letter and its lower case alike: two words
      whose letters at `index` differ only in case show that letter the same way */
  lemma VowelHidingIgnoresCase(s: WordState, t: WordState, index: nat, hoverShows: bool, kind: DictationType)
    requires index < |s.displayWord| && index < |t.displayWord|
    requires StateAt(s.letterStates, index) == StateAt(t.letterStates, index)
    requires Lower(s.displayWord[index]) == Lower(t.displayWord[index])
    requires kind == HideVowel || kind == HideConsonant
    ensures LetterVisible(s, index, hoverShows, Dictation(true, kind))
         == LetterVisible(t, index, hoverShows, Dictation(true, kind))
  {
    VowelIgnoresCase(s.displayWord[index]);
    VowelIgnoresCase(t.displayWord[index]);
  }

  /** Hiding consonants shows exactly the letters hiding vowels hides */
  lemma HideConsonantComplementsHideVowel(s: WordState, index: nat, hoverShows: bool)
    requires index < |s.displayWord|
    requires StateAt(s.letterStates, index) != Correct && !hoverShows
    ensures LetterVisible(s, index, hoverShows, Dictation(true, HideConsonant))
        == !LetterVisible(s, index, hoverShows, Dictation(true, HideVowel))
  {
  }
}
