/**
 The per-word typing state machine of the typing page: a word state is built
 from the headword, the typed text grows by `Add`, every change of the typed
 text runs the validation of the newly appended range, and 300 ms after a
 mistake a recovery step clears the error. React's state updates become pure
 transition functions over an immutable record; the length remembered between
 two validations (a ref in the component) is the field `prevLen`.
 */
module WordMachine {
  import opened Optional
  import opened Text
  import opened Letter

  /** The component's word state together with the remembered input length */
  datatype WordState = WordState(
    displayWord: string,
    inputWord: string,
    letterStates: seq<LetterState>,
    hasWrong: bool,
    hasMadeInputWrong: bool,
    isFinished: bool,
    correctCount: nat,
    wrongCount: nat,
    letterTimeArray: seq<int>,
    letterMistake: map<nat, seq<char>>,
    randomLetterVisible: seq<bool>,
    prevLen: nat,
    startTime: string,
    endTime: Option<string>)

  // ---------------------------------------------------------------- headword

  /** What one character of the name becomes on screen: ' ' the space glyph, '…' two dots */
  function Expand(c: char): string {
    if c == ' ' then [ExplicitSpace] else if c == '…' then ".." else [c]
  }

  /** Reference definition of the display word: every character expanded in place */
  function ExpandAll(s: string): string {
    if s == [] then [] else Expand(s[0]) + ExpandAll(s[1..])
  }

  /** `s.replace(new RegExp(c, 'g'), by)` for a one-character pattern without special meaning */
  function ReplaceChar(s: string, c: char, repl: string): (r: string)
    ensures c !in repl ==> c !in r
    ensures c !in s ==> r == s
    ensures forall x :: x in r ==> x in s || x in repl
  {
    if s == [] then [] else (if s[0] == c then repl else [s[0]]) + ReplaceChar(s[1..], c, repl)
  }

  /** The headword: spaces replaced, then ellipses replaced; a name that is not a
      string (None) makes the replacement throw and yields "" */
  function HeadWord(name: Option<string>): (r: string)
    ensures name.None? ==> r == ""
    ensures ' ' !in r && '…' !in r
  {
    match name
    case None => ""
    case Some(n) =>
      var spaced := ReplaceChar(n, ' ', [ExplicitSpace]);
      ReplaceChar(spaced, '…', "..")
  }

  lemma ReplaceCharAppend(a: string, b: string, c: char, repl: string)
    ensures ReplaceChar(a + b, c, repl) == ReplaceChar(a, c, repl) + ReplaceChar(b, c, repl)
  {
    if a == [] {
      assert a + b == b;
    } else {
      assert (a + b)[0] == a[0];
      assert (a + b)[1..] == a[1..] + b;
      ReplaceCharAppend(a[1..], b, c, repl);
    }
  }

  /** The two global replacements amount to expanding every character in place */
  lemma {:induction false} HeadWordExpands(n: string)
    ensures HeadWord(Some(n)) == ExpandAll(n)
  {
    if n != [] {
      HeadWordExpands(n[1..]);
      var first := if n[0] == ' ' then [ExplicitSpace] else [n[0]];
      assert ReplaceChar(n, ' ', [ExplicitSpace]) == first + ReplaceChar(n[1..], ' ', [ExplicitSpace]);
      ReplaceCharAppend(first, ReplaceChar(n[1..], ' ', [ExplicitSpace]), '…', "..");
      assert ReplaceChar(first, '…', "..") == Expand(n[0]);
    }
  }

  /** A name with neither spaces nor ellipses is shown as it is */
  lemma {:induction false} PlainNameShown(n: string)
    requires ' ' !in n && '…' !in n
    ensures HeadWord(Some(n)) == n
  {
    HeadWordExpands(n);
    PlainExpandsToItself(n);
  }

  lemma {:induction false} PlainExpandsToItself(n: string)
    requires ' ' !in n && '…' !in n
    ensures ExpandAll(n) == n
  {
    if n != [] {
      assert n[0] in n;
      assert forall x :: x in n[1..] ==> x in n;
      PlainExpandsToItself(n[1..]);
    }
  }

  // ---------------------------------------------------------------- init

  /** `n` states, all Normal */
  function Normals(n: nat): (r: seq<LetterState>)
    ensures |r| == n && forall i :: 0 <= i < n ==> r[i] == Normal
  {
    seq(n, _ => Normal)
  }

  /** `Math.random() > 0.4` for the first `n` characters, `draws(i)` being the i-th draw */
  function Mask(draws: nat -> real, n: nat): (m: seq<bool>)
    ensures |m| == n
    ensures forall i :: 0 <= i < n ==> m[i] == (draws(i) > 0.4)
  {
    if n == 0 then [] else Mask(draws, n - 1) + [draws(n - 1) > 0.4]
  }

  /** The fresh state for a new word, stamped with the start time */
  function Init(name: Option<string>, stamp: string, draws: nat -> real): (s: WordState)
    ensures s.displayWord == HeadWord(name)
    ensures |s.letterStates| == |s.displayWord|
    ensures forall i :: 0 <= i < |s.letterStates| ==> s.letterStates[i] == Normal
    ensures |s.randomLetterVisible| == |s.displayWord|
    ensures s.inputWord == "" && s.prevLen == 0
    ensures !s.hasWrong && !s.hasMadeInputWrong && !s.isFinished
    ensures s.correctCount == 0 && s.wrongCount == 0 && s.letterMistake == map[] && s.letterTimeArray == []
  {
    var w := HeadWord(name);
    WordState(w, "", Normals(|w|), false, false, false, 0, 0, [], map[], Mask(draws, |w|), 0, stamp, None)
  }

  // ---------------------------------------------------------------- add

  /** What a typed value appends: a typed space is stored as the space glyph */
  function Stored(value: string): string {
    if value == " " then [ExplicitSpace] else value
  }

  /** `updateAction.type == 'add'`: ignored while a mistake is shown */
  function Add(s: WordState, value: string): (r: WordState)
    ensures s.hasWrong ==> r == s
    ensures !s.hasWrong ==> |r.inputWord| == |s.inputWord| + |value|
    ensures r.inputWord[..|s.inputWord|] == s.inputWord
    ensures !s.hasWrong && value == " " ==> r.inputWord[|s.inputWord|] == ExplicitSpace
    ensures !s.hasWrong && value != " " ==> r.inputWord[|s.inputWord|..] == value
    ensures r.(inputWord := s.inputWord) == s
  {
    if s.hasWrong then s else s.(inputWord := s.inputWord + Stored(value))
  }

  // ---------------------------------------------------------------- validation

  /** Position `i` of the input equals the display word there, case-folded when
      ignoring case; a position past either end never agrees */
  predicate Agrees(input: string, display: string, i: nat, ignoreCase: bool) {
    && i < |input| && i < |display|
    && (if ignoreCase then Lower(input[i]) == Lower(display[i]) else input[i] == display[i])
  }

  /** The loop over the new range [from, |input|): the first position that disagrees */
  function FirstMismatch(input: string, display: string, from: nat, ignoreCase: bool): (r: Option<nat>)
    ensures r.Some? ==> from <= r.value < |input| && !Agrees(input, display, r.value, ignoreCase)
    ensures r.Some? ==> forall i :: from <= i < r.value ==> Agrees(input, display, i, ignoreCase)
    ensures r.None? ==> forall i :: from <= i < |input| ==> Agrees(input, display, i, ignoreCase)
    ensures r.Some? && from <= |display| ==> r.value <= |display|
    decreases |input| - from
  {
    if from >= |input| then None
    else if !Agrees(input, display, from, ignoreCase) then Some(from)
    else FirstMismatch(input, display, from + 1, ignoreCase)
  }

  /** `letterStates[i] = v` on a JavaScript array: past the end the array grows,
      and the holes it leaves read as Normal */
  function SetState(states: seq<LetterState>, i: nat, v: LetterState): (r: seq<LetterState>)
    ensures |r| == if i < |states| then |states| else i + 1
    ensures r[i] == v
    ensures forall j :: 0 <= j < |r| && j != i ==> r[j] == StateAt(states, j)
  {
    if i < |states| then states[i := v] else states + Normals(i - |states|) + [v]
  }

  function Max(a: nat, b: nat): nat {
    if a < b then b else a
  }

  /** The loop `letterStates[i] = 'correct'` for i in [lo, hi) */
  function MarkCorrect(states: seq<LetterState>, lo: nat, hi: nat): (r: seq<LetterState>)
    ensures |r| == if lo < hi then Max(|states|, hi) else |states|
    ensures forall j :: 0 <= j < |r| ==> r[j] == if lo <= j < hi then Correct else StateAt(states, j)
    decreases hi - lo
  {
    if lo >= hi then states else MarkCorrect(SetState(states, lo, Correct), lo + 1, hi)
  }

  /** `n` timestamps pushed by one validation, all read from the same clock value */
  function Repeat(now: int, n: nat): (r: seq<int>)
    ensures |r| == n
  {
    seq(n, _ => now)
  }

  /** Record the mistyped character `c` at position `w`: appended to the list there,
      created when absent */
  function AddMistake(m: map<nat, seq<char>>, w: nat, c: char): (r: map<nat, seq<char>>)
    ensures w in r && r[w] == (if w in m then m[w] else []) + [c]
    ensures forall k :: k in m && k != w ==> k in r && r[k] == m[k]
    ensures r.Keys == m.Keys + {w}
  {
    m[w := (if w in m then m[w] else []) + [c]]
  }

  /** What validation dispatches to the surrounding typing page */
  datatype Report = NoReport | ReportCorrect | ReportWrong(letterMistake: map<nat, seq<char>>)

  /** A transition's new state, its report and whether the beginner tip is shown */
  datatype Outcome = Outcome(state: WordState, report: Report, showTip: bool)

  /** The early return: nothing to validate */
  predicate Idle(s: WordState) {
    s.hasWrong || |s.inputWord| == 0 || |s.displayWord| == 0
  }

  /** The effect that runs whenever the typed text changes. `now` and `stamp` are
      the clock readings, `firstWord` says the word is the first word of the
      first chapter (where the tip is shown). */
  function Validate(s: WordState, ignoreCase: bool, now: int, stamp: string, firstWord: bool): (o: Outcome)
    ensures o.state.prevLen == |s.inputWord|
    ensures o.state.displayWord == s.displayWord && o.state.inputWord == s.inputWord
  {
    var n := |s.inputWord|;
    if Idle(s) then Outcome(s.(prevLen := n), NoReport, false)
    else match FirstMismatch(s.inputWord, s.displayWord, s.prevLen, ignoreCase)
      case None =>
        var k := if s.prevLen <= n then n - s.prevLen else 0;
        var marked := s.(letterStates := MarkCorrect(s.letterStates, s.prevLen, n),
                         letterTimeArray := s.letterTimeArray + Repeat(now, k),
                         correctCount := s.correctCount + k);
        var done := if n >= |s.displayWord| then marked.(isFinished := true, endTime := Some(stamp)) else marked;
        Outcome(done.(prevLen := n), ReportCorrect, false)
      case Some(w) =>
        var mistakes := AddMistake(s.letterMistake, w, s.inputWord[w]);
        var r := s.(letterStates := SetState(MarkCorrect(s.letterStates, s.prevLen, w), w, Wrong),
                    hasWrong := true, hasMadeInputWrong := true,
                    wrongCount := s.wrongCount + 1, letterTimeArray := [],
                    correctCount := s.correctCount + (w - s.prevLen),
                    letterMistake := mistakes, prevLen := n);
        Outcome(r, ReportWrong(mistakes), firstWord && s.wrongCount >= 3)
  }

  // ---------------------------------------------------------------- recovery

  /** `letterStates.findIndex(s => s === 'wrong')` */
  function FirstWrong(states: seq<LetterState>): (r: Option<nat>)
    ensures r.Some? ==> r.value < |states| && states[r.value] == Wrong
    ensures r.Some? ==> forall i :: 0 <= i < r.value ==> states[i] != Wrong
    ensures r.None? ==> forall i :: 0 <= i < |states| ==> states[i] != Wrong
  {
    if states == [] then None
    else if states[0] == Wrong then Some(0)
    else match FirstWrong(states[1..])
      case None => None
      case Some(i) => Some(i + 1)
  }

  /** The loop `letterStates[i] = 'normal'` for i from `w` to the end. Started at the
      first wrong position, it leaves no letter marked Wrong. */
  function ResetFrom(states: seq<LetterState>, w: nat): (r: seq<LetterState>)
    ensures |r| == |states|
    ensures FirstWrong(states) == Some(w) ==> forall i :: 0 <= i < |r| ==> r[i] != Wrong
  {
    seq(|states|, i requires 0 <= i < |states| => if i < w then states[i] else Normal)
  }

  function Min(a: nat, b: nat): nat {
    if a < b then a else b
  }

  /** The timer callback 300 ms after a mistake. In `zh` the input is cut back to the
      wrong position; in every other language the word starts over. */
  function Recover(s: WordState, lang: string): (r: WordState)
    ensures !r.hasWrong
    ensures r.displayWord == s.displayWord && |r.letterStates| == |s.letterStates|
    ensures r.correctCount == s.correctCount && r.wrongCount == s.wrongCount
    ensures r.letterMistake == s.letterMistake && r.isFinished == s.isFinished
  {
    if !s.hasWrong then s
    else if lang == "zh" then
      match FirstWrong(s.letterStates)
      case Some(w) =>
        s.(inputWord := s.inputWord[..Min(w, |s.inputWord|)], letterStates := ResetFrom(s.letterStates, w),
           hasWrong := false, prevLen := w)
      case None => s.(hasWrong := false, prevLen := 0)
    else s.(inputWord := "", letterStates := Normals(|s.letterStates|), hasWrong := false, prevLen := 0)
  }

  // ---------------------------------------------------------------- transitions

  /** Per-session settings read by the transitions */
  datatype Settings = Settings(lang: string, ignoreCase: bool, firstWord: bool)

  /** A change of the typed text re-runs validation (the effect depends on `inputWord`) */
  function Revalidate(before: WordState, after: WordState, cfg: Settings, now: int, stamp: string): Outcome {
    if after.inputWord == before.inputWord then Outcome(after, NoReport, false)
    else Validate(after, cfg.ignoreCase, now, stamp, cfg.firstWord)
  }

  /** Typing a value */
  function Type(s: WordState, value: string, cfg: Settings, now: int, stamp: string): Outcome {
    Revalidate(s, Add(s, value), cfg, now, stamp)
  }

  /** The recovery timer firing, with the validation its change of input triggers */
  function Timer(s: WordState, cfg: Settings, now: int, stamp: string): Outcome {
    Revalidate(s, Recover(s, cfg.lang), cfg, now, stamp)
  }

  /** Events the component reacts to */
  datatype Event = Typed(value: string, now: int, stamp: string) | TimerFired(now: int, stamp: string)

  function Apply(s: WordState, e: Event, cfg: Settings): Outcome {
    match e
    case Typed(v, now, stamp) => Type(s, v, cfg, now, stamp)
    case TimerFired(now, stamp) => if s.hasWrong then Timer(s, cfg, now, stamp) else Outcome(s, NoReport, false)
  }

  /** The state after a run of events */
  function Run(s: WordState, es: seq<Event>, cfg: Settings): WordState
    decreases |es|
  {
    if es == [] then s else Run(Apply(s, es[0], cfg).state, es[1..], cfg)
  }

  /** `wrongCount >= 4` dispatches the skip */
  predicate ShouldSkip(s: WordState) {
    s.wrongCount >= 4
  }

  // ---------------------------------------------------------------- visibility

  datatype DictationType = HideAll | HideVowel | HideConsonant | RandomHide
  datatype Dictation = Dictation(isOpen: bool, kind: DictationType)

  /** `getLetterVisible(index)`; `hoverShows` is hover while show-answer-on-hover is on.
      A mask entry missing for `index` reads as hidden. */
  function LetterVisible(s: WordState, index: nat, hoverShows: bool, d: Dictation): bool
    requires index < |s.displayWord|
  {
    if StateAt(s.letterStates, index) == Correct || hoverShows then true
    else if d.isOpen then
      match d.kind
      case HideAll => false
      case HideVowel => !IsVowelLetter(s.displayWord[index])
      case HideConsonant => IsVowelLetter(s.displayWord[index])
      case RandomHide => index < |s.randomLetterVisible| && s.randomLetterVisible[index]
    else true
  }
}
