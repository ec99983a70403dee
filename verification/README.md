# qwerty-learner typing core in Dafny

This project models the logic at the heart of qwerty-learner's typing page and
of its letter-shooting game, and proves properties of that model. The parts
modelled are:

- **The word state machine** (`WordMachine`, with `WordProperties`). A word is
  built from its headword. Typed characters are appended. Each newly typed range
  is validated against the displayed word, marking letters correct or wrong and
  recording mistakes. A mistake is recovered from either by cutting the input
  back to the wrong letter (`zh`) or by starting the word over (any other
  language). Four mistakes ask for the word to be skipped. A pure function
  decides which letters a dictation mode hides.
- **The notation component** (`Notation`, built on `NotationRegex`).
  - A notation such as `谢(xiè)谢(xie)` is split into (word, reading) units by
    the lazy pattern `/(.+?)\((.+?)\)/g`.
  - A non-kanji prefix of a unit is split off.
  - The units are grouped into display lines that break after punctuation.
  - The pinyin-only rendering gives each character a glyph, a letter state and
    a reading.
- **The pinyin helpers** (`Pinyin`, with `Text` for case folding): the
  tone-mark table, `normalizePinyin`, the tone-insensitive match and the pair
  parser.
- **The notation-stripping display helpers** (`NotationStrip`).
  `extractChineseFromNotation` deletes every `(…)` group. The word-list card and
  the result-screen chip each choose which word to display.
- **The game rules** (`Game`, with `GameProperties`):
  - the key handler: pause, start, targeting, score, level and spawn interval;
  - the discrete part of a frame: spawning, falling, escaped planes costing
    health, game over;
  - the restart.

Every transition is a pure function over an immutable record. Outside inputs are
parameters:

- clock readings (`now`, `stamp`);
- the random draws of the letter mask and the spawned plane;
- the window height and the bottom limit;
- the user's settings (language, ignore-case, dictation mode, show-on-hover).

The 300 ms recovery timer is an explicit `TimerFired` event. Reports to the
surrounding page (`REPORT_CORRECT_WORD`, `REPORT_WRONG_WORD`, the tip alert) are
values in `WordMachine.Outcome`.

Where the code and its documentation disagree, the model follows the code:

- `add` does not look at `isFinished`: input after the word is finished is
  still appended.
- The tip alert tests the mistake count before the increment (`wrongCount >= 3`
  in the effect's closure), so the tip appears on the fourth mistake, not the
  third.
- While a mistake is shown, the input may extend past the wrong letter. An input
  of several characters is validated as one range, so the input is not always
  "wrong index + 1" long.
- A mistake typed just past the end of the word writes `letterStates[len]`,
  which grows the array by one. Every reader treats the extra entry like the
  others, so the model pads with `Normal`.
- A `zh` recovery that keeps some input re-runs validation on an empty range.
  That run reports a correct word, and it finishes the word when the mistake
  sat just past its end (`WordProperties.ZhRecoveryRevalidates`).

## Model

| member | source | states |
|---|---|---|
| `WordMachine.HeadWord` | src/pages/Typing/components/WordPanel/components/Word/index.tsx:58-65 | a name that is not a string gives the empty headword; no displayed word ever contains a plain space or `…` |
| `WordMachine.HeadWordExpands` | src/pages/Typing/components/WordPanel/components/Word/index.tsx:60-61 | the headword is the name with each space replaced by the explicit-space glyph and each `…` by `..`, character by character, everything else kept |
| `WordMachine.PlainNameShown` | src/pages/Typing/components/WordPanel/components/Word/index.tsx:60-61 | a name without spaces or ellipses is displayed as it is |
| `WordMachine.Mask` | src/pages/Typing/components/WordPanel/components/Word/index.tsx:71 | one visibility flag per letter, set exactly when that letter's random draw exceeds 0.4 |
| `WordMachine.Init` | src/pages/Typing/components/WordPanel/components/Word/index.tsx:56-74 | a new word shows its headword with every letter Normal, one mask flag per letter, empty input, validation starting at 0, no mistake, zero counters, no mistakes or timestamps |
| `WordMachine.Add` | src/pages/Typing/components/WordPanel/components/Word/index.tsx:76-99 | while a mistake is shown nothing changes; otherwise the typed value is appended after the unchanged old input, a space stored as the explicit-space glyph, and no other field changes |
| `WordMachine.FirstMismatch` | src/pages/Typing/components/WordPanel/components/Word/index.tsx:190-205 | the scan returns the least position of the new range whose typed and displayed letters disagree (case-folded when ignoring case; a position past the word always disagrees), or none when all agree |
| `WordMachine.MarkCorrect` | src/pages/Typing/components/WordPanel/components/Word/index.tsx:209-213 | exactly the positions of the range become Correct, all others keep their state, and the array grows to cover the range |
| `WordMachine.SetState` | src/pages/Typing/components/WordPanel/components/Word/index.tsx:239 | the wrong position gets Wrong, every other position keeps its state, and writing past the end grows the array with Normal entries |
| `WordMachine.AddMistake` | src/pages/Typing/components/WordPanel/components/Word/index.tsx:245-249 | the typed character is appended to the mistakes already recorded at that position, creating the entry if absent; other entries are untouched |
| `WordMachine.Validate` | src/pages/Typing/components/WordPanel/components/Word/index.tsx:170-262 | every validation ends with the remembered length equal to the input length and leaves the input and the displayed word alone |
| `WordMachine.FirstWrong` | src/pages/Typing/components/WordPanel/components/Word/index.tsx:271-272 | the first Wrong letter state, or none when there is none |
| `WordMachine.ResetFrom` | src/pages/Typing/components/WordPanel/components/Word/index.tsx:276-278 | resetting keeps the number of letter states, and when it starts at the first Wrong letter no letter is left Wrong |
| `WordMachine.Recover` | src/pages/Typing/components/WordPanel/components/Word/index.tsx:264-300 | both recovery policies clear the mistake and keep the displayed word, the number of letter states, the counters, the recorded mistakes and the finished flag |
| `WordProperties.ValidateIdle` | src/pages/Typing/components/WordPanel/components/Word/index.tsx:180-183 | with a mistake shown, empty input or an empty word, validation only records the input length and reports nothing |
| `WordProperties.ValidateAllCorrect` | src/pages/Typing/components/WordPanel/components/Word/index.tsx:206-228 | when every new position agrees: those positions turn Correct and no other changes; one correct count and one timestamp per new character; finished exactly when the input reaches the word's length; a correct word is reported |
| `WordProperties.ValidateMismatch` | src/pages/Typing/components/WordPanel/components/Word/index.tsx:230-256 | at the first disagreeing position `w`: the earlier new positions turn Correct and `w` Wrong; one more mistake; the timestamps are dropped; the typed character is appended to `letterMistake[w]`; a wrong word is reported with the mistakes; the tip shows exactly on the first word of the first chapter when three mistakes were already counted |
| `WordProperties.PastEndIsMistake` | src/pages/Typing/components/WordPanel/components/Word/index.tsx:193-205 | a character typed past the end of the word is a mistake recorded at that position |
| `WordProperties.RecoverZh` | src/pages/Typing/components/WordPanel/components/Word/index.tsx:267-284 | in `zh` the input is cut back to the first wrong position, the states before it are kept and the rest reset, and validation resumes there |
| `WordProperties.RecoverOther` | src/pages/Typing/components/WordPanel/components/Word/index.tsx:285-292 | in any other language the input is emptied, every state is Normal and validation restarts at 0 |
| `WordProperties.ValidateGrows` | src/pages/Typing/components/WordPanel/components/Word/index.tsx:208-249 | one validation never lowers the correct or wrong count and never removes or shortens a recorded mistake list |
| `WordProperties.ApplyGrows` | src/pages/Typing/components/WordPanel/components/Word/index.tsx:264-300 | neither a typed value nor a recovery lowers a counter or drops a recorded mistake |
| `WordProperties.RunGrows` | src/pages/Typing/components/WordPanel/components/Word/index.tsx:170-300 | over any sequence of typing and timer events, counters and recorded mistakes only grow |
| `WordProperties.SkipStaysDue` | src/pages/Typing/components/WordPanel/components/Word/index.tsx:326-330 | once four mistakes are counted, the skip stays due whatever happens next |
| `WordProperties.FourthMistakeSkips` | src/pages/Typing/components/WordPanel/components/Word/index.tsx:242 | the fourth mistake makes the skip due |
| `WordProperties.LayoutFirstWrong` | src/pages/Typing/components/WordPanel/components/Word/index.tsx:271 | in a reachable layout, the wrong index recovery looks up is the one validation marked |
| `WordProperties.ReadyValidates` | src/pages/Typing/components/WordPanel/components/Word/index.tsx:170-262 | validating a state with no mistake shown, whose typed text up to the remembered length agrees with the word and is marked Correct, the rest Normal, yields a state of the reachable shape |
| `WordProperties.RecoverReady` | src/pages/Typing/components/WordPanel/components/Word/index.tsx:264-300 | after either recovery the state is ready for validation again, and the input has changed, so validation does run |
| `WordProperties.InitInv` | src/pages/Typing/components/WordPanel/components/Word/index.tsx:56-74 | a new word is in the reachable shape |
| `WordProperties.ApplyInv` | src/pages/Typing/components/WordPanel/components/Word/index.tsx:76-99 | typing (followed by validation) and the timer (recovery followed by validation) keep the reachable shape |
| `WordProperties.RunInv` | src/pages/Typing/components/WordPanel/components/Word/index.tsx:170-300 | any sequence of events keeps the reachable shape: without a mistake the input is a prefix of the word (case-folded when ignoring case), its letters marked Correct and the rest Normal; with one, the input before it agrees with the word and is marked Correct, the rest is Normal, and the wrong position lies inside the input and at most one past the word |
| `WordProperties.EmptyWordNeverFinishes` | src/pages/Typing/components/WordPanel/components/Word/index.tsx:180-183 | a word whose displayed form is empty is never finished, whatever is typed |
| `WordProperties.ZhRecoveryRevalidates` | src/pages/Typing/components/WordPanel/components/Word/index.tsx:267-284 | a `zh` recovery that keeps some input is followed by a validation of an empty range that reports a correct word, counts nothing, and finishes the word exactly when the mistake sat just past its end |
| `WordMachine.LetterVisible` | src/pages/Typing/components/WordPanel/components/Word/index.tsx:139-168 | `getLetterVisible`; its properties are `WordProperties.HideConsonantComplementsHideVowel` and `WordProperties.VowelHidingIgnoresCase` |
| `WordProperties.HideConsonantComplementsHideVowel` | src/pages/Typing/components/WordPanel/components/Word/index.tsx:147-152 | for a letter not already shown, hiding consonants shows it exactly when hiding vowels hides it |
| `Text.VowelIgnoresCase` | src/pages/Typing/components/WordPanel/components/Word/index.tsx:147-152 | the vowel test gives the same answer for a letter and its lower case |
| `WordProperties.VowelHidingIgnoresCase` | src/pages/Typing/components/WordPanel/components/Word/index.tsx:145-152 | in the hide-vowel and hide-consonant modes, letters that differ only in case are shown or hidden alike |
| `Text.LowerString` | src/utils/pinyin.ts:58 | lower-casing keeps the length, maps letter by letter, and leaves no capital |
| `Text.LowerStringIdempotent` | src/utils/pinyin.ts:58 | lower-casing twice is lower-casing once |
| `Pinyin.ToneBase` | src/utils/pinyin.ts:27-56 | the table maps a character to itself or to a base vowel, and leaves base vowels alone |
| `Pinyin.ToneBaseFamilies` | src/utils/pinyin.ts:26-52 | each of ā á ǎ à maps to a, each of ē é ě è to e, ī í ǐ ì to i, ō ó ǒ ò to o, ū ú ǔ ù to u and ǖ ǘ ǚ ǜ ü to v; every other character maps to itself |
| `Pinyin.StripTones` | src/utils/pinyin.ts:54-57 | the table is applied character by character |
| `Pinyin.NormalizePinyin` | src/utils/pinyin.ts:54-58 | normalization keeps the length and leaves no capital |
| `Pinyin.NormalizePinyinSpec` | src/utils/pinyin.ts:27-58 | a toned vowel normalizes to the letter of its own family (`è` to `e`, `ǚ` to `v`), and a character that is neither toned nor a capital is kept |
| `Pinyin.IsPinyinMatch` | src/utils/pinyin.ts:67-69 | `isPinyinMatch`; its properties are `Pinyin.ToneVariantsMatch`, `Pinyin.MatchIsEquivalence`, `Pinyin.MatchPreservesLength` and, for capitals, `Pinyin.UpperToneNotStripped` |
| `Pinyin.ToneVariantsMatch` | src/utils/pinyin.ts:67-69 | two spellings of the same length whose letters differ at most by being another toned form, or the plain letter, of the same vowel family match |
| `Pinyin.MatchIsEquivalence` | src/utils/pinyin.ts:67-69 | the match is reflexive, symmetric and transitive |
| `Pinyin.MatchPreservesLength` | src/utils/pinyin.ts:67-69 | matching spellings have the same length |
| `Pinyin.XieExample` | src/utils/pinyin.ts:61-69 | `xiè` matches `xie` |
| `Pinyin.UpperToneKept` | src/utils/pinyin.ts:54-58 | a capital whose lower case is toned keeps its tone after normalization, so it does not match its own lower case |
| `Pinyin.UpperToneNotStripped` | src/utils/pinyin.ts:54-58 | `È` normalizes to `è`, not `e`, and so does not match `è` |
| `Pinyin.NormalizePinyinCaselessSpec` | src/utils/pinyin.ts:61-66 | with lower-casing first, the result has no capital and no tone mark |
| `Pinyin.CaselessIgnoresCase` | src/utils/pinyin.ts:61-66 | with lower-casing first, normalization ignores case, is idempotent, and every spelling matches its lower case |
| `Pinyin.CaselessMatchesUpperTone` | src/utils/pinyin.ts:61-66 | with lower-casing first, every character matches its lower case |
| `Pinyin.CaselessAgreesWithoutToneCapitals` | src/utils/pinyin.ts:54-58 | on text without toned capitals, both orders of normalization agree |
| `Pinyin.ParseChineseNotation` | src/utils/pinyin.ts:11-19 | one pair per match of the pattern, each with a non-empty character part and a non-empty reading |
| `Pinyin.PairsOf` | src/utils/pinyin.ts:15-17 | the pairs follow the matches in order, one each |
| `Pinyin.RenderPairsOf` | src/utils/pinyin.ts:11-19 | writing the pairs back as `character(reading)` gives back the matched text exactly |
| `Pinyin.ParseRoundTrip` | src/utils/pinyin.ts:11-19 | on single-line text, the pairs written back give the notation up to the end of the last match, and no further match follows, so only trailing unmatched text is dropped |
| `Pinyin.ParseExample` | src/utils/pinyin.ts:6-8 | `谢(xiè)谢(xie)` parses to the pairs (谢, xiè) and (谢, xie) |
| `NotationRegex.CloseOf` | src/utils/pinyin.ts:12 | the lazy reading group ends at the first `)` at least two characters past the `(`, provided no line break comes before it |
| `NotationRegex.MatchAtSpec` | src/utils/pinyin.ts:12 | at a given start the pattern picks the first `(` and then the first `)` that make a match, and finds nothing only when no match starts there |
| `NotationRegex.NextMatchSpec` | src/utils/pinyin.ts:15 | the global search finds the leftmost match at or after the cursor, or none when there is none |
| `NotationRegex.AllMatches` | src/utils/pinyin.ts:15-17 | the repeated search gives real matches, in order, without overlap |
| `NotationRegex.MatchStartsAtCursor` | src/pages/Typing/components/WordPanel/components/Word/Notation.tsx:163-166 | on text without line breaks, a match always starts at the search cursor |
| `NotationRegex.SingleLineIsTight` | src/pages/Typing/components/WordPanel/components/Word/Notation.tsx:163-186 | on text without line breaks, each match starts where the previous one ended |
| `NotationRegex.MatchedEndIsFinal` | src/pages/Typing/components/WordPanel/components/Word/Notation.tsx:163 | the search loop stops because no match follows the last one |
| `Notation.PunctuationUnanchored` | src/pages/Typing/components/WordPanel/components/Word/Notation.tsx:23-26 | a word is punctuation exactly when some part of it is, a single character exactly when it is in the class, and the empty word never |
| `Notation.GroupIntoLines` | src/pages/Typing/components/WordPanel/components/Word/Notation.tsx:29-48 | `groupIntoLines`; its properties are `Notation.GroupIntoLinesSound` |
| `Notation.GroupIntoLinesSound` | src/pages/Typing/components/WordPanel/components/Word/Notation.tsx:29-48 | the lines put back together give the units exactly; no line is empty; punctuation appears only as the last unit of a line; every line but the last ends with punctuation |
| `Notation.KanjiSplitSpec` | src/pages/Typing/components/WordPanel/components/Word/Notation.tsx:169-181 | the split index is the first kanji that has a non-kanji before it, or 0 when there is none |
| `Notation.GetNotationInfo` | src/pages/Typing/components/WordPanel/components/Word/Notation.tsx:158-195 | `getNotationInfo`; its properties are `Notation.NotationWordsAreStripped`, `Notation.UnitInfosReadings`, `Notation.TrailingSegment`, `Notation.EmptyNotation` and `Notation.NoMatchIsOneSegment` |
| `Notation.UnitSplitRule` | src/pages/Typing/components/WordPanel/components/Word/Notation.tsx:169-185 | a unit with no split point is one segment with its reading; otherwise the prefix gets the reading `' '` and the rest keeps the matched reading |
| `Notation.UnitInfosReadings` | src/pages/Typing/components/WordPanel/components/Word/Notation.tsx:174-185 | every segment of a matched unit has a non-empty reading, and the last carries the matched reading |
| `Notation.NotationWordsAreStripped` | src/pages/Typing/components/WordPanel/components/Word/Notation.tsx:158-195 | the segments' words put together give the notation with every matched `(reading)` removed, and no segment word is empty |
| `Notation.EmptyNotation` | src/pages/Typing/components/WordPanel/components/Word/Notation.tsx:188-194 | the empty notation gives no segment |
| `Notation.NoMatchIsOneSegment` | src/pages/Typing/components/WordPanel/components/Word/Notation.tsx:188-193 | a non-empty notation with no match is one segment with an empty reading |
| `Notation.TrailingSegment` | src/pages/Typing/components/WordPanel/components/Word/Notation.tsx:188-193 | text after the last match is exactly the final segment, with an empty reading; without such text the final segment has a reading |
| `Notation.SingleLineReadings` | src/pages/Typing/components/WordPanel/components/Word/Notation.tsx:166-168 | on text without line breaks there is no gap text between matches, so every segment but the last has a reading |
| `Notation.CharPinyin` | src/pages/Typing/components/WordPanel/components/Word/Notation.tsx:89-98 | a character's reading is either its unit's whole reading or nothing, never part of it |
| `Notation.UnitCellsSpec` | src/pages/Typing/components/WordPanel/components/Word/Notation.tsx:79-115 | each character cell shows `_` when hidden, the explicit-space glyph for a space and the character otherwise; it uses the letter state at its running index, Normal when absent, and the reading rule above |
| `Notation.CellsSpec` | src/pages/Typing/components/WordPanel/components/Word/Notation.tsx:72-85 | the units of a line draw one cell per character of their words, in order, with the running index counting on |
| `Notation.LineCellsFlatten` | src/pages/Typing/components/WordPanel/components/Word/Notation.tsx:58-81 | rendering line by line draws the same cells as rendering the units in one run, because the index runs on across lines |
| `Notation.RenderedCells` | src/pages/Typing/components/WordPanel/components/Word/Notation.tsx:51-115 | the pinyin-only rendering draws exactly the characters of the notation with its readings removed, one cell per character, index `i` showing letter state `i` |
| `Notation.UnitReadings` | src/pages/Typing/components/WordPanel/components/Word/Notation.tsx:89-109 | in a unit, punctuation cells carry no reading, a one-character word carries the whole reading and later characters of a longer word carry none |
| `NotationStrip.FirstClose` | src/pages/Typing/components/WordList/WordCard.tsx:10 | the body `[^)]+` runs to the first `)` after the `(` |
| `NotationStrip.Extract` | src/pages/Typing/components/WordList/WordCard.tsx:9-11 | stripping never lengthens the text and adds no character |
| `NotationStrip.UnchangedIffNoGroup` | src/pages/Typing/components/WordList/WordCard.tsx:10 | the text comes back unchanged exactly when it holds no `(`, one or more non-`)` characters, `)` group |
| `NotationStrip.NoGroupUnchanged` | src/pages/Typing/components/WordList/WordCard.tsx:10 | a text with no removable group is returned as it is |
| `NotationStrip.GroupShortens` | src/pages/Typing/components/WordList/WordCard.tsx:10 | a text with a removable group loses at least one character |
| `NotationStrip.ExtractIsBare` | src/pages/Typing/components/WordList/WordCard.tsx:10 | no removable group is left in the output |
| `NotationStrip.ExtractIdempotent` | src/pages/Typing/components/ResultScreen/WordChip.tsx:9-11 | stripping twice is stripping once |
| `NotationStrip.ExtractIsSubsequence` | src/pages/Typing/components/WordList/WordCard.tsx:10 | the kept characters appear in the output in their original order |
| `NotationStrip.ExtractPlainPrefix` | src/pages/Typing/components/WordList/WordCard.tsx:10 | text without `(` in front of a notation comes through unchanged, ahead of the stripped rest |
| `NotationStrip.EmptyParensKept` | src/pages/Typing/components/ResultScreen/WordChip.tsx:10 | an empty `()` is not removed |
| `NotationStrip.UnclosedKept` | src/pages/Typing/components/WordList/WordCard.tsx:10 | a `(` with no `)` after it is not removed |
| `NotationStrip.StripUnit` | src/pages/Typing/components/WordList/WordCard.tsx:8-10 | a character followed by its parenthesised reading keeps the character and loses the reading |
| `NotationStrip.BedFrontExample` | src/pages/Typing/components/WordList/WordCard.tsx:8 | `床(chuáng)前(qián)` is displayed as `床前` |
| `NotationStrip.CardAndChipAgree` | src/pages/Typing/components/WordList/WordCard.tsx:21-26 | the word card and the result chip show the same word in every language but `romaji` and `hapin`, where the card shows the notation and the chip the name |
| `NotationStrip.ChipShowsNoReadings` | src/pages/Typing/components/ResultScreen/WordChip.tsx:26-31 | in `zh` with a notation the chip shows no removable reading group, and shows the notation's characters in their original order |
| `NotationStrip.DisplayNeverLonger` | src/pages/Typing/components/ResultScreen/WordChip.tsx:26-31 | the chip's word is never longer than the text it is taken from |
| `Game.IntervalFor` | src/pages/Game/index.tsx:211 | the spawn interval is never below 800 ms |
| `Game.Initial` | src/pages/Game/types.ts:32-44 | the state before the first game satisfies the game invariant |
| `Game.Target` | src/pages/Game/index.tsx:181-188 | a key targets a plane with its letter and the greatest `y`, the first such on ties, and targets nothing exactly when no plane carries the letter |
| `Game.Kept` | src/pages/Game/index.tsx:102-108 | the kept planes are planes of the frame, none below the limit |
| `Game.FrameDelta` | src/pages/Game/index.tsx:79-83 | a frame advances the planes by at most 50 ms, and by 16 ms when no previous frame time is known |
| `Game.Spawned` | src/pages/Game/index.tsx:86-96 | the planes already there stay in order; one plane is added, at the top edge, exactly when the spawn interval has elapsed, and then the spawn time becomes now; nothing but the planes and the spawn time changes |
| `Game.KeyDown` | src/pages/Game/index.tsx:154-220 | the key handler; its properties are `GameProperties.IgnoredKeys`, `EscapeTogglesPause`, `FirstKeyStarts`, `MissChangesNothing`, `ShotRemovesTarget` and `KeyDownInv` |
| `Game.Frame` | src/pages/Game/index.tsx:71-133 | one animation frame; its properties are `GameProperties.InactiveFrame`, `FrameCostsEscapes` and `FrameInv` |
| `Game.Start` | src/pages/Game/index.tsx:226-247 | a restart yields a state that satisfies the game invariant |
| `GameProperties.IgnoredKeys` | src/pages/Game/index.tsx:166-167 | a key that is not a lone ASCII letter, or comes with alt, ctrl or meta, changes nothing; neither does a letter while paused or after game over |
| `GameProperties.EscapeTogglesPause` | src/pages/Game/index.tsx:157-163 | Escape toggles the pause while a game runs and is not over, and changes nothing otherwise |
| `GameProperties.FirstKeyStarts` | src/pages/Game/index.tsx:172-178 | the first letter key only starts the game: no plane is shot and the score stays |
| `GameProperties.MissChangesNothing` | src/pages/Game/index.tsx:190 | a letter that no plane carries changes nothing |
| `GameProperties.ShotRemovesTarget` | src/pages/Game/index.tsx:180-219 | the targeted plane, and only it, is removed; a bullet is aimed at it; the score goes up by exactly one and the level follows the score |
| `GameProperties.SpawnIntervalBounded` | src/pages/Game/index.tsx:207-212 | in every state of the invariant the spawn interval is at least 800 ms |
| `GameProperties.LoseHealthSpec` | src/pages/Game/index.tsx:119-133 | health drops by the number of escaped planes but not below zero, and reaching zero ends the game and stops play |
| `GameProperties.KeptSpec` | src/pages/Game/index.tsx:102-108 | every plane is either kept or counted as escaped, every plane above the limit is kept, and the kept planes keep their relative order |
| `GameProperties.FallOnlyMovesDown` | src/pages/Game/index.tsx:103 | falling changes only a plane's height, never lifts it when time moves forward, and two frames move a plane as far as one frame of their summed time |
| `GameProperties.InactiveFrame` | src/pages/Game/index.tsx:72-77 | a frame while the game is not running, is paused or is over only records its time |
| `GameProperties.FrameCostsEscapes` | src/pages/Game/index.tsx:79-133 | a frame of a running game keeps exactly the planes still above the limit after falling and costs one point of health per escaped plane, never below zero |
| `GameProperties.StartForgetsPast` | src/pages/Game/index.tsx:226-247 | a restart forgets the previous game: a running, unpaused game with score 0, health 5, level 1, a 2000 ms interval and no planes or bullets |
| `GameProperties.KeyDownInv` | src/pages/Game/index.tsx:154-220 | a key press keeps the level and spawn interval in step with the score, and health in 0..5 and zero exactly when the game is over |
| `GameProperties.FrameInv` | src/pages/Game/index.tsx:71-133 | a frame keeps the game invariant |
| `GameProperties.RunGameInv` | src/pages/Game/index.tsx:154-247 | any sequence of key presses, frames and restarts keeps the game invariant |

## Left out

- Rendering, CSS, hotkeys, pronunciation, sounds, the tip alert's display and the
  `dispatch` wiring are not modelled. The reports are values of `Outcome`.
- Saving the word record and `onFinish` are not modelled: they call code outside
  the component.
- The IME plumbing of the pinyin handler is not part of this model. Its typed
  values arrive as `Typed` events, one call of `add` each.
- `Date.now()`, `getUtcStringForMixpanel()`, `performance.now()` and
  `Math.random()` are parameters. One validation uses a single clock reading for
  all the timestamps it appends. The code reads the clock once per letter, and
  the model keeps only the count and order of those timestamps.
- The 300 ms `setTimeout` of the recovery is the explicit `TimerFired` event.
  Whether it fires before the next keystroke is the caller's choice.
- `isKanji` is a parameter, because its definition is not part of this model.
- `EXPLICIT_SPACE` is given the value `␣` (U+2423), because the constants file
  is not part of this model. Every proof only needs it to differ from a space.
- The initial word state comes from a types file that is not part of this model.
  It is taken to have empty input, zero counters, false flags and empty
  collections; `endTime` absent is `None`.
- `toLowerCase` and `toUpperCase` are modelled for ASCII, the Latin-1 capitals
  and the capitals of the pinyin table only.
- Text.LowerString: does not model the full Unicode case mapping, only the
  repertoire named above, because no other characters occur in pinyin readings.
- The notation pattern is modelled with JavaScript's `.`, which stops at line
  terminators. Pinyin.ParseRoundTrip, Notation.SingleLineReadings,
  NotationRegex.MatchStartsAtCursor and NotationRegex.SingleLineIsTight are
  stated only for text without line breaks. With line breaks a match may start
  after the cursor, leaving a gap.
- Game positions and speeds are integers, not floats. The bullets' progress, the
  bullet-removal loop and the random spawn position, letter and id are not
  modelled: the spawned plane is a parameter, and so is its speed, which the code
  derives from the level.
- Strings are sequences of Unicode scalar values, while JavaScript strings count
  UTF-16 code units. A character outside the Basic Multilingual Plane, such as
  𠮷 (U+20BB7), is one character here and two in JavaScript. For words holding
  such characters the model's lengths and indices differ from the code's:
  `displayWord.length`, `split('')`, the regular expressions' and `substring`'s
  indices, the lengths of `letterStates` and `randomLetterVisible`, and the wrong
  index. Ordinary Chinese characters, kana and pinyin lie inside that plane.
- The game's pause and resume buttons and the navigation back to the gallery are
  not modelled. The pause behaviour is the Escape key's.
- GameProperties.ShotRemovesTarget: states the new level as `score / 10 + 1`
  only when the old level already followed the score. In every state of the game
  invariant that holds (`GameProperties.KeyDownInv`).

## Findings

| source | as written | input that shows it | evidently intended | confidence | as-written member | corrected member |
|---|---|---|---|---|---|---|
| src/utils/pinyin.ts:54-58 | the tone table is applied before `toLowerCase`, and the table lists only lower-case toned vowels, so a capital toned vowel keeps its tone | `isPinyinMatch("È", "è")` is false: `È` normalizes to `è` but `è` normalizes to `e` | the function's comment promises a case-insensitive and tone-insensitive match, which needs lower-casing before the table | not executed | `Pinyin.UpperToneNotStripped` | `Pinyin.CaselessMatchesUpperTone` |
