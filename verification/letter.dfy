/**
 The per-letter vocabulary shared by the word state machine and the notation
 renderer: the three letter states and the glyph that stands for a typed space.
 */
module Letter {

  datatype LetterState = Normal | Correct | Wrong

  /** `EXPLICIT_SPACE`, the visible glyph stored and shown in place of ' ' (␣).
      Every proof uses only that it differs from ' ' and from '…'. */
  const ExplicitSpace: char := '\U{2423}'

  /** `letterStates[i] || 'normal'`: a missing entry reads as Normal */
  function StateAt(states: seq<LetterState>, i: nat): LetterState
  {
    if i < |states| then states[i] else Normal
  }

  /** The character drawn for `c`: '_' when hidden, the space glyph for ' ', otherwise `c`.
      A plain space is never drawn. */
  function Glyph(c: char, visible: bool): (r: char)
    ensures r != ' '
  {
    if visible then (if c == ' ' then ExplicitSpace else c) else '_'
  }
}
