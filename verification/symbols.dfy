/** `TicTacToeSymbol`: the two marks a cell can hold. */
module Symbols {

  /** Declared in this order in the enum: O, then X. */
  datatype Symbol = O | X

  /** `other()`: the opponent's mark. */
  function Other(s: Symbol): (r: Symbol)
    ensures r != s
  {
    match s
    case X => O
    case O => X
  }

  /** Taking the other mark twice gives the mark back, so `Other` is a
      bijection between the two marks. */
  lemma OtherInvolution(s: Symbol)
    ensures Other(Other(s)) == s
    ensures Other(s) == (if s == X then O else X)
  {
  }

  /** `asEmoji()`: a cross (U+274C) for X, a hollow circle (U+2B55) for O. */
  function AsEmoji(s: Symbol): (e: string)
    ensures |e| == 1
    ensures e[0] == (if s == X then '\U{274C}' else '\U{2B55}')
  {
    match s
    case X => "\U{274C}"
    case O => "\U{2B55}"
  }

  /** The two marks are shown differently. */
  lemma AsEmojiInjective(a: Symbol, b: Symbol)
    ensures AsEmoji(a) == AsEmoji(b) <==> a == b
  {
  }
}
