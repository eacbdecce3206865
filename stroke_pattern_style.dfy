// `validateStrokePatternStyle` (src/lib/types/stroke-pattern-style.ts): a
// dash pattern alternates stroke and gap lengths, so it needs at least two
// items and an even count. A thrown error is an `Err` with its message.

module StrokePatternStyle {
  import opened Wrappers

  const TOO_SHORT_MESSAGE: string :=
    "Pattern must have at least 2 items, one for the stroke length and one for the gap length."
  const ODD_LENGTH_MESSAGE: string :=
    "Pattern must have an even number of items, alternating between stroke length and gap length."

  /** The check, over any element type: the lengths are never looked at. */
  function ValidateStrokePatternStyle<T>(pattern: seq<T>): (r: Result<()>)
    ensures r.Ok? <==> |pattern| >= 2 && |pattern| % 2 == 0
    ensures |pattern| < 2 ==> r == Err(TOO_SHORT_MESSAGE)
    ensures |pattern| >= 2 && |pattern| % 2 != 0 ==> r == Err(ODD_LENGTH_MESSAGE)
  {
    if |pattern| < 2 then Err(TOO_SHORT_MESSAGE)
    else if |pattern| % 2 != 0 then Err(ODD_LENGTH_MESSAGE)
    else Ok(())
  }

  /** Only the length decides: patterns of equal length get the same verdict whatever their items. */
  lemma OnlyLengthMatters<T>(p: seq<T>, q: seq<T>)
    requires |p| == |q|
    ensures ValidateStrokePatternStyle(p) == ValidateStrokePatternStyle(q)
  {
  }

  /** A one-item pattern is odd too, but the length check comes first. */
  lemma SingleItemIsTooShort<T>(x: T)
    ensures ValidateStrokePatternStyle([x]) == Err(TOO_SHORT_MESSAGE)
    ensures |[x]| % 2 != 0
  {
  }
}
