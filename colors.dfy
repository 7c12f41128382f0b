/** The feedback colours of the game, the two code tables that translate between
    one-letter codes and colours, and the value types Letter and Guess. */
module Colors {

  /** The colour the game gives one guessed letter: GRAY (absent),
      YELLOW (present elsewhere) or GREEN (right place). */
  datatype Color = Gray | Yellow | Green

  datatype Option<+T> = None | Some(value: T)

  /** The three codes the parse table knows: C (charcoal), Y and G. */
  const Codes: set<string> := {"C", "Y", "G"}

  /** The parse table: a code outside the table is a failed lookup. */
  function ParseColor(code: string): (r: Option<Color>)
    ensures r.None? <==> code !in Codes
    ensures r == Some(Gray) ==> code == "C"
    ensures r == Some(Yellow) ==> code == "Y"
    ensures r == Some(Green) ==> code == "G"
  {
    if code == "C" then Some(Gray)
    else if code == "Y" then Some(Yellow)
    else if code == "G" then Some(Green)
    else None
  }

  /** The print table: every colour has a one-letter code that the parse table
      maps back to that colour. */
  function PrintColor(c: Color): (code: string)
    ensures code in Codes
    ensures ParseColor(code) == Some(c)
  {
    match c
    case Gray => "C"
    case Yellow => "Y"
    case Green => "G"
  }

  /** Printing the colour a code parses to gives the code back. */
  lemma ParseThenPrint(code: string)
    requires code in Codes
    ensures ParseColor(code).Some? && PrintColor(ParseColor(code).value) == code
  {
  }

  /** The print table is one-to-one: two colours never share a code. */
  lemma PrintInjective(c: Color, d: Color)
    ensures PrintColor(c) == PrintColor(d) <==> c == d
  {
  }

  /** One guessed letter with its colour. The letter is the text before the
      colon of its token, which the parser does not restrict to one character. */
  datatype Letter = Letter(text: string, color: Color)

  /** One full round of feedback, letters in guess order. */
  datatype Guess = Guess(letters: seq<Letter>)
}
