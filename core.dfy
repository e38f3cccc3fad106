/** Side to move and game outcomes (src/core.py). */
module Core {

  datatype Color = White | Black

  /** The side that moves after `c`. */
  function NextColor(c: Color): (r: Color)
    ensures r != c
  {
    match c
    case White => Black
    case Black => White
  }

  lemma NextColorInvolution(c: Color)
    ensures NextColor(NextColor(c)) == c
  {
  }

  /** Signed outcome of a PGN result label; anything unrecognised counts as a draw. */
  function ConvertResult(result: string): (r: int)
    ensures -1 <= r <= 1
    ensures r == 1 <==> result == "1-0"
    ensures r == -1 <==> result == "0-1"
    ensures result == "1/2-1/2" ==> r == 0
  {
    if result == "0-1" then -1
    else if result == "1-0" then 1
    else if result == "1/2-1/2" then 0
    else 0
  }
}
