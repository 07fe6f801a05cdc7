/** The two head movements, each with a display character and a code. */
module Directions {
  import opened Wrappers
  import opened Errors

  datatype Direction = LEFT | RIGHT

  /** `Direction.values()`: the constants in declaration order. */
  const Values: seq<Direction> := [LEFT, RIGHT]

  function DisplayChar(d: Direction): char {
    match d
    case LEFT => 'L'
    case RIGHT => 'R'
  }

  /** The direction's code inside a genome. */
  function Code(d: Direction): string {
    match d
    case LEFT => "0"
    case RIGHT => "00"
  }

  /** The first direction among `candidates` whose code is `code`. */
  function FindByCode(code: string, candidates: seq<Direction>): (r: Option<Direction>)
    ensures r.Some? ==> r.value in candidates && Code(r.value) == code
    ensures r.None? ==> forall d :: d in candidates ==> Code(d) != code
  {
    if candidates == [] then None
    else if Code(candidates[0]) == code then Some(candidates[0])
    else FindByCode(code, candidates[1..])
  }

  /** `Direction.fromCode`: "0" is LEFT, "00" is RIGHT, anything else fails. */
  function FromCode(code: string): (r: Result<Direction, CodecError>)
    ensures code == "0" ==> r == Success(LEFT)
    ensures code == "00" ==> r == Success(RIGHT)
    ensures code != "0" && code != "00" ==> r == Failure(UnsupportedMoveCode(code))
  {
    match FindByCode(code, Values)
    case Some(d) => Success(d)
    case None =>
      assert LEFT in Values && RIGHT in Values;
      Failure(UnsupportedMoveCode(code))
  }

  /** Decoding a direction's own code gives the direction back. */
  lemma FromCodeOfCode(d: Direction)
    ensures FromCode(Code(d)) == Success(d)
  {
  }

  /** `Direction.toString`: the display character as a one-character string. */
  function ToString(d: Direction): (r: string)
    ensures r == "L" <==> d == LEFT
    ensures r == "R" <==> d == RIGHT
  {
    [DisplayChar(d)]
  }
}
