/** The failures the simulator reports, in place of the IllegalArgumentException messages it throws. */
module Errors {

  /** A code or character that one of the codecs does not know. */
  datatype CodecError =
    | InvalidStateCode(code: string)
    | UnsupportedSymbolCode(code: string)
    | UnsupportedSymbolChar(c: char)
    | UnsupportedMoveCode(code: string)

  /** A failure while building the machine from a genome and an input. */
  datatype DecodeError =
    | EmptyGenome
    | InvalidRuleFormat(rule: string, parts: nat)
    | BadRule(rule: string, cause: CodecError)
    | NoTransitions
    | NegativeDecimal(value: int)
    | NotBinaryOrDecimal(input: string)
}
