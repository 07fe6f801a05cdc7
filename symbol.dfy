/** The tape alphabet: eight symbols, each with a display character and a run-of-zeros code. */
module Symbols {
  import opened Wrappers
  import opened Errors
  import opened JavaText

  datatype Symbol = ZERO | ONE | BLANK | I | C | D | W | X

  /** `Symbol.values()`: the constants in declaration order. */
  const Values: seq<Symbol> := [ZERO, ONE, BLANK, I, C, D, W, X]

  /** `Values` lists every symbol. */
  lemma ValuesComplete(s: Symbol)
    ensures s in Values
  {
    match s
    case ZERO => assert Values[0] == s;
    case ONE => assert Values[1] == s;
    case BLANK => assert Values[2] == s;
    case I => assert Values[3] == s;
    case C => assert Values[4] == s;
    case D => assert Values[5] == s;
    case W => assert Values[6] == s;
    case X => assert Values[7] == s;
  }

  /** The character shown for the symbol on the tape. */
  function DisplayChar(s: Symbol): char {
    match s
    case ZERO => '0'
    case ONE => '1'
    case BLANK => '_'
    case I => 'I'
    case C => 'C'
    case D => 'D'
    case W => 'W'
    case X => 'X'
  }

  /** The symbol's code inside a genome. */
  function Code(s: Symbol): string {
    match s
    case ZERO => "0"
    case ONE => "00"
    case BLANK => "000"
    case I => "0000"
    case C => "00000"
    case D => "000000"
    case W => "0000000"
    case X => "00000000"
  }

  /** Every code is a run of zeros as long as the symbol's 1-based position in `Values`. */
  lemma CodeIsRunOfZeros(k: nat)
    requires k < |Values|
    ensures Code(Values[k]) == Repeat('0', k + 1)
  {
  }

  /** No two symbols share a code or a display character. */
  lemma CodesAndCharsDistinct(a: Symbol, b: Symbol)
    requires a != b
    ensures Code(a) != Code(b)
    ensures DisplayChar(a) != DisplayChar(b)
  {
  }

  /** The first symbol among `candidates` whose code is `code`, as the loop over `values()` finds it. */
  function FindByCode(code: string, candidates: seq<Symbol>): (r: Option<Symbol>)
    ensures r.Some? ==> r.value in candidates && Code(r.value) == code
    ensures r.None? ==> forall s :: s in candidates ==> Code(s) != code
  {
    if candidates == [] then None
    else if Code(candidates[0]) == code then Some(candidates[0])
    else FindByCode(code, candidates[1..])
  }

  /** `Symbol.fromCode`: exact match of the whole code, no prefix matching. */
  function FromCode(code: string): (r: Result<Symbol, CodecError>)
    ensures r.Success? <==> exists s :: Code(s) == code
    ensures r.Success? ==> Code(r.value) == code
    ensures r.Failure? ==> r.error == UnsupportedSymbolCode(code)
  {
    match FindByCode(code, Values)
    case Some(s) => Success(s)
    case None =>
      forall s: Symbol ensures s in Values { ValuesComplete(s); }
      Failure(UnsupportedSymbolCode(code))
  }

  /** Decoding a symbol's own code gives the symbol back. */
  lemma FromCodeOfCode(s: Symbol)
    ensures FromCode(Code(s)) == Success(s)
  {
    var r := FromCode(Code(s));
    if r.value != s {
      CodesAndCharsDistinct(r.value, s);
    }
  }

  /** The first symbol among `candidates` shown as `c`. */
  function FindByChar(c: char, candidates: seq<Symbol>): (r: Option<Symbol>)
    ensures r.Some? ==> r.value in candidates && DisplayChar(r.value) == c
    ensures r.None? ==> forall s :: s in candidates ==> DisplayChar(s) != c
  {
    if candidates == [] then None
    else if DisplayChar(candidates[0]) == c then Some(candidates[0])
    else FindByChar(c, candidates[1..])
  }

  /** `Symbol.fromChar`: '_' is checked first, then the loop over `values()`. */
  function FromChar(c: char): (r: Result<Symbol, CodecError>)
    ensures r.Success? <==> exists s :: DisplayChar(s) == c
    ensures r.Success? ==> DisplayChar(r.value) == c
    ensures r.Failure? ==> r.error == UnsupportedSymbolChar(c)
  {
    if c == DisplayChar(BLANK) then Success(BLANK)
    else
      match FindByChar(c, Values)
      case Some(s) => Success(s)
      case None =>
        forall s: Symbol ensures s in Values { ValuesComplete(s); }
        Failure(UnsupportedSymbolChar(c))
  }

  /** Reading a symbol's display character gives the symbol back. */
  lemma FromCharOfDisplayChar(s: Symbol)
    ensures FromChar(DisplayChar(s)) == Success(s)
  {
    var r := FromChar(DisplayChar(s));
    if r.value != s {
      CodesAndCharsDistinct(r.value, s);
    }
  }

  /** `Symbol.toString`: the display character as a one-character string. */
  function ToString(s: Symbol): (r: string)
    ensures |r| == 1 && FromChar(r[0]) == Success(s)
  {
    FromCharOfDisplayChar(s);
    [DisplayChar(s)]
  }
}
