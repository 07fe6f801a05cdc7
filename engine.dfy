/**
 * The machine's behaviour as functions on values: the configuration, one step, the run loop,
 * the configuration the input loader produces, and the result window read off the final tape.
 * The class in module Machine is proved to follow these functions.
 */
module Engine {
  import opened Wrappers
  import opened Errors
  import opened JavaText
  import opened Transitions
  import opened Symbols
  import Directions
  import opened Genome

  const INITIAL_STATE: string := "q0"
  const MAX_STEPS: nat := 10000

  /** The initial state is the state a code of one zero names. */
  lemma InitialStateIsStateZero(code: string)
    requires code == StateCode(0)
    ensures DecodeState(code) == Success(INITIAL_STATE)
    ensures StateName(0) == INITIAL_STATE
  {
    assert NatToString(0) == [DigitChar(0)];
    assert StateName(0) == ['q', '0'];
    DecodeStateOfCode(0);
  }

  /** The tape: sparse, any integer position, a missing cell reads as BLANK. */
  type Tape = map<int, Symbol>

  /** `tape.getOrDefault(p, Symbol.BLANK)`: the stored symbol, BLANK for a cell never written. */
  function Read(tape: Tape, p: int): (r: Symbol)
    ensures p in tape ==> r == tape[p]
    ensures p !in tape ==> r == BLANK
  {
    if p in tape then tape[p] else BLANK
  }

  /** `tape.put(p, s)` then `getOrDefault`: cell p reads s, every other cell as before. */
  lemma ReadAfterPut(tape: Tape, p: int, s: Symbol, q: int)
    ensures Read(tape[p := s], q) == if q == p then s else Read(tape, q)
  {
  }

  /** Two tapes that read the same everywhere. */
  ghost predicate SameReads(t1: Tape, t2: Tape) {
    forall p :: Read(t1, p) == Read(t2, p)
  }

  /** The machine's mutable state: current state, tape, head, steps taken and the halted flag. */
  datatype Config = Config(state: string, tape: Tape, head: int, steps: nat, halted: bool)

  /**
   * What every reachable configuration satisfies: at most MAX_STEPS steps, a machine still
   * running has steps left, and the head is within one cell per step of where it started
   * (cell 0 or 1), so it stays far inside the range of a Java int.
   */
  ghost predicate Sane(c: Config) {
    && c.steps <= MAX_STEPS
    && (c.halted || c.steps < MAX_STEPS)
    && -(c.steps as int) <= c.head <= c.steps + 1
  }

  lemma SaneHeadFitsInt(c: Config)
    requires Sane(c)
    ensures INT_MIN < c.head < INT_MAX
  {
  }

  /** The key the machine looks up in configuration `c`. */
  function CurrentKey(c: Config): TransitionKey {
    TransitionKey(c.state, Read(c.tape, c.head))
  }

  /**
   * `step()`: nothing happens once halted; with no rule for (state, symbol under the head) the
   * machine halts and nothing else changes; otherwise the rule's symbol is written under the
   * head, the state changes, the head moves by one, the cell under the new head is
   * materialised as BLANK if absent, and one step is counted, halting at MAX_STEPS.
   */
  function Step(table: Table, c: Config): (r: Config)
    ensures c.halted ==> r == c
    ensures !c.halted && CurrentKey(c) !in table ==> r == c.(halted := true)
    ensures !c.halted && CurrentKey(c) in table ==>
      var rule := table[CurrentKey(c)];
      && r.state == rule.nextState
      && Read(r.tape, c.head) == rule.writeSymbol
      && (forall p :: p != c.head ==> Read(r.tape, p) == Read(c.tape, p))
      && r.head == (if rule.moveDirection == Directions.LEFT then c.head - 1 else c.head + 1)
      && r.head in r.tape
      && r.steps == c.steps + 1
      && r.halted == (r.steps >= MAX_STEPS)
  {
    if c.halted then c
    else
      var key := CurrentKey(c);
      if key !in table then c.(halted := true)
      else
        var rule := table[key];
        var written := c.tape[c.head := rule.writeSymbol];
        var head := match rule.moveDirection
          case LEFT => c.head - 1
          case RIGHT => c.head + 1;
        var tape := if head in written then written else written[head := BLANK];
        Config(rule.nextState, tape, head, c.steps + 1, c.steps + 1 >= MAX_STEPS)
  }

  /** A step keeps a configuration sane, never clears `halted` and never lowers the step count. */
  lemma StepKeepsSane(table: Table, c: Config)
    requires Sane(c)
    ensures Sane(Step(table, c))
    ensures c.halted ==> Step(table, c).halted
    ensures c.steps <= Step(table, c).steps <= c.steps + 1
  {
  }

  /**
   * Materialising BLANK cells does not change behaviour: configurations whose tapes read the
   * same step to configurations whose tapes read the same.
   */
  lemma StepRespectsSameReads(table: Table, c1: Config, c2: Config)
    requires SameReads(c1.tape, c2.tape)
    requires c1.(tape := c2.tape) == c2
    ensures SameReads(Step(table, c1).tape, Step(table, c2).tape)
    ensures Step(table, c1).(tape := Step(table, c2).tape) == Step(table, c2)
  {
    assert Read(c1.tape, c1.head) == Read(c2.tape, c2.head);
    var r1, r2 := Step(table, c1), Step(table, c2);
    if !c1.halted && CurrentKey(c1) in table {
      forall p ensures Read(r1.tape, p) == Read(r2.tape, p) {
        if p != c1.head {
          assert Read(r1.tape, p) == Read(c1.tape, p);
        }
      }
    }
  }

  /**
   * The run loop `while (!halted) step();`, with the operator's abort: before the k-th step
   * `quit(k)` may halt the machine without a step.
   */
  function Run(table: Table, c: Config, quit: nat -> bool, k: nat): (r: Config)
    requires Sane(c)
    ensures Sane(r) && r.halted
    ensures c.halted ==> r == c
    ensures c.steps <= r.steps <= MAX_STEPS
    decreases if c.halted then 0 else 1, MAX_STEPS - c.steps
  {
    StepKeepsSane(table, c);
    if c.halted then c
    else if quit(k) then c.(halted := true)
    else Run(table, Step(table, c), quit, k + 1)
  }

  /** The operator who never aborts. */
  function NeverQuit(k: nat): bool {
    false
  }

  /**
   * Why an uninterrupted run stopped: either it used up MAX_STEPS steps, or there is no rule
   * for the final state and the symbol under the head.
   */
  lemma {:induction false} RunHaltReason(table: Table, c: Config, k: nat)
    requires Sane(c) && !c.halted
    ensures var r := Run(table, c, NeverQuit, k);
      r.steps == MAX_STEPS || CurrentKey(r) !in table
    decreases MAX_STEPS - c.steps
  {
    StepKeepsSane(table, c);
    var c' := Step(table, c);
    if !c'.halted {
      RunHaltReason(table, c', k + 1);
    }
  }

  // ---------------------------------------------------------------------------------------
  // Loading the input
  // ---------------------------------------------------------------------------------------

  /**
   * The characters `loadInput` puts on the tape: a string of '0' and '1' as it is; otherwise a
   * decimal int d, negative rejected, becomes d copies of ZERO's display character.
   */
  function TapeString(input: string): (r: Result<string, DecodeError>)
    ensures IsBinary(input) ==> r == Success(input)
    ensures r.Success? ==> IsBinary(r.value)
    ensures !IsBinary(input) && ParseInt(input).None? ==> r == Failure(NotBinaryOrDecimal(input))
    ensures !IsBinary(input) && ParseInt(input).Some? && ParseInt(input).value < 0 ==>
      r == Failure(NegativeDecimal(ParseInt(input).value))
  {
    if IsBinary(input) then Success(input)
    else
      match ParseInt(input)
      case None => Failure(NotBinaryOrDecimal(input))
      case Some(d) =>
        if d < 0 then Failure(NegativeDecimal(d)) else Success(Repeat(DisplayChar(ZERO), d))
  }

  /** The longest prefix of `t` whose characters `Symbol.fromChar` knows, decoded. */
  function DecodePrefix(t: string): (r: seq<Symbol>)
    ensures |r| <= |t|
    ensures forall i :: 0 <= i < |r| ==> FromChar(t[i]) == Success(r[i])
    ensures |r| < |t| ==> FromChar(t[|r|]).Failure?
    decreases |t|
  {
    if t == [] then []
    else
      match FromChar(t[0])
      case Failure(_) => []
      case Success(s) => [s] + DecodePrefix(t[1..])
  }

  /** Every character of a binary string decodes: the loader's internal error cannot happen. */
  lemma BinaryDecodes(t: string)
    requires IsBinary(t)
    ensures |DecodePrefix(t)| == |t|
    ensures forall i :: 0 <= i < |t| ==> DecodePrefix(t)[i] == (if t[i] == '0' then ZERO else ONE)
  {
    var r := DecodePrefix(t);
    if |r| < |t| {
      FromCharOfDisplayChar(if t[|r|] == '0' then ZERO else ONE);
    }
    forall i | 0 <= i < |t| ensures r[i] == (if t[i] == '0' then ZERO else ONE) {
      FromCharOfDisplayChar(if t[i] == '0' then ZERO else ONE);
    }
  }

  /** Cell 0 BLANK, then the symbols written one by one from cell 1 on. */
  function InitialTape(syms: seq<Symbol>): (r: Tape)
    ensures forall p :: p in r <==> 0 <= p <= |syms|
    ensures r[0] == BLANK
    ensures forall p :: 1 <= p <= |syms| ==> r[p] == syms[p - 1]
  {
    if syms == [] then map[0 := BLANK]
    else InitialTape(syms[..|syms| - 1])[|syms| := syms[|syms| - 1]]
  }

  /** Writing one more symbol puts it on the next cell. */
  lemma InitialTapeSnoc(syms: seq<Symbol>, s: Symbol)
    ensures InitialTape(syms + [s]) == InitialTape(syms)[|syms| + 1 := s]
  {
    var longer := syms + [s];
    assert longer[..|longer| - 1] == syms && longer[|longer| - 1] == s;
  }

  /** The configuration after `loadInput`, or the failure it throws. */
  function Load(input: string): (r: Result<Config, DecodeError>)
    ensures r.Success? <==> TapeString(input).Success?
  {
    match TapeString(input)
    case Failure(e) => Failure(e)
    case Success(t) =>
      Success(Config(INITIAL_STATE, InitialTape(DecodePrefix(t)), if t == "" then 0 else 1, 0, false))
  }

  /**
   * A binary input is written verbatim from cell 1, cell 0 is BLANK, nothing else is on the
   * tape, the head is on cell 1 (cell 0 for the empty input), and the machine starts in q0.
   */
  lemma LoadBinary(input: string)
    requires IsBinary(input)
    ensures Load(input).Success?
    ensures var c := Load(input).value;
      && (forall p :: p in c.tape <==> 0 <= p <= |input|)
      && c.tape[0] == BLANK
      && (forall p :: 1 <= p <= |input| ==> DisplayChar(c.tape[p]) == input[p - 1])
      && c.head == (if input == "" then 0 else 1)
      && c.state == INITIAL_STATE && c.steps == 0 && !c.halted
      && Sane(c)
  {
    BinaryDecodes(input);
    var c := Load(input).value;
    forall p | 1 <= p <= |input| ensures DisplayChar(c.tape[p]) == input[p - 1] {
      assert c.tape[p] == DecodePrefix(input)[p - 1];
    }
  }

  /** Any other input that reads as a decimal d >= 0 puts d ZERO cells after the BLANK cell 0. */
  lemma LoadDecimal(input: string, d: nat)
    requires !IsBinary(input) && ParseInt(input) == Some(d)
    ensures Load(input).Success?
    ensures var c := Load(input).value;
      && (forall p :: p in c.tape <==> 0 <= p <= d)
      && c.tape[0] == BLANK
      && (forall p :: 1 <= p <= d ==> c.tape[p] == ZERO)
      && c.head == (if d == 0 then 0 else 1)
      && c.state == INITIAL_STATE && c.steps == 0 && !c.halted
  {
    var t := Repeat('0', d);
    BinaryDecodes(t);
    var c := Load(input).value;
    forall p | 1 <= p <= d ensures c.tape[p] == ZERO {
      assert c.tape[p] == DecodePrefix(t)[p - 1];
    }
  }

  /** The input "5" reads as five ZERO cells from cell 1 on, the head on the first of them. */
  lemma LoadFive(input: string)
    requires input == "5"
    ensures Load(input).Success?
    ensures var c := Load(input).value;
      && (forall p :: Read(c.tape, p) == if 1 <= p <= 5 then ZERO else BLANK)
      && c.head == 1
  {
    assert !IsBinary(input) by { assert input[0] == '5'; }
    assert ParseInt(input) == Some(5) by {
      assert NatToString(5) == input;
      ParseIntOfNatToString(5);
    }
    LoadDecimal(input, 5);
  }

  // ---------------------------------------------------------------------------------------
  // The result window
  // ---------------------------------------------------------------------------------------

  /** The positions holding a symbol other than BLANK. */
  ghost function NonBlank(tape: Tape): set<int> {
    set p | p in tape && tape[p] != BLANK
  }

  lemma HasElement(s: set<int>)
    requires s != {}
    ensures exists x :: x in s
  {
    if forall x :: x !in s {
      assert false;
    }
  }

  ghost function Least(s: set<int>): (m: int)
    requires s != {}
    ensures m in s && forall p :: p in s ==> m <= p
  {
    HasElement(s);
    var x :| x in s;
    if s == {x} then x
    else
      var m' := Least(s - {x});
      assert forall p :: p in s ==> p == x || p in s - {x};
      if x < m' then x else m'
  }

  ghost function Greatest(s: set<int>): (m: int)
    requires s != {}
    ensures m in s && forall p :: p in s ==> p <= m
  {
    HasElement(s);
    var x :| x in s;
    if s == {x} then x
    else
      var m' := Greatest(s - {x});
      assert forall p :: p in s ==> p == x || p in s - {x};
      if x > m' then x else m'
  }

  /** The display characters of the cells `lo` to `hi`, inclusive. */
  function Render(tape: Tape, lo: int, hi: int): (r: string)
    ensures |r| == if lo <= hi then hi - lo + 1 else 0
    ensures forall i :: 0 <= i < |r| ==> r[i] == DisplayChar(Read(tape, lo + i))
    decreases hi - lo
  {
    if hi < lo then "" else Render(tape, lo, hi - 1) + [DisplayChar(Read(tape, hi))]
  }

  /**
   * The extracted result: from the leftmost to the rightmost non-BLANK cell, BLANKs between
   * them shown as '_'; when every cell is BLANK, cell 0 alone.
   */
  ghost function Window(tape: Tape): (r: string)
    ensures NonBlank(tape) == {} ==> |r| == 1
    ensures NonBlank(tape) != {} ==> |r| == Greatest(NonBlank(tape)) - Least(NonBlank(tape)) + 1
    ensures forall i :: 0 <= i < |r| ==> FromChar(r[i]).Success?
  {
    var cells := NonBlank(tape);
    var lo := if cells == {} then 0 else Least(cells);
    var hi := if cells == {} then 0 else Greatest(cells);
    var w := Render(tape, lo, hi);
    assert forall i :: 0 <= i < |w| ==> FromChar(w[i]).Success? by {
      forall i | 0 <= i < |w| ensures FromChar(w[i]).Success? {
        FromCharOfDisplayChar(Read(tape, lo + i));
      }
    }
    w
  }

  /** The result is never empty, so the "<empty>" message is never printed. */
  lemma WindowNeverEmpty(tape: Tape)
    ensures |Window(tape)| >= 1
  {
    var cells := NonBlank(tape);
    if cells != {} {
      assert Least(cells) <= Greatest(cells);
    }
  }

  /** An all-BLANK tape yields "_". */
  lemma WindowOfBlankTape(tape: Tape)
    requires NonBlank(tape) == {}
    ensures Window(tape) == "_"
  {
    assert Read(tape, 0) == BLANK by {
      if 0 in tape {
        assert tape[0] == BLANK by { assert 0 !in NonBlank(tape); }
      }
    }
  }

  /**
   * Otherwise the result begins and ends with a non-BLANK cell and shows every non-BLANK cell
   * at its offset from the leftmost one.
   */
  lemma WindowShowsEveryCell(tape: Tape)
    requires NonBlank(tape) != {}
    ensures var w, lo := Window(tape), Least(NonBlank(tape));
      && w[0] != '_' && w[|w| - 1] != '_'
      && forall p :: p in NonBlank(tape) ==> 0 <= p - lo < |w| && w[p - lo] == DisplayChar(tape[p])
  {
    var cells := NonBlank(tape);
    var lo, hi := Least(cells), Greatest(cells);
    var w := Render(tape, lo, hi);
    assert Window(tape) == w;
    assert w[0] == DisplayChar(Read(tape, lo));
    assert w[|w| - 1] == DisplayChar(Read(tape, hi));
    NonBlankShowsNonBlank(tape, lo);
    NonBlankShowsNonBlank(tape, hi);
  }

  lemma NonBlankShowsNonBlank(tape: Tape, p: int)
    requires p in NonBlank(tape)
    ensures DisplayChar(Read(tape, p)) != '_'
  {
    if DisplayChar(tape[p]) == '_' {
      CodesAndCharsDistinct(tape[p], BLANK);
    }
  }

  /** A single non-BLANK cell yields exactly its character. */
  lemma WindowOfSingleCell(tape: Tape, p: int)
    requires NonBlank(tape) == {p}
    ensures Window(tape) == [DisplayChar(tape[p])]
  {
  }

  /** The result depends only on what the tape reads, not on which BLANK cells are materialised. */
  lemma WindowRespectsSameReads(t1: Tape, t2: Tape)
    requires SameReads(t1, t2)
    ensures Window(t1) == Window(t2)
  {
    forall p ensures p in NonBlank(t1) <==> p in NonBlank(t2) {
      assert Read(t1, p) == Read(t2, p);
    }
    assert NonBlank(t1) == NonBlank(t2);
    var cells := NonBlank(t1);
    var lo, hi := if cells == {} then 0 else Least(cells), if cells == {} then 0 else Greatest(cells);
    var w1, w2 := Render(t1, lo, hi), Render(t2, lo, hi);
    forall i | 0 <= i < |w1| ensures w1[i] == w2[i] {
      assert Read(t1, lo + i) == Read(t2, lo + i);
    }
  }
}
