/**
 * The simulator object: its fields change in place as the genome is parsed, the input is
 * loaded and steps are taken. Every method is proved to follow the functions of module Engine
 * and module Genome.
 */
module Machine {
  import opened Wrappers
  import opened Errors
  import opened JavaText
  import opened Transitions
  import opened Symbols
  import Directions
  import opened Genome
  import opened Engine

  /** The configuration of a machine just created: q0, cell 0 BLANK, head on cell 0. */
  const Fresh: Engine.Config := Engine.Config(INITIAL_STATE, map[0 := BLANK], 0, 0, false)

  /** The transition table and configuration a machine is constructed with. */
  datatype Setup = Setup(table: Table, config: Engine.Config)

  /**
   * What `Turingmachine(tmCode, input)` leaves behind: a genome that does not decode leaves
   * the rules read before the failure (none for the empty genome) and a halted fresh machine;
   * otherwise the decoded table, and the loaded input or, when the input is refused, a halted
   * fresh machine.
   */
  function Construct(tmCode: string, input: string): (r: Setup)
    ensures r.config.halted <==> DecodeGenome(tmCode).Failure? || Engine.Load(input).Failure?
    ensures DecodeGenome(tmCode).Success? ==> r.table == DecodeGenome(tmCode).value
    ensures r.config.halted ==> r.config == Fresh.(halted := true)
    ensures !r.config.halted ==> r.config == Engine.Load(input).value && r.config.state == INITIAL_STATE
    ensures Sane(r.config)
  {
    match DecodeGenome(tmCode)
    case Failure(_) =>
      var partial := if tmCode == "" then map[] else ScanRules(Split(tmCode, "11"), map[]).table;
      Setup(partial, Fresh.(halted := true))
    case Success(table) =>
      match Engine.Load(input)
      case Failure(_) => Setup(table, Fresh.(halted := true))
      case Success(c) => Setup(table, c)
  }

  class Turingmachine {
    var currentState: string
    var tape: map<int, Symbol>
    var headPosition: int
    var stepCount: nat
    var transitions: Table
    var halted: bool

    /** The fields other than the transition table, as one value. */
    ghost function Snapshot(): Engine.Config
      reads this
    {
      Engine.Config(currentState, tape, headPosition, stepCount, halted)
    }

    ghost predicate Valid()
      reads this
    {
      Sane(Snapshot())
    }

    /** `Turingmachine()`: state q0, an empty table, cell 0 BLANK, head on cell 0, not halted. */
    constructor ()
      ensures Valid()
      ensures Snapshot() == Fresh && transitions == map[]
    {
      tape := map[0 := BLANK];
      headPosition := 0;
      stepCount := 0;
      currentState := INITIAL_STATE;
      transitions := map[];
      halted := false;
    }

    /**
     * `Turingmachine(tmCode, input)`: parse the genome, then load the input; if either throws,
     * the machine is left halted with whatever the failed step had done.
     */
    constructor Load(tmCode: string, input: string)
      ensures Valid()
      ensures transitions == Construct(tmCode, input).table
      ensures Snapshot() == Construct(tmCode, input).config
    {
      tape := map[0 := BLANK];
      headPosition := 0;
      stepCount := 0;
      currentState := INITIAL_STATE;
      transitions := map[];
      halted := false;
      new;
      var parsed := ParseTMCoding(tmCode);
      if parsed.Pass? {
        var loaded := LoadInput(input);
        if loaded.Fail? {
          halted := true;
        }
      } else {
        halted := true;
      }
    }

    /**
     * `parseTMCoding`: an empty genome is refused and the table is not touched; otherwise the
     * table is cleared and refilled rule by rule, a later rule for the same key replacing the
     * earlier one; the first malformed rule stops the parse and leaves the rules before it in
     * the table; a genome without any rule is refused.
     */
    method ParseTMCoding(tmCode: string) returns (r: Outcome<DecodeError>)
      modifies this`transitions
      ensures tmCode == "" ==> r == Fail(EmptyGenome) && transitions == old(transitions)
      ensures tmCode != "" ==> transitions == ScanRules(Split(tmCode, "11"), map[]).table
      ensures r.Pass? <==> DecodeGenome(tmCode) == Success(transitions)
      ensures r.Fail? ==> DecodeGenome(tmCode) == Failure(r.error)
    {
      if tmCode == "" {
        return Fail(EmptyGenome);
      }
      transitions := map[];
      var rules := Split(tmCode, "11");
      var i := 0;
      while i < |rules|
        invariant 0 <= i <= |rules|
        invariant ScanRules(rules[i..], transitions) == ScanRules(rules, map[])
      {
        var rule := rules[i];
        assert rules[i..] == [rule] + rules[i + 1..];
        var decoded := ParseRule(rule);
        match decoded {
          case Failure(e) =>
            return Fail(e);
          case Success(None) =>
          case Success(Some(t)) =>
            transitions := transitions[t.key := t.value];
        }
        i := i + 1;
      }
      if transitions == map[] {
        return Fail(NoTransitions);
      }
      return Pass;
    }

    /**
     * The body of `parseTMCoding`'s loop for one rule: an empty segment is skipped, five
     * fields are decoded (six when the first is empty, which is dropped), any other count is
     * refused, and a field that does not decode refuses the rule.
     */
    method ParseRule(rule: string) returns (r: Result<Option<Transition>, DecodeError>)
      ensures r == DecodeRule(rule)
    {
      var parts := Split(rule, "1");
      if |parts| != 5 {
        if rule == "" || (|parts| == 1 && parts[0] == "") {
          return Success(None);
        }
        if |parts| == 6 && parts[0] == "" {
          parts := parts[1..];
        } else {
          return Failure(InvalidRuleFormat(rule, |parts|));
        }
      }
      var from := DecodeState(parts[0]);
      if from.Failure? {
        return Failure(BadRule(rule, from.error));
      }
      var read := Symbols.FromCode(parts[1]);
      if read.Failure? {
        return Failure(BadRule(rule, read.error));
      }
      var next := DecodeState(parts[2]);
      if next.Failure? {
        return Failure(BadRule(rule, next.error));
      }
      var write := Symbols.FromCode(parts[3]);
      if write.Failure? {
        return Failure(BadRule(rule, write.error));
      }
      var move := Directions.FromCode(parts[4]);
      if move.Failure? {
        return Failure(BadRule(rule, move.error));
      }
      var key := TransitionKey(from.value, read.value);
      return Success(Some(Transition(key, TransitionValue(next.value, write.value, move.value))));
    }

    /**
     * `loadInput`: work out the tape string (binary as it is, a decimal as that many ZEROs),
     * then write it. A refused input changes nothing.
     */
    method LoadInput(input: string) returns (r: Outcome<DecodeError>)
      requires Valid()
      modifies this
      ensures Valid()
      ensures transitions == old(transitions)
      ensures r.Pass? <==> Engine.Load(input).Success?
      ensures r.Pass? ==> Snapshot() == Engine.Load(input).value
      ensures r.Fail? ==> Engine.Load(input) == Failure(r.error) && Snapshot() == old(Snapshot())
    {
      var tapeInput: string;
      if IsBinary(input) {
        tapeInput := input;
      } else {
        var parsed := ParseInt(input);
        if parsed.None? {
          return Fail(NotBinaryOrDecimal(input));
        }
        var decimalValue := parsed.value;
        if decimalValue < 0 {
          return Fail(NegativeDecimal(decimalValue));
        }
        var unary := "";
        var i := 0;
        while i < decimalValue
          invariant 0 <= i <= decimalValue
          invariant unary == Repeat(DisplayChar(ZERO), i)
        {
          unary := unary + [DisplayChar(ZERO)];
          i := i + 1;
        }
        tapeInput := unary;
      }
      assert TapeString(input) == Success(tapeInput);
      WriteInput(tapeInput);
      BinaryDecodes(tapeInput);
      return Pass;
    }

    /**
     * The second half of `loadInput`: clear the tape, put BLANK on cell 0 and the characters
     * of `t` from cell 1 on. A character `Symbol.fromChar` refuses stops the loop and halts
     * the machine with the head on cell 1; otherwise the head goes to cell 1 (cell 0 for an
     * empty `t`) and the machine restarts in q0.
     */
    method WriteInput(t: string)
      modifies this
      ensures transitions == old(transitions)
      ensures tape == InitialTape(DecodePrefix(t))
      ensures |DecodePrefix(t)| == |t| ==>
        && currentState == INITIAL_STATE && headPosition == (if t == "" then 0 else 1)
        && stepCount == 0 && !halted
      ensures |DecodePrefix(t)| < |t| ==>
        && halted && headPosition == 1
        && currentState == old(currentState) && stepCount == old(stepCount)
    {
      var decoded := DecodePrefix(t);
      tape := map[0 := BLANK];
      headPosition := 1;
      var i := 0;
      while i < |t|
        invariant 0 <= i <= |decoded|
        invariant tape == InitialTape(decoded[..i])
        invariant headPosition == 1
        invariant transitions == old(transitions)
        invariant currentState == old(currentState) && stepCount == old(stepCount)
      {
        var symbol := FromChar(t[i]);
        if symbol.Failure? {
          assert i == |decoded| && decoded[..i] == decoded;
          halted := true;
          return;
        }
        assert decoded[..i + 1] == decoded[..i] + [symbol.value];
        InitialTapeSnoc(decoded[..i], symbol.value);
        tape := tape[headPosition + i := symbol.value];
        i := i + 1;
      }
      assert decoded[..i] == decoded;
      headPosition := if t == "" then 0 else 1;
      currentState := INITIAL_STATE;
      stepCount := 0;
      halted := false;
    }

    /** `step()`: one step of the machine, exactly as Engine.Step describes it. */
    method Step()
      requires Valid()
      modifies this
      ensures Valid()
      ensures transitions == old(transitions)
      ensures Snapshot() == Engine.Step(transitions, old(Snapshot()))
    {
      StepKeepsSane(transitions, Snapshot());
      if halted {
        return;
      }
      var currentSymbol := Read(tape, headPosition);
      var key := TransitionKey(currentState, currentSymbol);
      if key !in transitions {
        halted := true;
        return;
      }
      var rule := transitions[key];
      currentState := rule.nextState;
      tape := tape[headPosition := rule.writeSymbol];
      match rule.moveDirection {
        case LEFT => headPosition := headPosition - 1;
        case RIGHT => headPosition := headPosition + 1;
      }
      if headPosition !in tape {
        tape := tape[headPosition := BLANK];
      }
      stepCount := stepCount + 1;
      if stepCount >= MAX_STEPS {
        halted := true;
      }
    }

    /**
     * `run(stepMode)`: step until halted. Before the k-th step the operator may abort, which
     * `quit(k)` stands for; an abort halts the machine without a step.
     */
    method Run(quit: nat -> bool)
      requires Valid()
      modifies this
      ensures Valid() && halted
      ensures transitions == old(transitions)
      ensures Snapshot() == Engine.Run(transitions, old(Snapshot()), quit, 0)
    {
      var k := 0;
      while !halted
        invariant Valid()
        invariant transitions == old(transitions)
        invariant Engine.Run(transitions, Snapshot(), quit, k) == Engine.Run(transitions, old(Snapshot()), quit, 0)
        decreases if halted then 0 else 1, MAX_STEPS - stepCount
      {
        if quit(k) {
          halted := true;
          break;
        }
        Step();
        k := k + 1;
      }
    }

    /**
     * The result `printFinalState` extracts: the cells from the leftmost to the rightmost
     * non-BLANK cell, or cell 0 alone when there is none.
     */
    method ExtractResult() returns (result: string)
      ensures result == Window(tape)
    {
      var minPos: Option<int> := None;
      var maxPos: Option<int> := None;
      var todo := tape.Keys;
      while todo != {}
        invariant todo <= tape.Keys
        invariant minPos.None? <==> maxPos.None?
        invariant minPos.None? ==> NonBlank(tape) <= todo
        invariant minPos.Some? ==>
          && minPos.value in NonBlank(tape) && minPos.value !in todo
          && maxPos.value in NonBlank(tape) && maxPos.value !in todo
          && forall p :: p in NonBlank(tape) && p !in todo ==> minPos.value <= p <= maxPos.value
        decreases todo
      {
        HasElement(todo);
        var p :| p in todo;
        if tape[p] != BLANK {
          if minPos.None? || p < minPos.value {
            minPos := Some(p);
          }
          if maxPos.None? || p > maxPos.value {
            maxPos := Some(p);
          }
        }
        todo := todo - {p};
      }
      var lo, hi := 0, 0;
      if minPos.Some? {
        lo, hi := minPos.value, maxPos.value;
        var cells := NonBlank(tape);
        assert lo == Least(cells) && hi == Greatest(cells);
      }
      assert Window(tape) == Render(tape, lo, hi);
      result := "";
      var i := lo;
      while i <= hi
        invariant lo <= i <= hi + 1
        invariant result == Render(tape, lo, i - 1)
        decreases hi - i
      {
        result := result + [DisplayChar(Read(tape, i))];
        i := i + 1;
      }
    }
  }
}
