/**
 * Decoding a genome, the binary string that encodes a machine's transition table: rules are
 * separated by "11", the five fields of a rule by "1", and each field is a run of zeros that
 * names a state, a symbol or a direction. Also the encoding in the other direction, and the
 * proof that decoding an encoded list of rules gives back the table those rules describe.
 */
module Genome {
  import opened Wrappers
  import opened Errors
  import opened JavaText
  import opened Transitions
  import Symbols
  import Directions

  type Table = map<TransitionKey, TransitionValue>

  /** One decoded rule: the key it matches and what it does. */
  datatype Transition = Transition(key: TransitionKey, value: TransitionValue)

  // ---------------------------------------------------------------------------------------
  // Field codecs
  // ---------------------------------------------------------------------------------------

  /** The name of the n-th state. */
  function StateName(n: nat): string {
    "q" + NatToString(n)
  }

  /** `decodeState`: a code of n + 1 zeros names the state "q<n>"; anything else fails. */
  function DecodeState(code: string): (r: Result<string, CodecError>)
    ensures r.Success? <==> IsZeros(code)
    ensures r.Failure? ==> r.error == InvalidStateCode(code)
  {
    if !IsZeros(code) then Failure(InvalidStateCode(code))
    else Success("q" + NatToString(|code| - 1))
  }

  /** The code of the n-th state. */
  function StateCode(n: nat): string {
    Repeat('0', n + 1)
  }

  /** A state's code decodes to its name. */
  lemma DecodeStateOfCode(n: nat)
    ensures DecodeState(StateCode(n)) == Success(StateName(n))
  {
  }

  /** Distinct state codes decode to distinct names, so states are told apart by their codes. */
  lemma DecodeStateInjective(a: string, b: string)
    requires DecodeState(a).Success? && DecodeState(a) == DecodeState(b)
    ensures a == b
  {
    assert NatToString(|a| - 1) == DecodeState(a).value[1..];
    assert NatToString(|b| - 1) == DecodeState(b).value[1..];
    NatToStringInjective(|a| - 1, |b| - 1);
    ZerosAreRepeat(a);
    ZerosAreRepeat(b);
  }

  // ---------------------------------------------------------------------------------------
  // Rules
  // ---------------------------------------------------------------------------------------

  /**
   * The five fields of one rule, decoded in the order `parseTMCoding` decodes them: state,
   * symbol read, next state, symbol written, move. The first field that does not decode aborts
   * with its cause.
   */
  function DecodeFields(rule: string, fields: seq<string>): (r: Result<Transition, DecodeError>)
    requires |fields| == 5
    ensures r.Success? <==>
      IsZeros(fields[0]) && Symbols.FromCode(fields[1]).Success? && IsZeros(fields[2])
      && Symbols.FromCode(fields[3]).Success? && Directions.FromCode(fields[4]).Success?
    ensures r.Failure? ==> r.error.BadRule? && r.error.rule == rule
  {
    match DecodeState(fields[0])
    case Failure(e) => Failure(BadRule(rule, e))
    case Success(state) =>
      match Symbols.FromCode(fields[1])
      case Failure(e) => Failure(BadRule(rule, e))
      case Success(read) =>
        match DecodeState(fields[2])
        case Failure(e) => Failure(BadRule(rule, e))
        case Success(next) =>
          match Symbols.FromCode(fields[3])
          case Failure(e) => Failure(BadRule(rule, e))
          case Success(write) =>
            match Directions.FromCode(fields[4])
            case Failure(e) => Failure(BadRule(rule, e))
            case Success(move) =>
              Success(Transition(TransitionKey(state, read), TransitionValue(next, write, move)))
  }

  /**
   * One "11"-segment of the genome, split on "1". Five fields are a rule; the empty segment
   * is skipped (None); six fields of which the first is empty lose that first field; any
   * other count is an invalid rule.
   */
  function DecodeRule(rule: string): (r: Result<Option<Transition>, DecodeError>)
    ensures r == Success(None) <==> rule == ""
    ensures r.Failure? && r.error.InvalidRuleFormat? ==> r.error == InvalidRuleFormat(rule, |Split(rule, "1")|)
    ensures r.Failure? ==> r.error.InvalidRuleFormat? || r.error.BadRule?
    ensures var parts := Split(rule, "1");
      (r.Failure? && r.error.InvalidRuleFormat?) <==>
        (rule != "" && |parts| != 5 && !(|parts| == 6 && parts[0] == ""))
  {
    var parts := Split(rule, "1");
    if |parts| != 5 && (rule == "" || (|parts| == 1 && parts[0] == "")) then Success(None)
    else if |parts| != 5 && !(|parts| == 6 && parts[0] == "") then
      Failure(InvalidRuleFormat(rule, |parts|))
    else
      var fields := if |parts| == 5 then parts else parts[1..];
      match DecodeFields(rule, fields)
      case Failure(e) => Failure(e)
      case Success(t) => Success(Some(t))
  }

  /** What `parseTMCoding` has built when it stops: the table so far, and the failure if any. */
  datatype Scan = Scan(table: Table, failure: Option<DecodeError>)

  /**
   * The loop over the segments: each rule is put into the table, a later rule for the same key
   * replacing the earlier one, and the first segment that fails stops the loop.
   */
  function ScanRules(rules: seq<string>, table: Table): (r: Scan)
    ensures table.Keys <= r.table.Keys
    ensures r.failure.None? ==>
      forall k :: 0 <= k < |rules| ==> DecodeRule(rules[k]).Success?
    ensures r.failure.None? ==>
      forall k :: 0 <= k < |rules| && DecodeRule(rules[k]).value.Some? ==>
        DecodeRule(rules[k]).value.value.key in r.table
    decreases |rules|
  {
    if rules == [] then Scan(table, None)
    else
      match DecodeRule(rules[0])
      case Failure(e) => Scan(table, Some(e))
      case Success(None) => ScanRules(rules[1..], table)
      case Success(Some(t)) => ScanRules(rules[1..], table[t.key := t.value])
  }

  /**
   * `parseTMCoding` as a whole: the empty genome fails, a failing segment fails, and a genome
   * that yields no rule fails; otherwise the table.
   */
  function DecodeGenome(genome: string): (r: Result<Table, DecodeError>)
    ensures genome == "" ==> r == Failure(EmptyGenome)
    ensures r.Success? ==> |r.value| > 0
  {
    if genome == "" then Failure(EmptyGenome)
    else
      var scan := ScanRules(Split(genome, "11"), map[]);
      if scan.failure.Some? then Failure(scan.failure.value)
      else if scan.table == map[] then Failure(NoTransitions)
      else Success(scan.table)
  }

  /** A segment that fails makes the whole genome fail, with the first such segment's error. */
  lemma {:induction false} ScanStopsAtFirstFailure(rules: seq<string>, table: Table, i: nat)
    requires i < |rules| && DecodeRule(rules[i]).Failure?
    requires forall k :: 0 <= k < i ==> DecodeRule(rules[k]).Success?
    ensures ScanRules(rules, table).failure == Some(DecodeRule(rules[i]).error)
    decreases i
  {
    if i > 0 {
      var rest := rules[1..];
      assert rest[i - 1] == rules[i];
      forall k | 0 <= k < i - 1 ensures DecodeRule(rest[k]).Success? {
        assert rest[k] == rules[k + 1];
      }
      var first := DecodeRule(rules[0]);
      assert first.Success?;
      var next := if first.value.Some? then table[first.value.value.key := first.value.value.value] else table;
      ScanStopsAtFirstFailure(rest, next, i - 1);
    }
  }

  /**
   * A non-empty segment whose "1"-split has neither five fields nor six with the first empty
   * (four, say) makes the genome fail; when every earlier segment decodes, the failure is the
   * invalid rule format of that segment, with its field count.
   */
  lemma MalformedSegmentFails(genome: string, i: nat)
    requires genome != ""
    requires i < |Split(genome, "11")|
    requires var seg := Split(genome, "11")[i];
      var n := |Split(seg, "1")|;
      seg != "" && n != 5 && !(n == 6 && Split(seg, "1")[0] == "")
    ensures DecodeGenome(genome).Failure?
    ensures var rules := Split(genome, "11");
      (forall k :: 0 <= k < i ==> DecodeRule(rules[k]).Success?) ==>
        DecodeGenome(genome) == Failure(InvalidRuleFormat(rules[i], |Split(rules[i], "1")|))
  {
    var rules := Split(genome, "11");
    if forall k :: 0 <= k < i ==> DecodeRule(rules[k]).Success? {
      ScanStopsAtFirstFailure(rules, map[], i);
    }
    var j: nat :| j <= i && DecodeRule(rules[j]).Failure?
      && forall k :: 0 <= k < j ==> DecodeRule(rules[k]).Success? by {
      FirstFailure(rules, i);
    }
    ScanStopsAtFirstFailure(rules, map[], j);
  }

  /** Some segment fails first at or before a failing one. */
  lemma {:induction false} FirstFailure(rules: seq<string>, i: nat)
    requires i < |rules| && DecodeRule(rules[i]).Failure?
    ensures exists j: nat :: (j <= i && DecodeRule(rules[j]).Failure?
      && forall k :: 0 <= k < j ==> DecodeRule(rules[k]).Success?)
    decreases i
  {
    if forall k :: 0 <= k < i ==> DecodeRule(rules[k]).Success? {
      assert i <= i && DecodeRule(rules[i]).Failure?;
    } else {
      var k :| 0 <= k < i && DecodeRule(rules[k]).Failure?;
      FirstFailure(rules, k);
      var j: nat :| j <= k && DecodeRule(rules[j]).Failure?
        && forall k' :: 0 <= k' < j ==> DecodeRule(rules[k']).Success?;
      assert j <= i;
    }
  }

  // ---------------------------------------------------------------------------------------
  // Encoding, and decoding what was encoded
  // ---------------------------------------------------------------------------------------

  /** A rule as numbers and constants, before it is written into a genome. */
  datatype RuleCode = RuleCode(from: nat, read: Symbols.Symbol, to: nat, write: Symbols.Symbol, move: Directions.Direction)

  /** The transition a rule stands for. */
  function Meaning(rc: RuleCode): Transition {
    Transition(TransitionKey(StateName(rc.from), rc.read), TransitionValue(StateName(rc.to), rc.write, rc.move))
  }

  function Fields(rc: RuleCode): seq<string> {
    [StateCode(rc.from), Symbols.Code(rc.read), StateCode(rc.to), Symbols.Code(rc.write), Directions.Code(rc.move)]
  }

  function EncodeRule(rc: RuleCode): string {
    Join(Fields(rc), "1")
  }

  function EncodeRules(rcs: seq<RuleCode>): (r: seq<string>)
    ensures |r| == |rcs|
  {
    if rcs == [] then [] else [EncodeRule(rcs[0])] + EncodeRules(rcs[1..])
  }

  /** The genome of a non-empty list of rules: the rules with "11" between them. */
  function EncodeGenome(rcs: seq<RuleCode>): string
    requires |rcs| >= 1
  {
    Join(EncodeRules(rcs), "11")
  }

  /** The table a list of rules describes: each rule in turn, a later one replacing an earlier one. */
  function TableOf(rcs: seq<RuleCode>, table: Table): Table
    decreases |rcs|
  {
    if rcs == [] then table
    else TableOf(rcs[1..], table[Meaning(rcs[0]).key := Meaning(rcs[0]).value])
  }

  /** Every field code is a non-empty run of zeros. */
  lemma FieldsAreZeros(rc: RuleCode)
    ensures forall k :: 0 <= k < 5 ==> IsZeros(Fields(rc)[k])
  {
    assert IsZeros(Symbols.Code(rc.read)) by { match rc.read { case _ => } }
    assert IsZeros(Symbols.Code(rc.write)) by { match rc.write { case _ => } }
    assert IsZeros(Directions.Code(rc.move)) by { match rc.move { case _ => } }
  }

  /** A run of zeros followed by the field separator is cut there. */
  lemma ZerosCutCleanly(z: string)
    requires IsZeros(z)
    ensures CutsCleanly(z, "1") && Free(z, "1")
  {
    forall i: nat | i < |z| ensures !OccursAt(z + "1", "1", i) {
      assert (z + "1")[i..i + 1] == [z[i]];
    }
    forall i: nat | i <= |z| ensures !OccursAt(z, "1", i) {
      if i < |z| {
        assert z[i..i + 1] == [z[i]];
      }
    }
  }

  /** A rule's fields split back out of its encoding, with or without one leading '1'. */
  lemma SplitEncodedRule(rc: RuleCode)
    ensures Split(EncodeRule(rc), "1") == Fields(rc)
    ensures Split("1" + EncodeRule(rc), "1") == [""] + Fields(rc)
  {
    var f := Fields(rc);
    FieldsAreZeros(rc);
    forall k | 0 <= k < 5 ensures CutsCleanly(f[k], "1") && Free(f[k], "1") {
      ZerosCutCleanly(f[k]);
    }
    SplitOfJoin(f, "1");
    var g := [""] + f;
    assert CutsCleanly("", "1");
    forall k | 0 <= k < |g| - 1 ensures CutsCleanly(g[k], "1") {
      if k > 0 {
        assert g[k] == f[k - 1];
      }
    }
    assert g[1..] == f;
    assert Join(g, "1") == "1" + EncodeRule(rc);
    SplitOfJoin(g, "1");
  }

  /** The fields of a rule decode to the transition it stands for. */
  lemma DecodeFieldsOfRule(rule: string, rc: RuleCode)
    ensures DecodeFields(rule, Fields(rc)) == Success(Meaning(rc))
  {
    DecodeStateOfCode(rc.from);
    DecodeStateOfCode(rc.to);
    Symbols.FromCodeOfCode(rc.read);
    Symbols.FromCodeOfCode(rc.write);
    Directions.FromCodeOfCode(rc.move);
  }

  /** An encoded rule decodes to the transition it stands for, also behind a stray leading '1'. */
  lemma DecodeRuleOfEncoding(rc: RuleCode)
    ensures DecodeRule(EncodeRule(rc)) == Success(Some(Meaning(rc)))
    ensures DecodeRule("1" + EncodeRule(rc)) == Success(Some(Meaning(rc)))
  {
    SplitEncodedRule(rc);
    DecodeFieldsOfRule(EncodeRule(rc), rc);
    DecodeFieldsOfRule("1" + EncodeRule(rc), rc);
    assert ([""] + Fields(rc))[1..] == Fields(rc);
  }

  /** No '1' of an encoded rule is next to another, and the rule begins and ends with '0'. */
  predicate RuleShaped(s: string) {
    |s| > 0 && s[0] == '0' && s[|s| - 1] == '0'
    && forall i :: 0 <= i < |s| - 1 ==> !(s[i] == '1' && s[i + 1] == '1')
  }

  lemma {:induction false} JoinOfZerosIsRuleShaped(fields: seq<string>)
    requires |fields| >= 1
    requires forall k :: 0 <= k < |fields| ==> IsZeros(fields[k])
    ensures RuleShaped(Join(fields, "1"))
    decreases |fields|
  {
    if |fields| > 1 {
      JoinOfZerosIsRuleShaped(fields[1..]);
      var a, b := fields[0], Join(fields[1..], "1");
      var s := a + "1" + b;
      assert Join(fields, "1") == s;
      forall i | 0 <= i < |s| - 1 ensures !(s[i] == '1' && s[i + 1] == '1') {
        if i < |a| {
          assert s[i] == a[i];
        } else if i == |a| {
          assert s[i + 1] == b[0];
        } else {
          assert s[i] == b[i - |a| - 1] && s[i + 1] == b[i - |a|];
        }
      }
    }
  }

  /** An encoded rule is cut cleanly by the rule separator and holds none itself. */
  lemma RuleShapedCuts(s: string)
    requires RuleShaped(s)
    ensures CutsCleanly(s, "11") && Free(s, "11")
  {
    forall i: nat | i < |s| ensures !OccursAt(s + "11", "11", i) {
      if i < |s| - 1 {
        assert (s + "11")[i..i + 2] == [s[i], s[i + 1]];
      } else {
        assert (s + "11")[i] == s[i];
      }
    }
    forall i: nat | i <= |s| ensures !OccursAt(s, "11", i) {
      if i + 2 <= |s| {
        assert s[i..i + 2] == [s[i], s[i + 1]];
      }
    }
  }

  /** Decoding the segments of encoded rules builds the table the rules describe. */
  lemma {:induction false} ScanEncodedRules(rcs: seq<RuleCode>, table: Table)
    ensures ScanRules(EncodeRules(rcs), table) == Scan(TableOf(rcs, table), None)
    decreases |rcs|
  {
    if rcs != [] {
      var rules := EncodeRules(rcs);
      assert rules[0] == EncodeRule(rcs[0]) && rules[1..] == EncodeRules(rcs[1..]);
      DecodeRuleOfEncoding(rcs[0]);
      ScanEncodedRules(rcs[1..], table[Meaning(rcs[0]).key := Meaning(rcs[0]).value]);
    }
  }

  /**
   * Round trip: the genome of a non-empty list of rules decodes without error to exactly the
   * table those rules describe, a later rule for a key replacing an earlier one.
   */
  lemma DecodeGenomeOfEncoding(rcs: seq<RuleCode>)
    requires |rcs| >= 1
    ensures DecodeGenome(EncodeGenome(rcs)) == Success(TableOf(rcs, map[]))
  {
    var genome := EncodeGenome(rcs);
    SplitEncodedGenome(rcs);
    EncodedRuleCuts(rcs, 0);
    assert genome != "" by {
      assert Split(genome, "11")[0] != "";
    }
    ScanEncodedRules(rcs, map[]);
    TableOfHasEveryKey(rcs, map[], 0);
    assert TableOf(rcs, map[]) != map[];
  }

  /** The rule separator splits an encoded genome back into its encoded rules. */
  lemma SplitEncodedGenome(rcs: seq<RuleCode>)
    requires |rcs| >= 1
    ensures Split(EncodeGenome(rcs), "11") == EncodeRules(rcs)
  {
    var rules := EncodeRules(rcs);
    forall k | 0 <= k < |rules| ensures rules[k] != "" && CutsCleanly(rules[k], "11") && Free(rules[k], "11") {
      EncodedRuleCuts(rcs, k);
    }
    SplitOfJoin(rules, "11");
  }

  lemma EncodedRuleCuts(rcs: seq<RuleCode>, k: nat)
    requires k < |rcs|
    ensures var rule := EncodeRules(rcs)[k]; rule != "" && CutsCleanly(rule, "11") && Free(rule, "11")
  {
    EncodedRulesAt(rcs, k);
    FieldsAreZeros(rcs[k]);
    JoinOfZerosIsRuleShaped(Fields(rcs[k]));
    RuleShapedCuts(EncodeRules(rcs)[k]);
  }

  lemma {:induction false} EncodedRulesAt(rcs: seq<RuleCode>, k: nat)
    requires k < |rcs|
    ensures EncodeRules(rcs)[k] == EncodeRule(rcs[k])
    decreases k
  {
    if k > 0 {
      EncodedRulesAt(rcs[1..], k - 1);
    }
  }

  /** Every rule's key ends up in the table. */
  lemma {:induction false} TableOfHasEveryKey(rcs: seq<RuleCode>, table: Table, i: nat)
    requires i < |rcs|
    ensures Meaning(rcs[i]).key in TableOf(rcs, table)
    decreases |rcs|
  {
    var t' := table[Meaning(rcs[0]).key := Meaning(rcs[0]).value];
    if i == 0 {
      TableOfKeepsKeys(rcs[1..], t');
    } else {
      TableOfHasEveryKey(rcs[1..], t', i - 1);
    }
  }

  lemma {:induction false} TableOfKeepsKeys(rcs: seq<RuleCode>, table: Table)
    ensures table.Keys <= TableOf(rcs, table).Keys
    decreases |rcs|
  {
    if rcs != [] {
      TableOfKeepsKeys(rcs[1..], table[Meaning(rcs[0]).key := Meaning(rcs[0]).value]);
    }
  }

  /** The last rule for a key decides what the table holds for it: later duplicates win. */
  lemma {:induction false} LastRuleWins(rcs: seq<RuleCode>, table: Table, i: nat)
    requires i < |rcs|
    requires forall j :: i < j < |rcs| ==> Meaning(rcs[j]).key != Meaning(rcs[i]).key
    ensures Meaning(rcs[i]).key in TableOf(rcs, table)
    ensures TableOf(rcs, table)[Meaning(rcs[i]).key] == Meaning(rcs[i]).value
    decreases |rcs|
  {
    TableOfHasEveryKey(rcs, table, i);
    var t' := table[Meaning(rcs[0]).key := Meaning(rcs[0]).value];
    if i == 0 {
      TableOfUntouched(rcs[1..], t', Meaning(rcs[0]).key);
    } else {
      LastRuleWins(rcs[1..], t', i - 1);
    }
  }

  /** Rules for other keys leave a key's entry alone. */
  lemma {:induction false} TableOfUntouched(rcs: seq<RuleCode>, table: Table, key: TransitionKey)
    requires key in table
    requires forall j :: 0 <= j < |rcs| ==> Meaning(rcs[j]).key != key
    ensures key in TableOf(rcs, table) && TableOf(rcs, table)[key] == table[key]
    decreases |rcs|
  {
    if rcs != [] {
      TableOfUntouched(rcs[1..], table[Meaning(rcs[0]).key := Meaning(rcs[0]).value], key);
    }
  }

  lemma JoinOfFive(a: string, b: string, c: string, d: string, e: string, sep: string)
    ensures Join([a, b, c, d, e], sep) == a + sep + b + sep + c + sep + d + sep + e
  {
    JoinOfFour(b, c, d, e, sep);
    assert [a, b, c, d, e][1..] == [b, c, d, e];
  }

  lemma JoinOfFour(a: string, b: string, c: string, d: string, sep: string)
    ensures Join([a, b, c, d], sep) == a + sep + b + sep + c + sep + d
  {
    assert Join([d], sep) == d;
    assert Join([c, d], sep) == c + sep + d by { assert [c, d][1..] == [d]; }
    assert Join([b, c, d], sep) == b + sep + c + sep + d by { assert [b, c, d][1..] == [c, d]; }
    assert [a, b, c, d][1..] == [b, c, d];
  }

  /** The rule's encoding, spelt out from its five codes. */
  lemma EncodeRuleIs(rc: RuleCode, from: string, read: string, to: string, write: string, move: string)
    requires Fields(rc) == [from, read, to, write, move]
    ensures EncodeRule(rc) == from + "1" + read + "1" + to + "1" + write + "1" + move
  {
    JoinOfFive(from, read, to, write, move, "1");
  }

  /**
   * The rules of the first demonstration genome: in q0 on ONE write ZERO and go right to q2;
   * in q2 on ZERO write ONE and go left to q0; in q2 on ONE write ZERO and go right to q1; in
   * q2 on BLANK write ZERO and go left, staying in q2.
   */
  const DEMO_RULES: seq<RuleCode> := [
    RuleCode(0, Symbols.ONE, 2, Symbols.ZERO, Directions.RIGHT),
    RuleCode(2, Symbols.ZERO, 0, Symbols.ONE, Directions.LEFT),
    RuleCode(2, Symbols.ONE, 1, Symbols.ZERO, Directions.RIGHT),
    RuleCode(2, Symbols.BLANK, 2, Symbols.ZERO, Directions.LEFT)]

  lemma DemoRuleStrings()
    ensures EncodeRules(DEMO_RULES) == ["0100100010100", "000101010010", "00010010010100", "000100010001010"]
  {
    forall k | 0 <= k < 4 ensures EncodeRules(DEMO_RULES)[k] == EncodeRule(DEMO_RULES[k]) {
      EncodedRulesAt(DEMO_RULES, k);
    }
    DemoRule0();
    DemoRule1();
    DemoRule2();
    DemoRule3();
  }

  lemma DemoRule0()
    ensures EncodeRule(DEMO_RULES[0]) == "0100100010100"
  {
    assert StateCode(0) == "0" && StateCode(2) == "000";
    EncodeRuleIs(DEMO_RULES[0], "0", "00", "000", "0", "00");
    SpeltOut("0" + "1" + "00" + "1" + "000" + "1" + "0" + "1" + "00", "0100100010100");
  }

  lemma DemoRule1()
    ensures EncodeRule(DEMO_RULES[1]) == "000101010010"
  {
    assert StateCode(0) == "0" && StateCode(2) == "000";
    EncodeRuleIs(DEMO_RULES[1], "000", "0", "0", "00", "0");
    SpeltOut("000" + "1" + "0" + "1" + "0" + "1" + "00" + "1" + "0", "000101010010");
  }

  lemma DemoRule2()
    ensures EncodeRule(DEMO_RULES[2]) == "00010010010100"
  {
    assert StateCode(1) == "00" && StateCode(2) == "000";
    EncodeRuleIs(DEMO_RULES[2], "000", "00", "00", "0", "00");
    SpeltOut("000" + "1" + "00" + "1" + "00" + "1" + "0" + "1" + "00", "00010010010100");
  }

  lemma DemoRule3()
    ensures EncodeRule(DEMO_RULES[3]) == "000100010001010"
  {
    assert StateCode(2) == "000";
    EncodeRuleIs(DEMO_RULES[3], "000", "000", "000", "0", "0");
    SpeltOut("000" + "1" + "000" + "1" + "000" + "1" + "0" + "1" + "0", "000100010001010");
  }

  /** Two strings that agree character by character are the same string. */
  lemma SpeltOut(a: string, b: string)
    requires |a| == |b|
    requires forall i | 0 <= i < |a| :: a[i] == b[i]
    ensures a == b
  {
  }

  lemma DemoTable()
    ensures TableOf(DEMO_RULES, map[]) == map[
      TransitionKey("q0", Symbols.ONE) := TransitionValue("q2", Symbols.ZERO, Directions.RIGHT),
      TransitionKey("q2", Symbols.ZERO) := TransitionValue("q0", Symbols.ONE, Directions.LEFT),
      TransitionKey("q2", Symbols.ONE) := TransitionValue("q1", Symbols.ZERO, Directions.RIGHT),
      TransitionKey("q2", Symbols.BLANK) := TransitionValue("q2", Symbols.ZERO, Directions.LEFT)]
  {
    var rcs := DEMO_RULES;
    var r0, r1, r2, r3 := rcs[0], rcs[1], rcs[2], rcs[3];
    assert StateName(0) == "q0" && StateName(1) == "q1" && StateName(2) == "q2";
    var t0 := map[Meaning(r0).key := Meaning(r0).value];
    var t1 := t0[Meaning(r1).key := Meaning(r1).value];
    var t2 := t1[Meaning(r2).key := Meaning(r2).value];
    var t3 := t2[Meaning(r3).key := Meaning(r3).value];
    assert TableOf(rcs, map[]) == TableOf([r1, r2, r3], t0) by { assert rcs[1..] == [r1, r2, r3]; }
    assert TableOf([r1, r2, r3], t0) == TableOf([r2, r3], t1) by { assert [r1, r2, r3][1..] == [r2, r3]; }
    assert TableOf([r2, r3], t1) == TableOf([r3], t2) by { assert [r2, r3][1..] == [r3]; }
    assert TableOf([r3], t2) == t3 by { assert [r3][1..] == []; }
  }

  /** The first demonstration genome, written here cut at its "11" separators, decodes to its four rules. */
  lemma DemoGenome(genome: string)
    requires genome == "0100100010100" + "11" + "000101010010" + "11" + "00010010010100" + "11" + "000100010001010"
    ensures DecodeGenome(genome) == Success(map[
      TransitionKey("q0", Symbols.ONE) := TransitionValue("q2", Symbols.ZERO, Directions.RIGHT),
      TransitionKey("q2", Symbols.ZERO) := TransitionValue("q0", Symbols.ONE, Directions.LEFT),
      TransitionKey("q2", Symbols.ONE) := TransitionValue("q1", Symbols.ZERO, Directions.RIGHT),
      TransitionKey("q2", Symbols.BLANK) := TransitionValue("q2", Symbols.ZERO, Directions.LEFT)])
  {
    var e := EncodeRules(DEMO_RULES);
    DemoRuleStrings();
    JoinOfFour(e[0], e[1], e[2], e[3], "11");
    assert e == [e[0], e[1], e[2], e[3]];
    assert genome == EncodeGenome(DEMO_RULES);
    DecodeGenomeOfEncoding(DEMO_RULES);
    DemoTable();
  }
}
