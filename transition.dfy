/**
 * The two records of the transition table: the key (state, symbol read) and the value
 * (next state, symbol written, head movement), with the key's `equals` and `hashCode` and
 * the `toString` of both.
 */
module Transitions {
  import opened Wrappers
  import opened JavaText
  import Symbols
  import Directions

  type Symbol = Symbols.Symbol
  type Direction = Directions.Direction

  datatype TransitionKey = TransitionKey(state: string, readSymbol: Symbol)

  datatype TransitionValue = TransitionValue(nextState: string, writeSymbol: Symbol, moveDirection: Direction)

  /** What `TransitionKey.equals(Object)` may be handed: null, a key, or an object of another class. */
  datatype Object = Null | Key(key: TransitionKey) | Other

  /**
   * `TransitionKey.equals`: the same object is equal; null and other classes are not; two keys
   * are equal when their symbols are the same constant and their state strings are equal.
   * Since a key is a value here, that is exactly equality of the two keys.
   */
  function Equals(k: TransitionKey, o: Object): (r: bool)
    ensures r <==> o == Key(k)
  {
    match o
    case Null => false
    case Other => false
    case Key(that) => k.readSymbol == that.readSymbol && k.state == that.state
  }

  type Int32 = x: int | INT_MIN <= x <= INT_MAX

  /** Java's wrap-around of an int result into 32 bits. */
  function WrapInt32(x: int): (r: Int32)
    ensures (r - x) % 0x1_0000_0000 == 0
  {
    (x - INT_MIN) % 0x1_0000_0000 + INT_MIN
  }

  /** 31 to the power n. */
  function Pow31(n: nat): (r: nat)
    ensures r >= 1
  {
    if n == 0 then 1 else 31 * Pow31(n - 1)
  }

  /** The sum s[0]*31^(n-1) + s[1]*31^(n-2) + ... + s[n-1] of the `String.hashCode` documentation. */
  function HashSum(s: string): int
    decreases |s|
  {
    if s == [] then 0 else (s[0] as int) * Pow31(|s| - 1) + HashSum(s[1..])
  }

  /** Appending a character multiplies the sum so far by 31 and adds the character. */
  lemma {:induction false} HashSumSnoc(s: string, c: char)
    ensures HashSum(s + [c]) == 31 * HashSum(s) + c as int
    decreases |s|
  {
    if s != [] {
      var t := s + [c];
      assert t[0] == s[0] && t[1..] == s[1..] + [c];
      HashSumSnoc(s[1..], c);
      assert Pow31(|t| - 1) == 31 * Pow31(|s| - 1);
      assert (s[0] as int) * (31 * Pow31(|s| - 1)) == 31 * ((s[0] as int) * Pow31(|s| - 1));
    }
  }

  /** Wrapping an intermediate result first does not change the wrapped result. */
  lemma WrapThenWrap(x: int, c: int)
    ensures WrapInt32(31 * WrapInt32(x) + c) == WrapInt32(31 * x + c)
  {
    var k := (WrapInt32(x) - x) / 0x1_0000_0000;
    assert WrapInt32(x) == x + 0x1_0000_0000 * k;
    assert 31 * WrapInt32(x) + c == 31 * x + c + 0x1_0000_0000 * (31 * k);
  }

  /**
   * `String.hashCode`: h = 31 * h + c over the characters in 32-bit arithmetic, which is the
   * documented sum wrapped into an int.
   */
  function StringHashCode(s: string): (r: Int32)
    ensures r == WrapInt32(HashSum(s))
    decreases |s|
  {
    if s == [] then 0
    else
      var init := s[..|s| - 1];
      var h := StringHashCode(init);
      assert init + [s[|s| - 1]] == s;
      HashSumSnoc(init, s[|s| - 1]);
      WrapThenWrap(HashSum(init), s[|s| - 1] as int);
      WrapInt32(31 * h + s[|s| - 1] as int)
  }

  /** `Arrays.hashCode` of an array whose elements hash to `hs`: start at 1, then 31 * h + e. */
  function ArraysHashCode(hs: seq<Int32>): Int32
    decreases |hs|
  {
    if hs == [] then 1 else WrapInt32(31 * ArraysHashCode(hs[..|hs| - 1]) + hs[|hs| - 1])
  }

  /**
   * `TransitionKey.hashCode`, that is `Objects.hash(state, readSymbol)`. An enum constant's own
   * hash is its identity hash, which differs from run to run, so it is a parameter.
   */
  function HashCode(k: TransitionKey, symbolHash: Symbol -> Int32): (r: Int32)
    ensures r == ArraysHashCode([StringHashCode(k.state), symbolHash(k.readSymbol)])
  {
    var fields := [StringHashCode(k.state), symbolHash(k.readSymbol)];
    assert fields[..|fields| - 1] == [fields[0]] && [fields[0]][..0] == [];
    assert ArraysHashCode([fields[0]]) == WrapInt32(31 * 1 + fields[0] as int);
    WrapInt32(31 * WrapInt32(31 * 1 + StringHashCode(k.state)) + symbolHash(k.readSymbol))
  }

  /** Keys that are `equals` have the same `hashCode`: the hash reads only the compared fields. */
  lemma EqualKeysHashAlike(a: TransitionKey, b: TransitionKey, symbolHash: Symbol -> Int32)
    requires Equals(a, Key(b))
    ensures HashCode(a, symbolHash) == HashCode(b, symbolHash)
  {
  }

  /** `TransitionKey.toString`: "(" + state + ", " + symbol character + ")". */
  function KeyToString(k: TransitionKey): (r: string)
    ensures |r| == |k.state| + 5
    ensures r[1..|r| - 4] == k.state
    ensures Symbols.FromChar(r[|r| - 2]) == Success(k.readSymbol)
    ensures r[0] == '(' && r[|r| - 4..|r| - 2] == ", " && r[|r| - 1] == ')'
  {
    Symbols.FromCharOfDisplayChar(k.readSymbol);
    "(" + k.state + ", " + [Symbols.DisplayChar(k.readSymbol)] + ")"
  }

  /** Distinct keys print differently. */
  lemma KeyToStringInjective(a: TransitionKey, b: TransitionKey)
    requires KeyToString(a) == KeyToString(b)
    ensures a == b
  {
  }

  /** `TransitionValue.toString`: "-> (" + next state + ", " + write character + ", " + move character + ")". */
  function ValueToString(v: TransitionValue): (r: string)
    ensures |r| == |v.nextState| + 11
    ensures r[4..|r| - 7] == v.nextState
    ensures Symbols.FromChar(r[|r| - 5]) == Success(v.writeSymbol)
    ensures Directions.DisplayChar(v.moveDirection) == r[|r| - 2]
    ensures r[..4] == "-> (" && r[|r| - 7..|r| - 5] == ", " && r[|r| - 4..|r| - 2] == ", " && r[|r| - 1] == ')'
  {
    Symbols.FromCharOfDisplayChar(v.writeSymbol);
    var head := "-> (" + v.nextState;
    var tail := ", " + [Symbols.DisplayChar(v.writeSymbol)] + ", " + [Directions.DisplayChar(v.moveDirection)] + ")";
    assert |tail| == 7 && tail[2] == Symbols.DisplayChar(v.writeSymbol);
    assert (head + tail)[4..|head|] == v.nextState;
    head + tail
  }

  /** Distinct values print differently. */
  lemma ValueToStringInjective(a: TransitionValue, b: TransitionValue)
    requires ValueToString(a) == ValueToString(b)
    ensures a == b
  {
    var r := ValueToString(a);
    assert Directions.DisplayChar(a.moveDirection) == Directions.DisplayChar(b.moveDirection);
  }
}
