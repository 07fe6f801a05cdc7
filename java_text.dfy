/**
 * The pieces of java.lang.String and java.lang.Integer the simulator relies on, re-specified
 * as functions on strings: `split` with a literal separator, the two regular expressions it
 * matches against, `Integer.parseInt` and the decimal rendering of a non-negative int.
 */
module JavaText {
  import opened Wrappers

  const INT_MIN: int := -0x8000_0000
  const INT_MAX: int := 0x7fff_ffff

  /** A run of `n` copies of `c`. */
  function Repeat(c: char, n: nat): (r: string)
    ensures |r| == n
    ensures forall i :: 0 <= i < n ==> r[i] == c
  {
    seq(n, _ => c)
  }

  /** `s.matches("0+")`. */
  predicate IsZeros(s: string) {
    |s| > 0 && forall i :: 0 <= i < |s| ==> s[i] == '0'
  }

  /** `s.matches("[01]*")`. */
  predicate IsBinary(s: string) {
    forall i :: 0 <= i < |s| ==> s[i] == '0' || s[i] == '1'
  }

  lemma ZerosAreRepeat(s: string)
    requires IsZeros(s)
    ensures s == Repeat('0', |s|)
  {
  }

  // ---------------------------------------------------------------------------------------
  // String.split with a literal separator
  // ---------------------------------------------------------------------------------------

  /** `sep` occurs in `s` starting at index `i`. */
  predicate OccursAt(s: string, sep: string, i: nat) {
    i + |sep| <= |s| && s[i..i + |sep|] == sep
  }

  predicate Free(s: string, sep: string) {
    forall i: nat | i <= |s| :: !OccursAt(s, sep, i)
  }

  /**
   * The pieces of `s` around the occurrences of `sep`, found from the left without overlap,
   * before any piece is dropped. There is always one piece more than there are occurrences.
   */
  function SplitRaw(s: string, sep: string): (r: seq<string>)
    requires |sep| > 0
    ensures |r| >= 1
    decreases |s|
  {
    if |s| < |sep| then [s]
    else if s[..|sep|] == sep then [""] + SplitRaw(s[|sep|..], sep)
    else
      var rest := SplitRaw(s[1..], sep);
      [[s[0]] + rest[0]] + rest[1..]
  }

  /** The pieces glued back together with `sep` between neighbours. */
  function Join(pieces: seq<string>, sep: string): string
    requires |pieces| >= 1
    decreases |pieces|
  {
    if |pieces| == 1 then pieces[0] else pieces[0] + sep + Join(pieces[1..], sep)
  }

  /** The pieces without their trailing run of empty strings. */
  function TrimTrailingEmpty(pieces: seq<string>): (r: seq<string>)
    ensures |r| <= |pieces| && r == pieces[..|r|]
    ensures r == [] || r[|r| - 1] != ""
    ensures forall i :: |r| <= i < |pieces| ==> pieces[i] == ""
  {
    if pieces == [] || pieces[|pieces| - 1] != "" then pieces
    else TrimTrailingEmpty(pieces[..|pieces| - 1])
  }

  /**
   * `s.split(sep)` for a separator that the regular-expression engine reads literally: when
   * nothing matches the result is `[s]` itself; otherwise every piece is kept, a leading empty
   * one included, except the trailing empty ones.
   */
  function Split(s: string, sep: string): (r: seq<string>)
    requires |sep| > 0
    ensures r == [""] <==> s == ""
    ensures r == [] || r == [""] || r[|r| - 1] != ""
  {
    var pieces := SplitRaw(s, sep);
    if |pieces| == 1 then [s] else TrimTrailingEmpty(pieces)
  }

  /** Splitting loses nothing: the raw pieces join back to the string. */
  lemma {:induction false} JoinSplitRaw(s: string, sep: string)
    requires |sep| > 0
    ensures Join(SplitRaw(s, sep), sep) == s
    decreases |s|
  {
    if |s| < |sep| {
    } else if s[..|sep|] == sep {
      JoinSplitRaw(s[|sep|..], sep);
      var rest := SplitRaw(s[|sep|..], sep);
      assert SplitRaw(s, sep) == [""] + rest;
      assert ([""] + rest)[1..] == rest;
      assert s == s[..|sep|] + s[|sep|..];
    } else {
      JoinSplitRaw(s[1..], sep);
      var rest := SplitRaw(s[1..], sep);
      var r := SplitRaw(s, sep);
      assert r[0] == [s[0]] + rest[0];
      assert r[1..] == rest[1..];
      assert s == [s[0]] + s[1..];
      if |rest| == 1 {
      } else {
        assert Join(rest, sep) == rest[0] + sep + Join(rest[1..], sep);
      }
    }
  }

  /** The first raw piece is a prefix of the string. */
  lemma FirstPieceIsPrefix(s: string, sep: string)
    requires |sep| > 0
    ensures |SplitRaw(s, sep)[0]| <= |s|
    ensures SplitRaw(s, sep)[0] == s[..|SplitRaw(s, sep)[0]|]
  {
    var r := SplitRaw(s, sep);
    JoinSplitRaw(s, sep);
    if |r| > 1 {
      assert s == r[0] + sep + Join(r[1..], sep);
    }
  }

  /** No raw piece contains the separator: every occurrence was cut. */
  lemma {:induction false} SplitRawPiecesFree(s: string, sep: string)
    requires |sep| > 0
    ensures forall k :: 0 <= k < |SplitRaw(s, sep)| ==> Free(SplitRaw(s, sep)[k], sep)
    decreases |s|
  {
    var r := SplitRaw(s, sep);
    if |s| < |sep| {
      forall i: nat ensures !OccursAt(s, sep, i) {
      }
    } else if s[..|sep|] == sep {
      SplitRawPiecesFree(s[|sep|..], sep);
      var rest := SplitRaw(s[|sep|..], sep);
      assert r == [""] + rest;
      forall k | 0 <= k < |r| ensures Free(r[k], sep) {
        if k == 0 {
          forall i: nat ensures !OccursAt(r[k], sep, i) {
          }
        } else {
          assert r[k] == rest[k - 1];
        }
      }
    } else {
      SplitRawPiecesFree(s[1..], sep);
      FirstPieceIsPrefix(s[1..], sep);
      var rest := SplitRaw(s[1..], sep);
      var p := [s[0]] + rest[0];
      assert r[0] == p;
      assert p == s[..|p|];
      forall i: nat ensures !OccursAt(p, sep, i) {
        if i == 0 {
          if |sep| <= |p| {
            assert p[..|sep|] == s[..|sep|];
          }
        } else if OccursAt(p, sep, i) {
          assert p[i..i + |sep|] == rest[0][i - 1..i - 1 + |sep|];
          assert OccursAt(rest[0], sep, i - 1);
        }
      }
      forall k | 0 <= k < |r| ensures Free(r[k], sep) {
        if k > 0 {
          assert r[k] == rest[k];
        }
      }
    }
  }

  /** A string with no occurrence of the separator is a single piece. */
  lemma {:induction false} SplitRawOfFree(s: string, sep: string)
    requires |sep| > 0
    requires Free(s, sep)
    ensures SplitRaw(s, sep) == [s]
    decreases |s|
  {
    if |s| >= |sep| {
      assert !OccursAt(s, sep, 0);
      forall i: nat ensures !OccursAt(s[1..], sep, i) {
        assert !OccursAt(s, sep, i + 1);
        if i + |sep| <= |s[1..]| {
          assert s[1..][i..i + |sep|] == s[i + 1..i + 1 + |sep|];
        }
      }
      SplitRawOfFree(s[1..], sep);
      assert [s[0]] + s[1..] == s;
    }
  }

  /**
   * No occurrence of `sep` starts inside `a` when `a` is followed by `sep`: not within `a`, and
   * not one that straddles into the separator after it.
   */
  predicate CutsCleanly(a: string, sep: string) {
    forall i: nat | i < |a| :: !OccursAt(a + sep, sep, i)
  }

  /** A piece that cuts cleanly is split off exactly at the separator after it. */
  lemma {:induction false} SplitRawAtFirst(a: string, sep: string, b: string)
    requires |sep| > 0
    requires CutsCleanly(a, sep)
    ensures SplitRaw(a + sep + b, sep) == [a] + SplitRaw(b, sep)
    decreases |a|
  {
    var s := a + sep + b;
    if |a| == 0 {
      assert s[..|sep|] == sep;
      assert s[|sep|..] == b;
    } else {
      assert s[..|sep|] == (a + sep)[..|sep|];
      assert !OccursAt(a + sep, sep, 0);
      assert s[1..] == a[1..] + sep + b;
      forall i: nat | i < |a[1..]| ensures !OccursAt(a[1..] + sep, sep, i) {
        assert !OccursAt(a + sep, sep, i + 1);
        assert (a[1..] + sep)[i..i + |sep|] == (a + sep)[i + 1..i + 1 + |sep|];
      }
      SplitRawAtFirst(a[1..], sep, b);
      assert [a[0]] + a[1..] == a;
    }
  }

  /** Pieces that cut cleanly, the last free of the separator, split back out of their join. */
  lemma {:induction false} SplitRawOfJoin(pieces: seq<string>, sep: string)
    requires |sep| > 0 && |pieces| >= 1
    requires forall k :: 0 <= k < |pieces| - 1 ==> CutsCleanly(pieces[k], sep)
    requires Free(pieces[|pieces| - 1], sep)
    ensures SplitRaw(Join(pieces, sep), sep) == pieces
    decreases |pieces|
  {
    if |pieces| == 1 {
      SplitRawOfFree(pieces[0], sep);
    } else {
      SplitRawOfJoin(pieces[1..], sep);
      SplitRawAtFirst(pieces[0], sep, Join(pieces[1..], sep));
      assert [pieces[0]] + pieces[1..] == pieces;
    }
  }

  /** The same for `split`, when the last piece is not empty. */
  lemma SplitOfJoin(pieces: seq<string>, sep: string)
    requires |sep| > 0 && |pieces| >= 1
    requires forall k :: 0 <= k < |pieces| - 1 ==> CutsCleanly(pieces[k], sep)
    requires Free(pieces[|pieces| - 1], sep)
    requires pieces[|pieces| - 1] != ""
    ensures Split(Join(pieces, sep), sep) == pieces
  {
    SplitRawOfJoin(pieces, sep);
  }

  // ---------------------------------------------------------------------------------------
  // Decimal numbers: Integer.toString for non-negative values and Integer.parseInt
  // ---------------------------------------------------------------------------------------

  predicate IsDigit(c: char) {
    '0' <= c <= '9'
  }

  predicate AllDigits(s: string) {
    forall i :: 0 <= i < |s| ==> IsDigit(s[i])
  }

  function DigitChar(d: nat): (c: char)
    requires d < 10
    ensures IsDigit(c) && c as int - '0' as int == d
  {
    ('0' as int + d) as char
  }

  /** The decimal rendering of `n`, most significant digit first, with no leading zero. */
  function NatToString(n: nat): (r: string)
    ensures |r| >= 1 && AllDigits(r)
    ensures r[0] == '0' <==> n == 0
    ensures |r| > 1 ==> r[0] != '0'
    decreases n
  {
    if n < 10 then [DigitChar(n)] else NatToString(n / 10) + [DigitChar(n % 10)]
  }

  /** The value of a run of decimal digits. */
  function DigitsValue(s: string): nat
    requires AllDigits(s)
    decreases |s|
  {
    if s == [] then 0 else DigitsValue(s[..|s| - 1]) * 10 + (s[|s| - 1] as int - '0' as int)
  }

  /** Rendering and reading back are inverse. */
  lemma {:induction false} DigitsValueOfNatToString(n: nat)
    ensures DigitsValue(NatToString(n)) == n
    decreases n
  {
    if n >= 10 {
      DigitsValueOfNatToString(n / 10);
      var s := NatToString(n);
      assert s[..|s| - 1] == NatToString(n / 10);
    }
  }

  /** Distinct numbers have distinct renderings. */
  lemma NatToStringInjective(a: nat, b: nat)
    requires NatToString(a) == NatToString(b)
    ensures a == b
  {
    DigitsValueOfNatToString(a);
    DigitsValueOfNatToString(b);
  }

  /**
   * `Integer.parseInt(s)`: an optional '+' or '-', then at least one decimal digit, and a value
   * within the range of a 32-bit int; None stands for the NumberFormatException.
   */
  function ParseInt(s: string): (r: Option<int>)
    ensures r.Some? ==> INT_MIN <= r.value <= INT_MAX
    ensures r.Some? ==> |s| >= 1 && (AllDigits(s) || ((s[0] == '-' || s[0] == '+') && AllDigits(s[1..])))
    ensures |s| >= 1 && AllDigits(s) && DigitsValue(s) <= INT_MAX ==> r == Some(DigitsValue(s) as int)
  {
    if |s| == 0 then None
    else
      var negative := s[0] == '-';
      var digits := if s[0] == '-' || s[0] == '+' then s[1..] else s;
      if |digits| == 0 || !AllDigits(digits) then None
      else
        var v: int := if negative then 0 - DigitsValue(digits) as int else DigitsValue(digits);
        if v < INT_MIN || v > INT_MAX then None else Some(v)
  }

  /** Every non-negative int reads back from its decimal rendering. */
  lemma ParseIntOfNatToString(n: nat)
    requires n <= INT_MAX
    ensures ParseInt(NatToString(n)) == Some(n)
  {
    DigitsValueOfNatToString(n);
  }

  /** A leading minus sign negates, down to the least int. */
  lemma ParseIntOfNegative(n: nat)
    requires n <= -INT_MIN
    ensures ParseInt("-" + NatToString(n)) == Some(-(n as int))
  {
    DigitsValueOfNatToString(n);
    assert ("-" + NatToString(n))[1..] == NatToString(n);
  }
}
