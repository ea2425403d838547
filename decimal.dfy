/**
 Parsing of the GETBIT offset argument: a non-negative integer written in
 decimal. The string must be non-empty and consist of the digits 0-9 only, so a
 sign ("-1") or any other character ("string") makes it invalid. There is no
 upper bound on the value.

 Parsing runs left to right, one digit at a time. It is related to two
 independent definitions: Value, which reads a digit string from its last digit
 backwards, and Render, the canonical decimal form of a natural number.
 */
module Decimal {
  import opened Wrappers

  predicate IsDigit(c: char) {
    '0' <= c <= '9'
  }

  predicate AllDigits(s: string) {
    forall i :: 0 <= i < |s| ==> IsDigit(s[i])
  }

  function DigitValue(c: char): (d: nat)
    requires IsDigit(c)
    ensures d < 10
  {
    c as int - '0' as int
  }

  function DigitChar(d: nat): (c: char)
    requires d < 10
    ensures IsDigit(c) && DigitValue(c) == d
  {
    ('0' as int + d) as char
  }

  /** Reads the digits of s after the already-read value acc; None at the first non-digit. */
  function Accumulate(acc: nat, s: string): (r: Option<nat>)
    ensures r.Some? <==> AllDigits(s)
    decreases s
  {
    if s == [] then Some(acc)
    else if IsDigit(s[0]) then Accumulate(10 * acc + DigitValue(s[0]), s[1..])
    else None
  }

  /** The offset argument as a natural number, or None when it is not a non-empty string of digits. */
  function ParseOffset(s: string): (r: Option<nat>)
    ensures r.Some? <==> s != [] && AllDigits(s)
  {
    if s == [] then None else Accumulate(0, s)
  }

  /** The number a digit string denotes, read from its last digit. */
  function Value(s: string): nat
    requires AllDigits(s)
  {
    if s == [] then 0 else 10 * Value(s[..|s| - 1]) + DigitValue(s[|s| - 1])
  }

  /** A digit string without superfluous leading zeros. */
  predicate Canonical(s: string) {
    s != [] && AllDigits(s) && (s[0] == '0' ==> |s| == 1)
  }

  /** The canonical decimal form of n. */
  function Render(n: nat): (r: string)
    ensures Canonical(r)
  {
    if n < 10 then [DigitChar(n)] else Render(n / 10) + [DigitChar(n % 10)]
  }

  // ---------------------------------------------------------------------------

  /** Reading a + b is reading a, then reading b after it. */
  lemma {:induction false} AccumulateAppend(acc: nat, a: string, b: string)
    requires AllDigits(a)
    ensures Accumulate(acc, a).Some?
    ensures Accumulate(acc, a + b) == Accumulate(Accumulate(acc, a).value, b)
    decreases a
  {
    if a != [] {
      assert (a + b)[0] == a[0];
      assert (a + b)[1..] == a[1..] + b;
      AccumulateAppend(10 * acc + DigitValue(a[0]), a[1..], b);
    } else {
      assert a + b == b;
    }
  }

  /** A valid offset string parses to the number it denotes. */
  lemma {:induction false} ParseOffsetValue(s: string)
    requires s != [] && AllDigits(s)
    ensures ParseOffset(s) == Some(Value(s))
  {
    var init, last := s[..|s| - 1], s[|s| - 1];
    assert s == init + [last];
    assert AllDigits(init) && IsDigit(last);
    AccumulateAppend(0, init, [last]);
    var a := Accumulate(0, init).value;
    if init != [] {
      ParseOffsetValue(init);
      assert a == Value(init);
    } else {
      assert a == 0 == Value(init);
    }
    AccumulateDigit(a, last);
    assert Value(s) == 10 * Value(init) + DigitValue(last);
  }

  /** Reading one more digit multiplies the value read so far by ten and adds the digit. */
  lemma AccumulateDigit(acc: nat, c: char)
    requires IsDigit(c)
    ensures Accumulate(acc, [c]) == Some(10 * acc + DigitValue(c))
  {
    assert [c][1..] == [];
  }

  /** The canonical form of n denotes n. */
  lemma {:induction false} RenderValue(n: nat)
    ensures Value(Render(n)) == n
  {
    var r := Render(n);
    if n >= 10 {
      RenderValue(n / 10);
      assert r[..|r| - 1] == Render(n / 10);
    }
  }

  /** Every natural number, written in decimal, is a valid offset that parses back to itself. */
  lemma ParseRender(n: nat)
    ensures ParseOffset(Render(n)) == Some(n)
  {
    ParseOffsetValue(Render(n));
    RenderValue(n);
  }

  lemma {:induction false} ValuePositive(s: string)
    requires Canonical(s) && s[0] != '0'
    ensures Value(s) > 0
  {
    if |s| > 1 {
      ValuePositive(s[..|s| - 1]);
    }
  }

  /** A canonical offset string is the decimal form of the number it parses to. */
  lemma {:induction false} RenderParse(s: string)
    requires Canonical(s)
    ensures ParseOffset(s).Some? && Render(ParseOffset(s).value) == s
  {
    ParseOffsetValue(s);
    var n := Value(s);
    if |s| == 1 {
      assert Render(n) == [DigitChar(DigitValue(s[0]))];
    } else {
      var init := s[..|s| - 1];
      ValuePositive(init);
      assert n / 10 == Value(init) && n % 10 == DigitValue(s[|s| - 1]);
      RenderParse(init);
      ParseOffsetValue(init);
      assert s == init + [s[|s| - 1]];
    }
  }
}
