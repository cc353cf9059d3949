/** Eight-bit float formats: the code points of a format, the sorted codebook built from
    them, and encoding to the nearest point. */
module Fp8 {
  import opened Fragments
  import opened Powers
  import opened Quantization

  /** One sign bit, then exponent and mantissa bits.  With infinities the top exponent is
      not finite; without, only the all-ones pattern is not. */
  datatype Format = Format(exponentBits: nat, mantissaBits: nat, bias: int, hasInfinity: bool)

  const E4M3 := Format(4, 3, 7, false)
  const E5M2 := Format(5, 2, 15, true)

  /** Two to any integer power. */
  function Scale2(k: int): (p: real)
    ensures 0.0 < p
    decreases if k < 0 then -k else k
  {
    if k == 0 then 1.0 else if k > 0 then 2.0 * Scale2(k - 1) else Scale2(k + 1) / 2.0
  }

  function ExponentOf(fmt: Format, code: nat): nat {
    (code / Pow2(fmt.mantissaBits)) % Pow2(fmt.exponentBits)
  }

  function MantissaOf(fmt: Format, code: nat): nat { code % Pow2(fmt.mantissaBits) }

  predicate Finite(fmt: Format, exponent: nat, mantissa: nat) {
    exponent != Pow2(fmt.exponentBits) - 1 || (!fmt.hasInfinity && mantissa != Pow2(fmt.mantissaBits) - 1)
  }

  /** The magnitude of an exponent and a mantissa: subnormal for exponent zero. */
  function Point(fmt: Format, exponent: nat, mantissa: nat): real {
    var fraction := (mantissa as real) / (Pow2(fmt.mantissaBits) as real);
    if exponent == 0 then fraction * Scale2(1 - fmt.bias) else (1.0 + fraction) * Scale2(exponent - fmt.bias)
  }

  /** The magnitude a code stands for, if it is finite. */
  function Magnitude(fmt: Format, code: nat): Option<real> {
    var exponent, mantissa := ExponentOf(fmt, code), MantissaOf(fmt, code);
    if Finite(fmt, exponent, mantissa) then Some(Point(fmt, exponent, mantissa)) else None
  }

  /** The value of a code. */
  function Value(fmt: Format, code: nat): Option<real> {
    var magnitude := Magnitude(fmt, code);
    if magnitude.None? then None
    else Some(if (code / 128) % 2 == 1 then -magnitude.value else magnitude.value)
  }

  // --- The shape of the two formats -----------------------------------------------------

  predicate Known(fmt: Format) { fmt == E4M3 || fmt == E5M2 }

  lemma SmallPowers()
    ensures Pow2(2) == 4 && Pow2(3) == 8 && Pow2(4) == 16 && Pow2(5) == 32
  {
    assert Pow2(1) == 2;
  }

  lemma Digits(fmt: Format, code: nat)
    requires Known(fmt)
    ensures fmt == E4M3 ==> ExponentOf(fmt, code) == (code / 8) % 16 && MantissaOf(fmt, code) == code % 8
    ensures fmt == E5M2 ==> ExponentOf(fmt, code) == (code / 4) % 32 && MantissaOf(fmt, code) == code % 4
  {
    SmallPowers();
  }

  lemma ShiftedDigits(c: nat)
    requires c < 128
    ensures ((c + 128) / 8) % 16 == (c / 8) % 16 && (c + 128) % 8 == c % 8
    ensures ((c + 128) / 4) % 32 == (c / 4) % 32 && (c + 128) % 4 == c % 4
    ensures (c + 128) / 128 == 1 && c / 128 == 0
  {
  }

  lemma SignKeepsMagnitude(fmt: Format, code: nat)
    requires Known(fmt) && code < 128
    ensures Magnitude(fmt, code + 128) == Magnitude(fmt, code)
  {
    Digits(fmt, code);
    Digits(fmt, code + 128);
    ShiftedDigits(code);
    SameDigits(fmt, code, code + 128);
  }

  lemma SameDigits(fmt: Format, a: nat, b: nat)
    requires ExponentOf(fmt, a) == ExponentOf(fmt, b) && MantissaOf(fmt, a) == MantissaOf(fmt, b)
    ensures Magnitude(fmt, a) == Magnitude(fmt, b)
  {
  }

  /** The sign bit negates. */
  lemma SignNegates(fmt: Format, code: nat)
    requires Known(fmt) && code < 128
    ensures Value(fmt, code) == Magnitude(fmt, code)
    ensures Value(fmt, code + 128) == if Value(fmt, code).None? then None else Some(-Value(fmt, code).value)
  {
    ShiftedDigits(code);
    SignKeepsMagnitude(fmt, code);
  }

  lemma GrowsInside(k: nat, steps: nat, p: real, base: real)
    requires 0 < steps && 0.0 < p
    ensures (base + (k as real) / (steps as real)) * p < (base + ((k + 1) as real) / (steps as real)) * p
  {
    var a, b := base + (k as real) / (steps as real), base + ((k + 1) as real) / (steps as real);
    assert b - a == 1.0 / (steps as real);
    Multiply(a, b, p);
  }

  lemma GrowsAcross(steps: nat, p: real, base: real)
    requires 0 < steps && 0.0 < p
    ensures (base + ((steps - 1) as real) / (steps as real)) * p < (base + 1.0) * p
  {
    var a := base + ((steps - 1) as real) / (steps as real);
    assert base + 1.0 - a == 1.0 / (steps as real);
    Multiply(a, base + 1.0, p);
  }

  /** One more mantissa step is larger. */
  lemma NextMantissa(fmt: Format, exponent: nat, mantissa: nat)
    ensures Point(fmt, exponent, mantissa) < Point(fmt, exponent, mantissa + 1)
  {
    var steps := Pow2(fmt.mantissaBits);
    if exponent == 0 {
      GrowsInside(mantissa, steps, Scale2(1 - fmt.bias), 0.0);
    } else {
      GrowsInside(mantissa, steps, Scale2(exponent - fmt.bias), 1.0);
    }
  }

  /** The next exponent starts above the last mantissa step. */
  lemma NextExponent(fmt: Format, exponent: nat)
    ensures Point(fmt, exponent, Pow2(fmt.mantissaBits) - 1) < Point(fmt, exponent + 1, 0)
  {
    var steps := Pow2(fmt.mantissaBits);
    assert (0 as real) / (steps as real) == 0.0;
    if exponent == 0 {
      GrowsAcross(steps, Scale2(1 - fmt.bias), 0.0);
    } else {
      GrowsAcross(steps, Scale2(exponent - fmt.bias), 1.0);
      PowerDoubles(exponent - fmt.bias);
    }
  }

  lemma PowerDoubles(k: int)
    ensures Scale2(k + 1) == 2.0 * Scale2(k)
  {
  }

  lemma NextOctet(c: nat)
    requires c + 1 < 128
    ensures c % 8 < 7 ==> ((c + 1) / 8) % 16 == (c / 8) % 16 && (c + 1) % 8 == c % 8 + 1
    ensures c % 8 == 7 ==> ((c + 1) / 8) % 16 == (c / 8) % 16 + 1 && (c + 1) % 8 == 0
  {
  }

  lemma NextQuartet(c: nat)
    requires c + 1 < 128
    ensures c % 4 < 3 ==> ((c + 1) / 4) % 32 == (c / 4) % 32 && (c + 1) % 4 == c % 4 + 1
    ensures c % 4 == 3 ==> ((c + 1) / 4) % 32 == (c / 4) % 32 + 1 && (c + 1) % 4 == 0
  {
  }

  /** Counting up: the mantissa steps, or it wraps and the exponent steps. */
  lemma NextDigits(fmt: Format, code: nat)
    requires Known(fmt) && code + 1 < 128
    ensures MantissaOf(fmt, code) + 1 < Pow2(fmt.mantissaBits) ==>
      ExponentOf(fmt, code + 1) == ExponentOf(fmt, code) && MantissaOf(fmt, code + 1) == MantissaOf(fmt, code) + 1
    ensures MantissaOf(fmt, code) + 1 >= Pow2(fmt.mantissaBits) ==>
      && ExponentOf(fmt, code + 1) == ExponentOf(fmt, code) + 1 && MantissaOf(fmt, code + 1) == 0
      && MantissaOf(fmt, code) == Pow2(fmt.mantissaBits) - 1
    ensures ExponentOf(fmt, code + 1) < Pow2(fmt.exponentBits)
  {
    SmallPowers();
    Digits(fmt, code);
    Digits(fmt, code + 1);
    if fmt == E4M3 {
      NextOctet(code);
    } else {
      NextQuartet(code);
    }
  }

  /** Without its sign bit, a finite code stands for more than the one before it. */
  lemma NextCode(fmt: Format, code: nat)
    requires Known(fmt) && code + 1 < 128 && Magnitude(fmt, code + 1).Some?
    ensures Magnitude(fmt, code).Some? && Magnitude(fmt, code).value < Magnitude(fmt, code + 1).value
  {
    NextDigits(fmt, code);
    var exponent, mantissa := ExponentOf(fmt, code), MantissaOf(fmt, code);
    NextMantissa(fmt, exponent, mantissa);
    NextExponent(fmt, exponent);
    FiniteBefore(fmt, exponent, mantissa, ExponentOf(fmt, code + 1), MantissaOf(fmt, code + 1));
  }

  lemma FiniteBefore(fmt: Format, e: nat, m: nat, nextE: nat, nextM: nat)
    requires nextE < Pow2(fmt.exponentBits) && Finite(fmt, nextE, nextM) && nextM < Pow2(fmt.mantissaBits)
    requires (nextE == e && nextM == m + 1) || nextE == e + 1
    ensures Finite(fmt, e, m)
  {
  }

  lemma {:induction false} CodesGrow(fmt: Format, low: nat, high: nat)
    requires Known(fmt) && low < high < 128 && Magnitude(fmt, high).Some?
    ensures Magnitude(fmt, low).Some? && Magnitude(fmt, low).value < Magnitude(fmt, high).value
  {
    NextCode(fmt, high - 1);
    if low < high - 1 {
      CodesGrow(fmt, low, high - 1);
    }
  }

  /** The code of the largest finite value, and that value. */
  function TopCode(fmt: Format): nat { if fmt == E4M3 then 126 else 123 }

  function TopValue(fmt: Format): real { if fmt == E4M3 then 448.0 else 57344.0 }

  lemma TopPowers()
    ensures Scale2(8) == 256.0 && Scale2(15) == 32768.0
  {
    assert Scale2(4) == 16.0;
    assert Scale2(8) == 16.0 * Scale2(4);
    assert Scale2(12) == 16.0 * Scale2(8);
  }

  lemma TopIsFinite(fmt: Format)
    requires Known(fmt)
    ensures Value(fmt, TopCode(fmt)) == Some(TopValue(fmt))
    ensures forall code :: TopCode(fmt) < code < 128 ==> Magnitude(fmt, code).None?
  {
    SmallPowers();
    TopPowers();
    Digits(fmt, TopCode(fmt));
    if fmt == E4M3 {
      assert ExponentOf(fmt, 126) == 15 && MantissaOf(fmt, 126) == 6;
    } else {
      assert ExponentOf(fmt, 123) == 30 && MantissaOf(fmt, 123) == 3;
    }
    forall code | TopCode(fmt) < code < 128 ensures Magnitude(fmt, code).None? {
      Digits(fmt, code);
    }
  }

  lemma MagnitudesAreBounded(fmt: Format, code: nat)
    requires Known(fmt) && code < 128 && Magnitude(fmt, code).Some?
    ensures 0.0 <= Magnitude(fmt, code).value <= TopValue(fmt)
  {
    TopIsFinite(fmt);
    SignNegates(fmt, TopCode(fmt));
    ZeroCode(fmt);
    if code < TopCode(fmt) {
      CodesGrow(fmt, code, TopCode(fmt));
    }
    if code > 0 {
      CodesGrow(fmt, 0, code);
    }
  }

  lemma ZeroDigits(fmt: Format)
    ensures ExponentOf(fmt, 0) == 0 && MantissaOf(fmt, 0) == 0
  {
  }

  lemma ZeroIsFinite(fmt: Format)
    requires Known(fmt)
    ensures Finite(fmt, 0, 0)
  {
    SmallPowers();
  }

  lemma ZeroCode(fmt: Format)
    requires Known(fmt)
    ensures Magnitude(fmt, 0) == Some(0.0)
  {
    ZeroDigits(fmt);
    ZeroIsFinite(fmt);
    ZeroPoint(fmt);
  }

  lemma ZeroPoint(fmt: Format)
    ensures Point(fmt, 0, 0) == 0.0
  {
    ZeroTimes((0 as real) / (Pow2(fmt.mantissaBits) as real), Scale2(1 - fmt.bias));
  }

  lemma ZeroTimes(a: real, p: real)
    requires a == 0.0
    ensures a * p == 0.0
  {
  }

  /** No finite code of either format exceeds its documented maximum, which is reached. */
  lemma ValuesAreBounded(fmt: Format, code: nat)
    requires Known(fmt) && code < 256 && Value(fmt, code).Some?
    ensures -TopValue(fmt) <= Value(fmt, code).value <= TopValue(fmt)
  {
    var plain := code % 128;
    SignNegates(fmt, plain);
    assert code == plain || code == plain + 128;
    MagnitudesAreBounded(fmt, plain);
  }

  // --- Spacing ------------------------------------------------------------------------

  /** The unit in the last place; exponent zero shares that of exponent one. */
  function Ulp(fmt: Format, exponent: nat): (u: real)
    ensures 0.0 < u
  {
    Scale2((if exponent == 0 then 1 else exponent) - fmt.bias) / (Pow2(fmt.mantissaBits) as real)
  }

  lemma StepSize(k: nat, steps: nat, p: real, base: real)
    requires 0 < steps
    ensures (base + ((k + 1) as real) / (steps as real)) * p - (base + (k as real) / (steps as real)) * p == p / (steps as real)
  {
    var a, b := base + (k as real) / (steps as real), base + ((k + 1) as real) / (steps as real);
    assert b - a == 1.0 / (steps as real);
    assert b * p - a * p == (b - a) * p;
  }

  lemma PointStep(fmt: Format, exponent: nat, mantissa: nat)
    ensures Point(fmt, exponent, mantissa + 1) - Point(fmt, exponent, mantissa) == Ulp(fmt, exponent)
  {
    if exponent == 0 {
      StepSize(mantissa, Pow2(fmt.mantissaBits), Scale2(1 - fmt.bias), 0.0);
    } else {
      StepSize(mantissa, Pow2(fmt.mantissaBits), Scale2(exponent - fmt.bias), 1.0);
    }
  }

  lemma FullFraction(steps: nat)
    requires 0 < steps
    ensures (steps as real) / (steps as real) == 1.0 && (0 as real) / (steps as real) == 0.0
  {
  }

  lemma PointFull(fmt: Format, exponent: nat, p: real)
    requires p == Scale2((if exponent == 0 then 1 else exponent) - fmt.bias)
    ensures Point(fmt, exponent, Pow2(fmt.mantissaBits)) == if exponent == 0 then p else 2.0 * p
  {
    FullFraction(Pow2(fmt.mantissaBits));
  }

  lemma PointEmpty(fmt: Format, exponent: nat)
    ensures Point(fmt, exponent + 1, 0) == Scale2(exponent + 1 - fmt.bias)
  {
    FullFraction(Pow2(fmt.mantissaBits));
  }

  /** Neighbouring points are one unit apart, within an exponent and across its end.  With
      the first point at zero this says what every point is. */
  lemma PointSpacing(fmt: Format, exponent: nat, mantissa: nat)
    ensures Point(fmt, 0, 0) == 0.0
    ensures Point(fmt, exponent, mantissa + 1) - Point(fmt, exponent, mantissa) == Ulp(fmt, exponent)
    ensures Point(fmt, exponent, Pow2(fmt.mantissaBits)) == Point(fmt, exponent + 1, 0)
  {
    ZeroPoint(fmt);
    PointStep(fmt, exponent, mantissa);
    PointFull(fmt, exponent, Scale2((if exponent == 0 then 1 else exponent) - fmt.bias));
    PointEmpty(fmt, exponent);
    PowerDoubles(exponent - fmt.bias);
  }

  /** So are neighbouring codes. */
  lemma CodeSpacing(fmt: Format, code: nat)
    requires Known(fmt) && code + 1 < 128 && Magnitude(fmt, code + 1).Some?
    ensures Magnitude(fmt, code).Some?
    ensures Magnitude(fmt, code + 1).value - Magnitude(fmt, code).value == Ulp(fmt, ExponentOf(fmt, code))
  {
    NextCode(fmt, code);
    NextDigits(fmt, code);
    PointSpacing(fmt, ExponentOf(fmt, code), MantissaOf(fmt, code));
  }

  lemma AtLeastOnce(fraction: real, p: real)
    requires 0.0 <= fraction && 0.0 < p
    ensures p <= (1.0 + fraction) * p
  {
    MultiplyUp(1.0, 1.0 + fraction, p);
  }

  /** The least normal value. */
  function LeastNormal(fmt: Format): (p: real)
    ensures 0.0 < p
  {
    Scale2(1 - fmt.bias)
  }

  function Larger(a: real, b: real): real { if a < b then b else a }

  /** A unit is at most that part of a value that the mantissa resolves. */
  lemma UlpIsSmall(fmt: Format, exponent: nat, mantissa: nat)
    ensures Ulp(fmt, exponent) <= Larger(Point(fmt, exponent, mantissa), LeastNormal(fmt)) / (Pow2(fmt.mantissaBits) as real)
  {
    var steps := Pow2(fmt.mantissaBits) as real;
    if exponent > 0 {
      AtLeastOnce((mantissa as real) / steps, Scale2(exponent - fmt.bias));
    }
    var p, q := Scale2((if exponent == 0 then 1 else exponent) - fmt.bias), Larger(Point(fmt, exponent, mantissa), LeastNormal(fmt));
    assert p <= q;
    DivideUp(p, q, steps);
  }

  lemma DivideUp(a: real, b: real, s: real)
    requires a <= b && 0.0 < s
    ensures a / s <= b / s
  {
  }

  /** A value within the range lies between two neighbouring codes. */
  lemma {:induction false} Bracketed(fmt: Format, x: real, n: nat) returns (c: nat)
    requires Known(fmt) && 0 < n < 128 && Magnitude(fmt, n).Some? && 0.0 <= x <= Magnitude(fmt, n).value
    ensures c < n && Magnitude(fmt, c).Some? && Magnitude(fmt, c + 1).Some?
    ensures Magnitude(fmt, c).value <= x <= Magnitude(fmt, c + 1).value
  {
    NextCode(fmt, n - 1);
    if n == 1 {
      ZeroCode(fmt);
      c := 0;
    } else if Magnitude(fmt, n - 1).value <= x {
      c := n - 1;
    } else {
      c := Bracketed(fmt, x, n - 1);
    }
  }

  /** A value within the range has a code that is near, in relative terms down to the least
      normal value: half a unit of the mantissa. */
  lemma NearCode(fmt: Format, x: real) returns (c: nat)
    requires Known(fmt) && 0.0 <= x <= TopValue(fmt)
    ensures c < 128 && Magnitude(fmt, c).Some?
    ensures Abs(x - Magnitude(fmt, c).value) <= Larger(x, LeastNormal(fmt)) / (2.0 * (Pow2(fmt.mantissaBits) as real))
  {
    TopIsFinite(fmt);
    SignNegates(fmt, TopCode(fmt));
    var b := Bracketed(fmt, x, TopCode(fmt));
    CodeSpacing(fmt, b);
    UlpIsSmall(fmt, ExponentOf(fmt, b), MantissaOf(fmt, b));
    var low, high := Magnitude(fmt, b).value, Magnitude(fmt, b + 1).value;
    c := if x - low <= high - x then b else b + 1;
    HalfStep(x, low, high, Ulp(fmt, ExponentOf(fmt, b)), LeastNormal(fmt), Pow2(fmt.mantissaBits) as real);
  }

  lemma HalfStep(x: real, low: real, high: real, ulp: real, least: real, steps: real)
    requires low <= x <= high && high - low == ulp && 0.0 < steps && ulp <= Larger(low, least) / steps
    ensures (if x - low <= high - x then x - low else high - x) <= Larger(x, least) / (2.0 * steps)
  {
    DivideUp(Larger(low, least), Larger(x, least), steps);
    assert Larger(x, least) / (2.0 * steps) == Larger(x, least) / steps / 2.0;
  }

  /** Encoding to a nearest finite point of a format keeps every value of either sign within
      the range to half a unit of its mantissa. */
  lemma NearestIsNear(fmt: Format, x: real, code: nat)
    requires Known(fmt) && Abs(x) <= TopValue(fmt) && code < 256 && Value(fmt, code).Some?
    requires forall c :: 0 <= c < 256 && Value(fmt, c).Some? ==> Abs(x - Value(fmt, code).value) <= Abs(x - Value(fmt, c).value)
    ensures Abs(x - Value(fmt, code).value) <= Larger(Abs(x), LeastNormal(fmt)) / (2.0 * (Pow2(fmt.mantissaBits) as real))
  {
    var c := NearCode(fmt, Abs(x));
    SignNegates(fmt, c);
    if x < 0.0 {
      assert Abs(x - Value(fmt, c + 128).value) == Abs(Abs(x) - Magnitude(fmt, c).value);
    } else {
      assert Abs(x - Value(fmt, c).value) == Abs(Abs(x) - Magnitude(fmt, c).value);
    }
  }

  // --- The codebook -------------------------------------------------------------------

  /** `decode` is the value of every code; `values` the distinct finite values in
      ascending order, `codes` a code for each. */
  datatype Codebook = Codebook(decode: seq<Option<real>>, values: seq<real>, codes: seq<nat>)

  predicate Ascends(values: seq<real>) { forall i, j :: 0 <= i < j < |values| ==> values[i] < values[j] }

  /** The table of the first `n` codes: every finite value once, in order, with the least
      code that has it. */
  ghost predicate Tabulates(book: Codebook, n: nat) {
    && n <= |book.decode| && |book.codes| == |book.values| && Ascends(book.values)
    && (forall i :: 0 <= i < |book.values| ==>
          book.codes[i] < n && book.decode[book.codes[i]] == Some(book.values[i]))
    && (forall c :: 0 <= c < n && book.decode[c].Some? ==> book.decode[c].value in book.values)
    && (forall c, i :: 0 <= c < n && 0 <= i < |book.values| && book.decode[c] == Some(book.values[i]) ==> book.codes[i] <= c)
  }

  /** The first position whose value is not below `x`. */
  method SearchSorted(values: seq<real>, x: real) returns (i: nat)
    requires Ascends(values)
    ensures i <= |values|
    ensures forall k :: 0 <= k < i ==> values[k] < x
    ensures forall k :: i <= k < |values| ==> x <= values[k]
  {
    i := 0;
    while i < |values| && values[i] < x
      invariant i <= |values| && forall k :: 0 <= k < i ==> values[k] < x
    {
      i := i + 1;
    }
  }

  /** One more code: a new finite value takes its place in the order; a value that is
      already there keeps its earlier code. */
  method AddCode(book: Codebook, n: nat) returns (more: Codebook)
    requires Tabulates(book, n) && n < |book.decode|
    ensures Tabulates(more, n + 1) && more.decode == book.decode
  {
    if book.decode[n].None? || book.decode[n].value in book.values {
      return book;
    }
    var v := book.decode[n].value;
    var i := SearchSorted(book.values, v);
    AddedAscends(book.values, i, v);
    more := Codebook(book.decode, book.values[..i] + [v] + book.values[i..], book.codes[..i] + [n] + book.codes[i..]);
    AddedTabulates(book, n, i, more);
  }

  lemma AddedAscends(values: seq<real>, i: nat, v: real)
    requires Ascends(values) && i <= |values| && v !in values
    requires forall k :: 0 <= k < i ==> values[k] < v
    requires forall k :: i <= k < |values| ==> v <= values[k]
    ensures Ascends(values[..i] + [v] + values[i..])
  {
    assert forall k :: i <= k < |values| ==> v < values[k];
  }

  /** Where a position of the larger table comes from. */
  function Origin(i: nat, k: nat): int { if k < i then k else k - 1 }

  lemma AddedTabulates(book: Codebook, n: nat, i: nat, more: Codebook)
    requires Tabulates(book, n) && n < |book.decode| && book.decode[n].Some? && i <= |book.values|
    requires var v := book.decode[n].value;
      && v !in book.values && Ascends(more.values) && more.decode == book.decode
      && |more.values| == |more.codes| == |book.values| + 1
      && more.values[i] == v && more.codes[i] == n
    requires forall k :: 0 <= k < |more.values| && k != i ==>
      more.values[k] == book.values[Origin(i, k)] && more.codes[k] == book.codes[Origin(i, k)]
    ensures Tabulates(more, n + 1)
  {
    assert forall c :: 0 <= c < n ==> book.decode[c] != book.decode[n];
    forall c | 0 <= c < n && more.decode[c].Some? ensures more.decode[c].value in more.values {
      var k :| 0 <= k < |book.values| && book.values[k] == book.decode[c].value;
      var to := if k < i then k else k + 1;
      assert Origin(i, to) == k;
      assert more.values[to] == book.values[k];
    }
    forall c, k | 0 <= c < n + 1 && 0 <= k < |more.values| && more.decode[c] == Some(more.values[k]) ensures more.codes[k] <= c {
      if k != i {
        assert more.values[k] == book.values[Origin(i, k)];
        assert more.values[k] != more.values[i];
      }
    }
  }

  /** Fills the decode table and tabulates it. */
  method Tabulate(value: nat -> Option<real>) returns (book: Codebook)
    ensures |book.decode| == 256 && Tabulates(book, 256)
    ensures forall c :: 0 <= c < 256 ==> book.decode[c] == value(c)
  {
    var values := new Option<real>[256](i => None);
    for code := 0 to 256
      invariant forall c :: 0 <= c < code ==> values[c] == value(c)
    {
      values[code] := value(code);
    }
    ghost var decode := values[..];
    book := Codebook(values[..], [], []);
    for n := 0 to 256
      invariant Tabulates(book, n) && book.decode == decode
    {
      book := AddCode(book, n);
    }
  }

  /** `book` is the codebook of a format. */
  ghost predicate BookOf(fmt: Format, book: Codebook) {
    |book.decode| == 256 && Tabulates(book, 256) && forall c :: 0 <= c < 256 ==> book.decode[c] == Value(fmt, c)
  }

  /** Builds the codebook of a format. */
  method BuildCodebook(fmt: Format) returns (book: Codebook)
    ensures BookOf(fmt, book)
  {
    book := Tabulate((c: nat) => Value(fmt, c));
  }

  /** The largest entry of the codebook of a known format is its documented maximum, and
      the book has at least two entries. */
  lemma BookOfFormat(fmt: Format, book: Codebook)
    requires Known(fmt) && BookOf(fmt, book)
    ensures |book.values| >= 2 && book.values[|book.values| - 1] == TopValue(fmt)
    ensures book.values[0] == -TopValue(fmt)
  {
    TopIsFinite(fmt);
    SignNegates(fmt, TopCode(fmt));
    var t, b := TopCode(fmt), TopCode(fmt) + 128;
    assert book.decode[t] == Some(TopValue(fmt)) && book.decode[b] == Some(-TopValue(fmt));
    assert TopValue(fmt) in book.values && -TopValue(fmt) in book.values;
    forall i | 0 <= i < |book.values| ensures -TopValue(fmt) <= book.values[i] <= TopValue(fmt) {
      ValuesAreBounded(fmt, book.codes[i]);
    }
  }

  // --- Encoding -----------------------------------------------------------------------

  /** The index of a nearest value, ties going to the lower one; beyond the range it is
      the end. */
  method EncodeIndex(values: seq<real>, x: real) returns (nearest: nat)
    requires Ascends(values) && |values| >= 2
    ensures Nearest(values, x, nearest)
    ensures forall k :: 0 <= k < nearest ==> Abs(x - values[nearest]) < Abs(x - values[k])
    ensures x <= values[0] ==> nearest == 0
    ensures values[|values| - 1] <= x ==> nearest == |values| - 1
  {
    var flat := Clip(x, values[0], values[|values| - 1]);
    var i := SearchSorted(values, flat);
    var upper := if i < 1 then 1 else if i > |values| - 1 then |values| - 1 else i;
    var lower := upper - 1;
    nearest := if flat - values[lower] <= values[upper] - flat then lower else upper;
    assert values[lower] <= flat <= values[upper];
    forall k | 0 <= k < |values| ensures Abs(x - values[nearest]) <= Abs(x - values[k]) {
      assert k < lower ==> values[k] < values[lower];
      assert upper < k ==> values[upper] < values[k];
    }
  }

  /** Encodes to the code of a nearest finite point of the whole codebook. */
  method Encode(book: Codebook, x: real) returns (code: nat)
    requires |book.decode| == 256 && Tabulates(book, 256) && |book.values| >= 2
    ensures code < 256 && book.decode[code].Some?
    ensures forall c :: 0 <= c < 256 && book.decode[c].Some? ==>
      Abs(x - book.decode[code].value) <= Abs(x - book.decode[c].value)
    ensures book.values[|book.values| - 1] <= x ==> book.decode[code].value == book.values[|book.values| - 1]
    ensures x <= book.values[0] ==> book.decode[code].value == book.values[0]
  {
    var r := EncodeIndex(book.values, x);
    code := book.codes[r];
    forall c | 0 <= c < 256 && book.decode[c].Some?
      ensures Abs(x - book.values[r]) <= Abs(x - book.decode[c].value)
    {
      var k :| 0 <= k < |book.values| && book.values[k] == book.decode[c].value;
    }
  }

  /** No finite point is nearer to any element of the row than the one its code stands for. */
  ghost predicate NearestCodes(book: Codebook, row: Row, codes: seq<nat>, scale: real) {
    |codes| == |row| && forall i :: 0 <= i < |row| ==> NearestCode(book, row[i], codes[i], scale)
  }

  predicate NearestCode(book: Codebook, x: real, code: nat, scale: real) {
    && code < |book.decode| && book.decode[code].Some?
    && forall c :: 0 <= c < |book.decode| && book.decode[c].Some? ==>
      Error(x, book.decode[code].value, scale) <= Error(x, book.decode[c].value, scale)
  }

  /** Encodes a matrix of any shape: every row under its own scale, which maps the largest
      finite value to the row's peak, and every element to a nearest point. */
  method Quantize(book: Codebook, m: seq<Row>) returns (scales: seq<real>, codes: seq<seq<nat>>)
    requires |book.decode| == 256 && Tabulates(book, 256) && |book.values| >= 2
    requires book.values[|book.values| - 1] > 0.0
    ensures |scales| == |codes| == |m|
    ensures forall r :: 0 <= r < |m| ==> Decode(book.values[|book.values| - 1], scales[r]) == Peak(m[r])
    ensures forall r :: 0 <= r < |m| ==> NearestCodes(book, m[r], codes[r], scales[r])
  {
    scales, codes := [], [];
    for r := 0 to |m|
      invariant |scales| == |codes| == r
      invariant forall k :: 0 <= k < r ==> Decode(book.values[|book.values| - 1], scales[k]) == Peak(m[k])
      invariant forall k :: 0 <= k < r ==> NearestCodes(book, m[k], codes[k], scales[k])
    {
      var row, scale := QuantizeRow(book, m[r]);
      scales, codes := scales + [scale], codes + [row];
    }
  }

  method QuantizeRow(book: Codebook, row: Row) returns (codes: seq<nat>, scale: real)
    requires |book.decode| == 256 && Tabulates(book, 256) && |book.values| >= 2
    requires book.values[|book.values| - 1] > 0.0
    ensures scale > 0.0 && Decode(book.values[|book.values| - 1], scale) == Peak(row)
    ensures NearestCodes(book, row, codes, scale)
  {
    scale := Peak(row) / book.values[|book.values| - 1];
    ScaleOf(Peak(row), book.values[|book.values| - 1]);
    codes := [];
    for i := 0 to |row|
      invariant |codes| == i && forall k :: 0 <= k < i ==> NearestCode(book, row[k], codes[k], scale)
    {
      var code := EncodeScaled(book, row[i], scale);
      codes := codes + [code];
    }
  }

  /** One element, divided by its row's scale, becomes the code of a point that no other
      finite point beats once scaled back. */
  method EncodeScaled(book: Codebook, x: real, scale: real) returns (code: nat)
    requires |book.decode| == 256 && Tabulates(book, 256) && |book.values| >= 2 && scale > 0.0
    ensures NearestCode(book, x, code, scale)
  {
    code := Encode(book, x / scale);
    forall c | 0 <= c < 256 && book.decode[c].Some?
      ensures Error(x, book.decode[code].value, scale) <= Error(x, book.decode[c].value, scale)
    {
      CloserScalesBack(x, scale, book.decode[code].value, book.decode[c].value);
    }
  }

  lemma ScaleOf(peak: real, top: real)
    requires 0.0 < peak && 0.0 < top
    ensures 0.0 < peak / top && Decode(top, peak / top) == peak
  {
    Divide(peak, top);
  }
}
