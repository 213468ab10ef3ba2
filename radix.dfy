/** Conversion between integer magnitudes and big-endian digit strings in base
    2^base, each digit held in one byte (utilFromBase / utilToBase). */
module Radix {
  import opened Buffers

  /** 2^n, which the source obtains from Math.pow(2, n). */
  function Pow2(n: nat): (r: nat)
    ensures r >= 1
  {
    if n == 0 then 1 else 2 * Pow2(n - 1)
  }

  lemma {:induction false} Pow2Add(a: nat, b: nat)
    ensures Pow2(a + b) == Pow2(a) * Pow2(b)
  {
    if a > 0 {
      Pow2Add(a - 1, b);
    }
  }

  lemma {:induction false} Pow2Monotone(a: nat, b: nat)
    requires a <= b
    ensures Pow2(a) <= Pow2(b)
  {
    if a < b {
      Pow2Monotone(a, b - 1);
    }
  }

  /** 2^(base·a) <= 2^(base·b) for a <= b. */
  lemma WeightMonotone(base: nat, a: nat, b: nat)
    requires a <= b
    ensures Pow2(base * a) <= Pow2(base * b)
  {
    MulMonotone(a, b, base);
    Pow2Monotone(base * a, base * b);
  }

  lemma MulMonotone(a: nat, b: nat, p: nat)
    requires a <= b
    ensures a * p <= b * p
  {
  }

  /** A digit of base 2^base fits in a byte when base is at most 8. */
  lemma DigitFitsByte(base: nat)
    requires base <= 8
    ensures Pow2(base) <= 256
  {
    Pow2Monotone(base, 8);
  }

  /** Σ digits[k] · 2^(base·(N−1−k)): the magnitude of the big-endian digit
      string `digits` in base 2^base. */
  function Magnitude(digits: seq<byte>, base: nat): nat
  {
    if |digits| == 0 then 0
    else digits[0] * Pow2(base * (|digits| - 1)) + Magnitude(digits[1..], base)
  }

  predicate DigitsBelow(digits: seq<byte>, base: nat)
  {
    forall k :: 0 <= k < |digits| ==> digits[k] < Pow2(base)
  }

  lemma MagnitudeCons(x: byte, rest: seq<byte>, base: nat)
    ensures Magnitude([x] + rest, base) == x * Pow2(base * |rest|) + Magnitude(rest, base)
  {
    assert ([x] + rest)[1..] == rest;
  }

  /** Zeros on the left do not change the magnitude. */
  lemma {:induction false} MagnitudeLeadingZeros(zeros: seq<byte>, digits: seq<byte>, base: nat)
    requires forall k :: 0 <= k < |zeros| ==> zeros[k] == 0
    ensures Magnitude(zeros + digits, base) == Magnitude(digits, base)
  {
    if |zeros| > 0 {
      var rest := zeros[1..] + digits;
      assert zeros + digits == [0] + rest;
      MagnitudeCons(0, rest, base);
      MagnitudeLeadingZeros(zeros[1..], digits, base);
    } else {
      assert zeros + digits == digits;
    }
  }

  lemma MulBound(d: nat, m: nat, p: nat, bound: nat)
    requires d < bound && m < p
    ensures d * p + m < bound * p
  {
    calc {
      d * p + m;
    <
      d * p + p;
    ==
      (d + 1) * p;
    <=
      { assert d + 1 <= bound; }
      bound * p;
    }
  }

  /** N digits below 2^base give a magnitude below 2^(base·N). */
  lemma {:induction false} MagnitudeBound(digits: seq<byte>, base: nat)
    requires DigitsBelow(digits, base)
    ensures Magnitude(digits, base) < Pow2(base * |digits|)
  {
    if |digits| > 0 {
      var n := |digits|;
      MagnitudeBound(digits[1..], base);
      assert base * (n - 1) + base == base * n;
      Pow2Add(base, base * (n - 1));
      MulBound(digits[0], Magnitude(digits[1..], base), Pow2(base * (n - 1)), Pow2(base));
    }
  }

  /** utilFromBase: a single byte is returned as it is; otherwise the loop adds
      digit·2^(base·i) for i from N−1 down to 0. */
  method FromBase(inputBuffer: seq<byte>, inputBase: nat) returns (result: nat)
    ensures result == Magnitude(inputBuffer, inputBase)
  {
    if |inputBuffer| == 1 {
      return inputBuffer[0];
    }
    result := 0;
    var i := |inputBuffer| - 1;
    while i >= 0
      invariant -1 <= i < |inputBuffer|
      invariant result + Magnitude(inputBuffer[|inputBuffer| - 1 - i..], inputBase) == Magnitude(inputBuffer, inputBase)
    {
      var k := |inputBuffer| - 1 - i;
      MagnitudeFront(inputBuffer, k, i, inputBase);
      result := result + inputBuffer[k] * Pow2(inputBase * i);
      i := i - 1;
    }
  }

  /** The digit at position k, `place` digits from the right end, comes first
      in the magnitude of the digits from k on. */
  lemma MagnitudeFront(digits: seq<byte>, k: nat, place: nat, base: nat)
    requires k < |digits| && place == |digits| - 1 - k
    ensures base * place >= 0 && digits[k] * Pow2(base * place) >= 0
    ensures Magnitude(digits[k..], base) == digits[k] * Pow2(base * place) + Magnitude(digits[k + 1..], base)
  {
    assert digits[k..][1..] == digits[k + 1..];
  }

  lemma DivMod(value: nat, p: nat)
    requires p > 0
    ensures value == value / p * p + value % p && 0 <= value % p < p
  {
  }

  /** Two digit strings of one length with digits below 2^base and the same
      magnitude are the same string. */
  lemma {:induction false} MagnitudeInjective(a: seq<byte>, b: seq<byte>, base: nat)
    requires |a| == |b| && DigitsBelow(a, base) && DigitsBelow(b, base)
    requires Magnitude(a, base) == Magnitude(b, base)
    ensures a == b
  {
    if |a| > 0 {
      var p := Pow2(base * (|a| - 1));
      var ma, mb := Magnitude(a[1..], base), Magnitude(b[1..], base);
      MagnitudeBound(a[1..], base);
      MagnitudeBound(b[1..], base);
      assert a[0] == b[0] by {
        if a[0] < b[0] {
          MulBound(a[0], ma, p, b[0]);
          assert false;
        } else if a[0] > b[0] {
          MulBound(b[0], mb, p, a[0]);
          assert false;
        }
      }
      MagnitudeInjective(a[1..], b[1..], base);
      assert a == [a[0]] + a[1..] && b == [b[0]] + b[1..];
    }
  }

  /** A digit string whose magnitude fits in `width` digits starts with
      |digits| − width zeros. */
  lemma {:induction false} LeadingDigitsZero(digits: seq<byte>, base: nat, width: nat)
    requires width <= |digits| && DigitsBelow(digits, base)
    requires Magnitude(digits, base) < Pow2(base * width)
    ensures forall k :: 0 <= k < |digits| - width ==> digits[k] == 0
  {
    if width < |digits| {
      var n := |digits|;
      var p := Pow2(base * (n - 1));
      var rest := digits[1..];
      assert Magnitude(digits, base) == digits[0] * p + Magnitude(rest, base);
      assert digits[0] == 0 by {
        WeightMonotone(base, width, n - 1);
        if digits[0] != 0 {
          MulMonotone(1, digits[0], p);
        }
      }
      LeadingDigitsZero(rest, base, width);
      forall k | 0 <= k < n - width
        ensures digits[k] == 0
      {
        if k > 0 {
          assert digits[k] == rest[k - 1];
        }
      }
    }
  }

  /** True when `value` has at most `width` digits in base 2^base. */
  predicate Fits(value: nat, base: nat, width: nat)
  {
    value < Pow2(base * width)
  }

  /** The least width in from..7 that `value` fits, or 0 when there is none. */
  function WidthFrom(value: nat, base: nat, from: nat): (w: nat)
    requires 1 <= from <= 8
    ensures w == 0 || (from <= w < 8 && Fits(value, base, w))
    ensures forall k :: from <= k < 8 && Fits(value, base, k) ==> w != 0 && w <= k
    decreases 8 - from
  {
    if from == 8 then 0
    else if Fits(value, base, from) then from
    else WidthFrom(value, base, from + 1)
  }

  /** The least number of digits, 1 to 7, that utilToBase accepts for `value`;
      0 when even 7 digits are too few. */
  function Width(value: nat, base: nat): nat
  {
    WidthFrom(value, base, 1)
  }

  /** What utilToBase promises: an empty result when the value needs more than
      7 digits or more than the reserved width; otherwise the digits of the value
      at its least width (reserved < 0) or at the reserved width, zero-filled on
      the left, every digit below 2^base. */
  predicate IsToBaseResult(value: nat, base: nat, reserved: int, r: seq<byte>)
  {
    var w := Width(value, base);
    if w == 0 || 0 <= reserved < w then r == []
    else
      |r| == (if reserved < 0 then w else reserved) &&
      (forall k :: 0 <= k < |r| - w ==> r[k] == 0) &&
      DigitsBelow(r, base) && Magnitude(r, base) == value
  }

  lemma QuotientBound(value: nat, p: nat, high: nat)
    requires p > 0 && value < high * p
    ensures value / p < high
  {
    DivMod(value, p);
    if value / p >= high {
      MulMonotone(high, value / p, p);
    }
  }

  /** 2^(base·(j+1)) = 2^base · 2^(base·j). */
  lemma Pow2Step(base: nat, j: nat)
    ensures Pow2(base * (j + 1)) == Pow2(base) * Pow2(base * j)
  {
    assert base + base * j == base * (j + 1);
    Pow2Add(base, base * j);
  }

  /** The loop step of utilToBase: with rest < 2^(base·(j+1)), the digit
      d = rest / 2^(base·j) fits in a byte and is below 2^base, and taking it off
      leaves a remainder below 2^(base·j). */
  lemma DigitOf(rest: nat, base: nat, j: nat, basis: nat, d: int)
    requires 1 <= base <= 8 && rest < Pow2(base * (j + 1))
    requires basis == Pow2(base * j) && d == rest / basis
    ensures 0 <= d < Pow2(base) <= 256
    ensures 0 <= rest - d * basis < basis
  {
    Pow2Step(base, j);
    QuotientBound(rest, basis, Pow2(base));
    QuotientNonnegative(rest, basis);
    DivMod(rest, basis);
    DigitFitsByte(base);
  }

  lemma ProductNonnegative(a: nat, b: nat)
    ensures a * b >= 0
  {
  }

  lemma QuotientNonnegative(value: nat, p: nat)
    requires p > 0
    ensures value / p >= 0
  {
  }

  /** Writing digit d into a zero cell i, `place` cells from the right end,
      adds d·2^(base·place) to the magnitude. */
  lemma {:induction false} MagnitudeSet(digits: seq<byte>, i: nat, place: nat, d: byte, base: nat)
    requires i < |digits| && digits[i] == 0 && place == |digits| - 1 - i
    ensures Magnitude(digits[i := d], base) == Magnitude(digits, base) + d * Pow2(base * place)
  {
    var after := digits[i := d];
    if i > 0 {
      assert after[1..] == digits[1..][i - 1 := d];
      MagnitudeSet(digits[1..], i - 1, place, d, base);
    } else {
      assert after[1..] == digits[1..];
    }
  }

  /** The digit loop of utilToBase: in a fresh zero-filled buffer of `len` bytes,
      write the `width` digits of `value` into the last `width` cells, from the
      most significant down, each digit floor(rest / 2^(j·base)) being taken off
      the rest before the next. */
  method WriteDigits(value: nat, base: nat, width: nat, len: nat) returns (r: seq<byte>)
    requires 1 <= base <= 8 && 1 <= width <= len && value < Pow2(base * width)
    ensures |r| == len && forall k :: 0 <= k < len - width ==> r[k] == 0
    ensures DigitsBelow(r, base) && Magnitude(r, base) == value
  {
    var retView := new byte[len](_ => 0);
    var internalValue := value;
    ZerosMagnitude(retView[..], base);
    // j runs from width − 1 down to 0; in the invariant it counts the digits still to write
    for j := width downto 0
      invariant Writing(retView[..], value, base, width, j, internalValue)
    {
      internalValue := PutDigit(retView, value, base, width, j, internalValue);
    }
    r := retView[..];
  }

  /** One step of the digit loop of utilToBase: store digit
      floor(rest / 2^(j·base)) in cell len − j − 1 and take it off the rest. */
  method PutDigit(retView: array<byte>, value: nat, base: nat, width: nat, j: nat, rest: int) returns (next: int)
    requires 1 <= base <= 8 && j < width <= retView.Length
    requires Writing(retView[..], value, base, width, j + 1, rest)
    modifies retView
    ensures Writing(retView[..], value, base, width, j, next)
  {
    ProductNonnegative(base, j);
    var basis := Pow2(base * j);
    var d: int := rest / basis;
    ghost var before := retView[..];
    WriteStep(before, rest, value, base, width, j, basis, d);
    retView[retView.Length - j - 1] := d;
    assert retView[..] == before[retView.Length - 1 - j := retView[retView.Length - 1 - j]];
    next := rest - d * basis;
  }

  /** The state of the digit loop of utilToBase with j digits still to write:
      the rest is below 2^(base·j), the cells before the digits and the j cells
      still to write are zero, every digit is below 2^base, and the digits
      written so far plus the rest make the value. */
  ghost predicate Writing(digits: seq<byte>, value: nat, base: nat, width: nat, j: nat, rest: int)
  {
    j <= width <= |digits| && 0 <= rest < Pow2(base * j) &&
    (forall k :: 0 <= k < |digits| - width || |digits| - j <= k < |digits| ==> digits[k] == 0) &&
    DigitsBelow(digits, base) && Magnitude(digits, base) + rest == value
  }

  /** One round of the digit loop of utilToBase: writing the digit
      floor(rest / 2^(base·j)) and taking it off the rest leaves one digit fewer
      to write. */
  lemma WriteStep(before: seq<byte>, rest: int, value: nat, base: nat, width: nat, j: nat, basis: nat, d: int)
    requires 1 <= base <= 8 && j < width <= |before|
    requires Writing(before, value, base, width, j + 1, rest)
    requires basis == Pow2(base * j) && d == rest / basis
    ensures 0 <= d < 256 && 0 <= rest - d * basis < basis
    ensures Writing(before[|before| - 1 - j := d], value, base, width, j, rest - d * basis)
  {
    DigitOf(rest, base, j, basis, d);
    MagnitudeSet(before, |before| - 1 - j, j, d, base);
    DigitsBelowSet(before, |before| - 1 - j, d, base);
  }

  /** Writing a digit below 2^base keeps every digit below 2^base. */
  lemma DigitsBelowSet(digits: seq<byte>, i: nat, d: byte, base: nat)
    requires i < |digits| && DigitsBelow(digits, base) && d < Pow2(base)
    ensures DigitsBelow(digits[i := d], base)
  {
  }

  lemma ZerosMagnitude(zeros: seq<byte>, base: nat)
    requires forall k :: 0 <= k < |zeros| ==> zeros[k] == 0
    ensures DigitsBelow(zeros, base) && Magnitude(zeros, base) == 0
  {
    MagnitudeLeadingZeros(zeros, [], base);
    assert zeros + [] == zeros;
  }

  /** utilToBase: try widths 1..7 against a bound `biggest` = 2^(base·i); at the
      first that holds, take width i (or the reserved width, failing when that is
      smaller) and write the digits. */
  method ToBase(value: nat, base: nat, reserved: int) returns (r: seq<byte>)
    requires 1 <= base <= 8
    ensures IsToBaseResult(value, base, reserved, r)
  {
    var biggest := Pow2(base);
    for i := 1 to 8
      invariant biggest == Pow2(base * i)
      invariant WidthFrom(value, base, i) == Width(value, base)
    {
      if value < biggest {
        var len: nat;
        if reserved < 0 {
          len := i;
        } else {
          if reserved < i {
            return [];
          }
          len := reserved;
        }
        r := WriteDigits(value, base, i, len);
        return;
      }
      Pow2Step(base, i);
      biggest := biggest * Pow2(base);
    }
    return [];
  }

  /** The width utilToBase picks: the value fits it and no smaller width. */
  lemma WidthIsLeast(value: nat, base: nat)
    ensures var w := Width(value, base);
            (w == 0 <==> !Fits(value, base, 7)) &&
            (w != 0 ==> 1 <= w <= 7 && Fits(value, base, w) &&
                        forall k :: 1 <= k < w ==> !Fits(value, base, k))
  {
    var w := Width(value, base);
    if w != 0 && !Fits(value, base, 7) {
      WeightMonotone(base, w, 7);
    }
  }

  /** utilToBase is a function of its arguments: its contract admits one result. */
  lemma ToBaseDeterministic(value: nat, base: nat, reserved: int, r1: seq<byte>, r2: seq<byte>)
    requires IsToBaseResult(value, base, reserved, r1) && IsToBaseResult(value, base, reserved, r2)
    ensures r1 == r2
  {
    var w := Width(value, base);
    if !(w == 0 || 0 <= reserved < w) {
      MagnitudeInjective(r1, r2, base);
    }
  }

  /** A digit string of 1..7 digits below 2^base is what
      utilToBase(utilFromBase(digits, base), base, |digits|) returns. */
  lemma FromBaseToBase(digits: seq<byte>, base: nat)
    requires 1 <= |digits| <= 7 && DigitsBelow(digits, base)
    ensures IsToBaseResult(Magnitude(digits, base), base, |digits|, digits)
  {
    var v := Magnitude(digits, base);
    MagnitudeBound(digits, base);
    assert Fits(v, base, |digits|);
    var w := Width(v, base);
    assert w != 0 && w <= |digits|;
    LeadingDigitsZero(digits, base, w);
  }
}
