/**
  Writing numbers for a region (obs/regional_format.py): a finite decimal is rounded half
  away from zero at a precision that always suffices, its integer part is grouped in
  threes, and the region's separators are put in. What is written can be read back.
 */
module RegionalFormat {
  import opened TextOrder
  import opened Wrappers

  /** A finite decimal is (-1)^negative * coefficient * 10^exponent; other numbers keep their plain text. */
  datatype Number = Finite(negative: bool, coefficient: nat, exponent: int) | NonFinite(text: string)

  datatype DecimalError = InvalidOperation

  datatype Separators = Separators(point: char, group: char)

  const NBSP := '\U{00A0}'
  const NARROW_NBSP := '\U{202F}'

  predicate IsDigit(c: char) {
    '0' <= c <= '9'
  }

  predicate AllDigits(s: string) {
    forall i :: 0 <= i < |s| ==> IsDigit(s[i])
  }

  predicate Distinguishable(s: Separators) {
    s.point != s.group && !IsDigit(s.point) && !IsDigit(s.group) && s.point != '-' && s.group != '-'
  }

  /** The separators of a region, those of Germany for a region that is not listed; they can never be confused. */
  function SeparatorsOf(region: string): (r: Separators)
    ensures Distinguishable(r)
  {
    match region
    case "de-DE" => Separators(',', '.')
    case "de-AT" => Separators(',', NBSP)
    case "de-CH" => Separators('.', '\'')
    case "en-US" => Separators('.', ',')
    case "en-GB" => Separators('.', ',')
    case "fr-FR" => Separators(',', NARROW_NBSP)
    case "fr-CH" => Separators(',', '\'')
    case "it-IT" => Separators(',', '.')
    case "it-CH" => Separators('.', '\'')
    case "es-ES" => Separators(',', '.')
    case _ => Separators(',', '.')
  }

  function MinGrouping(region: string): (r: nat)
    ensures 1 <= r <= 2
  {
    if region in ["it-IT", "it-CH", "es-ES"] then 2 else 1
  }

  // ---- decimal texts ---------------------------------------------------------------------------------

  /** The number of digits of n; zero has one. */
  function Length(n: nat): (r: nat)
    ensures r >= 1 && n < Pow10(r)
  {
    if n < 10 then 1 else 1 + Length(n / 10)
  }

  lemma {:induction false} LengthBound(n: nat, width: nat)
    requires n < Pow10(width) && width >= 1
    ensures Length(n) <= width
  {
    if n >= 10 {
      LengthBound(n / 10, width - 1);
    }
  }

  lemma {:induction false} PowAdd(a: nat, b: nat)
    ensures Pow10(a + b) == Pow10(a) * Pow10(b)
  {
    if a > 0 {
      PowAdd(a - 1, b);
    }
  }

  function Value(s: string): nat {
    if s == [] then 0
    else 10 * Value(s[..|s| - 1]) + if IsDigit(s[|s| - 1]) then (s[|s| - 1] - '0') as nat else 0
  }

  lemma {:induction false} ValueOfDigits(n: nat, width: nat)
    requires n < Pow10(width)
    ensures Value(Digits(n, width)) == n
  {
    if width > 0 {
      ValueOfDigits(n / 10, width - 1);
      assert Digits(n, width)[..width - 1] == Digits(n / 10, width - 1);
    }
  }

  lemma {:induction false} ValueOfConcatenation(a: string, b: string)
    ensures Value(a + b) == Value(a) * Pow10(|b|) + Value(b)
  {
    if b == [] {
      assert a + b == a;
    } else {
      var front := b[..|b| - 1];
      ValueOfConcatenation(a, front);
      assert (a + b)[..|a + b| - 1] == a + front;
      ShiftOneDigit(Value(a), Pow10(|front|), Value(front));
    }
  }

  lemma ShiftOneDigit(a: nat, p: nat, b: nat)
    ensures 10 * (a * p + b) == a * (10 * p) + 10 * b
  {
  }

  function DecimalText(n: nat): (s: string)
    ensures AllDigits(s) && s != []
  {
    Digits(n, Length(n))
  }

  function Quotient(q: nat, d: nat): nat
    requires d > 0
  {
    q / d
  }

  function Whole(q: nat, places: nat): nat {
    Quotient(q, Pow10(places))
  }

  function Rest(q: nat, places: nat): (r: nat)
    ensures r < Pow10(places)
  {
    q % Pow10(places)
  }

  lemma WholeAndRest(q: nat, places: nat)
    ensures q == Whole(q, places) * Pow10(places) + Rest(q, places)
  {
    QuotientAndRest(q, Pow10(places));
  }

  lemma QuotientAndRest(q: nat, d: nat)
    requires d > 0
    ensures q == q / d * d + q % d
  {
  }

  function IntegerText(q: nat, places: nat): (s: string)
    ensures AllDigits(s) && s != []
  {
    DecimalText(Whole(q, places))
  }

  function FractionText(q: nat, places: nat): (s: string)
    ensures AllDigits(s) && |s| == places
  {
    Digits(Rest(q, places), places)
  }

  /** Fixed-point notation of q units of the last of `places` places. */
  function FixedText(q: nat, places: nat): string {
    IntegerText(q, places) + if places > 0 then "." + FractionText(q, places) else ""
  }

  lemma FixedTextValue(q: nat, places: nat)
    ensures Value(IntegerText(q, places) + FractionText(q, places)) == q
  {
    var (whole, rest) := (Whole(q, places), Rest(q, places));
    ValueOfDigits(whole, Length(whole));
    ValueOfDigits(rest, places);
    ValueOfConcatenation(DecimalText(whole), Digits(rest, places));
    WholeAndRest(q, places);
  }

  // ---- rounding -------------------------------------------------------------------------------------------

  function NaturalDecimals(exponent: int): nat {
    if exponent < 0 then -exponent else 0
  }

  function Places(value: Number, decimals: Option<int>): nat
    requires value.Finite?
  {
    match decimals
    case None => NaturalDecimals(value.exponent)
    case Some(d) => if d > 0 then d else 0
  }

  /** The exponent of the most significant digit. */
  function Adjusted(value: Number): int
    requires value.Finite?
  {
    value.exponent + Length(value.coefficient) - 1
  }

  function Precision(ambient: nat, value: Number, places: nat): nat
    requires value.Finite?
  {
    var needed := Adjusted(value) + places + 2;
    if needed > ambient then needed else ambient
  }

  /** Division by d, half rounded up. */
  function Rounded(coefficient: nat, d: nat): nat
    requires d > 0
  {
    (coefficient + d / 2) / d
  }

  /** The coefficient at `shift` more places, half rounded away from zero. */
  function Rescaled(coefficient: nat, shift: int): nat {
    if shift >= 0 then coefficient * Pow10(shift)
    else Rounded(coefficient, Pow10(-shift))
  }

  function Quantized(value: Number, places: nat): nat
    requires value.Finite?
  {
    Rescaled(value.coefficient, value.exponent + places)
  }

  /** Decimal.quantize: refuses a result with more digits than the context's precision. */
  function Quantize(value: Number, places: nat, precision: nat): Result<nat, DecimalError>
    requires value.Finite?
  {
    if value.coefficient != 0 && Adjusted(value) + places + 1 > precision then Err(InvalidOperation)
    else
      var q := Quantized(value, places);
      if Length(q) > precision then Err(InvalidOperation) else Ok(q)
  }

  lemma LengthOfProduct(coefficient: nat, n: nat, shift: nat)
    requires coefficient < Pow10(n) && n >= 1
    ensures Length(coefficient * Pow10(shift)) <= n + shift
  {
    PowAdd(n, shift);
    SmallerProduct(coefficient, Pow10(n), Pow10(shift));
    LengthBound(coefficient * Pow10(shift), n + shift);
  }

  lemma SmallerProduct(a: nat, b: nat, d: nat)
    requires a < b && d > 0
    ensures a * d < b * d
  {
  }

  lemma LengthOfRounded(coefficient: nat, n: nat, k: nat)
    requires coefficient < Pow10(n) && k > 0
    ensures Length(Rounded(coefficient, Pow10(k))) <= if k <= n then n - k + 1 else 1
  {
    var q := Rounded(coefficient, Pow10(k));
    var width := if k <= n then n - k + 1 else 1;
    assert q < Pow10(width) by {
      RoundedBound(coefficient, n, k);
    }
    LengthBound(q, width);
  }

  /** The precision asked for holds every digit of the rounded number, so quantizing never fails. */
  lemma PrecisionSuffices(value: Number, places: nat, ambient: nat)
    requires value.Finite? && ambient >= 1
    ensures Quantize(value, places, Precision(ambient, value, places)) == Ok(Quantized(value, places))
  {
    var (n, shift) := (Length(value.coefficient), value.exponent + places);
    if shift >= 0 {
      LengthOfProduct(value.coefficient, n, shift);
    } else {
      LengthOfRounded(value.coefficient, n, -shift);
    }
  }

  lemma RoundedBound(coefficient: nat, n: nat, k: nat)
    requires coefficient < Pow10(n) && k > 0
    ensures var q := Rounded(coefficient, Pow10(k));
            if k <= n then q < Pow10(n - k + 1) else q == 0
  {
    PowAtLeast(k);
    if k <= n {
      PowAdd(n - k, k);
      RoundedBelow(coefficient, Pow10(k), Pow10(n - k));
    } else {
      PowAdd(n, k - n);
      PowAtLeast(k - n);
      TinyRoundsToZero(coefficient, Pow10(n), Pow10(k - n));
    }
  }

  lemma RoundedBelow(coefficient: nat, d: nat, top: nat)
    requires d > 0 && top > 0 && coefficient < top * d
    ensures Rounded(coefficient, d) < 10 * top
  {
    assert (top + 1) * d == top * d + d;
    QuotientBelow(coefficient + d / 2, d, top + 1);
  }

  lemma TinyRoundsToZero(coefficient: nat, a: nat, b: nat)
    requires coefficient < a && b >= 10
    ensures a * b > 0 && Rounded(coefficient, a * b) == 0
  {
    assert a * b >= a * 10;
    QuotientBelow(coefficient + a * b / 2, a * b, 1);
  }

  lemma PowAtLeast(k: nat)
    requires k > 0
    ensures Pow10(k) >= 10
  {
    assert Pow10(k) == 10 * Pow10(k - 1);
  }

  lemma QuotientBelow(x: nat, d: nat, bound: nat)
    requires d > 0 && x < bound * d
    ensures x / d < bound
  {
    QuotientAndRest(x, d);
    SmallerFactor(x / d, bound, d);
  }

  lemma SmallerFactor(a: nat, b: nat, d: nat)
    ensures a * d < b * d ==> a < b
  {
    if a >= b {
      assert a * d == b * d + (a - b) * d;
    }
  }

  lemma {:induction false} LengthAtLeast(n: nat, width: nat)
    requires width >= 1 && n >= Pow10(width - 1)
    ensures Length(n) >= width
  {
    if width > 1 {
      LengthAtLeast(n / 10, width - 1);
    }
  }

  lemma {:induction false} LengthIsTight(n: nat)
    requires n > 0
    ensures n >= Pow10(Length(n) - 1)
  {
    if n >= 10 {
      LengthIsTight(n / 10);
    }
  }

  lemma QuotientAtLeast(x: nat, d: nat, bound: nat)
    requires d > 0 && x >= bound * d
    ensures x / d >= bound
  {
    QuotientAndRest(x, d);
    SmallerFactor(bound, x / d + 1, d);
  }

  /** The quantized number has at least the digits that the number has down to the last place. */
  lemma QuantizedIsLong(value: Number, places: nat)
    requires value.Finite? && value.coefficient != 0 && Adjusted(value) + places >= 0
    ensures Length(Quantized(value, places)) >= Adjusted(value) + places + 1
  {
    var (c, shift) := (value.coefficient, value.exponent + places);
    var n := Length(c);
    LengthIsTight(c);
    if shift >= 0 {
      PowAdd(n - 1, shift);
      ProductAtLeast(c, Pow10(n - 1), Pow10(shift));
      LengthAtLeast(Quantized(value, places), n + shift);
    } else {
      var k := -shift;
      PowAdd(n - 1 - k, k);
      QuotientAtLeast(c + Pow10(k) / 2, Pow10(k), Pow10(n - 1 - k));
      LengthAtLeast(Quantized(value, places), n - k);
    }
  }

  lemma ProductAtLeast(a: nat, b: nat, d: nat)
    requires a >= b
    ensures a * d >= b * d
  {
  }

  /** So quantizing fails exactly if the quantized number has more digits than the precision. */
  lemma QuantizeFailsExactly(value: Number, places: nat, precision: nat)
    requires value.Finite? && precision >= 1
    ensures Quantize(value, places, precision)
            == if Length(Quantized(value, places)) <= precision then Ok(Quantized(value, places))
               else Err(InvalidOperation)
  {
    if value.coefficient != 0 && Adjusted(value) + places >= 0 {
      QuantizedIsLong(value, places);
    }
  }

  /** One digit less would not do: 9.5 to no places is 10. */
  lemma PrecisionIsTight()
    ensures var value := Finite(false, 95, -1);
            Quantized(value, 0) == 10 && Quantize(value, 0, Precision(1, value, 0) - 1) == Err(InvalidOperation)
  {
    assert Pow10(1) == 10 * Pow10(0);
  }

  /** Within half a unit of the last place, and away from zero when exactly half way. */
  lemma RoundsHalfAwayFromZero(value: Number, places: nat)
    requires value.Finite? && value.exponent + places < 0
    ensures var unit: int := Pow10(-(value.exponent + places));
            var error: int := Quantized(value, places) * unit - value.coefficient;
            -unit < 2 * error <= unit
  {
    var k := -(value.exponent + places);
    var unit := Pow10(k);
    assert unit == 10 * Pow10(k - 1);
    var x := value.coefficient + unit / 2;
    assert x == x / unit * unit + x % unit;
  }

  /** With its own decimals, and with any larger number of them, the number is written exactly. */
  lemma ExactWithEnoughDecimals(value: Number, decimals: Option<int>)
    requires value.Finite? && (decimals.Some? ==> decimals.value >= -value.exponent && decimals.value >= 0)
    ensures var places := Places(value, decimals);
            Quantized(value, places) * Pow10(NaturalDecimals(value.exponent))
            == value.coefficient * Pow10(if value.exponent > 0 then value.exponent else 0) * Pow10(places)
  {
    var places := Places(value, decimals);
    if value.exponent < 0 {
      PowAdd(value.exponent + places, -value.exponent);
      MultiplyThrice(value.coefficient, Pow10(value.exponent + places), Pow10(-value.exponent));
    } else {
      PowAdd(value.exponent, places);
      MultiplyThrice(value.coefficient, Pow10(value.exponent), Pow10(places));
    }
  }

  lemma MultiplyThrice(a: nat, b: nat, c: nat)
    ensures a * b * c == a * (b * c)
  {
  }

  // ---- grouping --------------------------------------------------------------------------------------------

  /** A digit in front of `after` grouped digits: a separator follows it when these are a multiple of three. */
  function Led(c: char, after: nat, rest: string, group: char): string {
    if after != 0 && after % 3 == 0 then [c] + [group] + rest else [c] + rest
  }

  function Grouped(s: string, group: char): string {
    if s == "" then "" else Led(s[0], |s| - 1, Grouped(s[1..], group), group)
  }

  function Reversed(s: string): string {
    if s == [] then [] else [s[|s| - 1]] + Reversed(s[..|s| - 1])
  }

  lemma ReversedAppend(s: string, c: char)
    ensures Reversed(s + [c]) == [c] + Reversed(s)
  {
    assert (s + [c])[..|s|] == s;
  }

  /** One more digit at the end of the list, after a separator when the digits so far are a multiple of three. */
  function WithDigit(digits: string, index: nat, c: char, group: char): string {
    if index != 0 && index % 3 == 0 then digits + [group] + [c] else digits + [c]
  }

  lemma ReversedWithDigit(digits: string, index: nat, c: char, group: char)
    ensures Reversed(WithDigit(digits, index, c, group)) == Led(c, index, Reversed(digits), group)
  {
    if index != 0 && index % 3 == 0 {
      ReversedAppend(digits, group);
      ReversedAppend(digits + [group], c);
      assert [c] + ([group] + Reversed(digits)) == [c] + [group] + Reversed(digits);
    } else {
      ReversedAppend(digits, c);
    }
  }

  /** The list of digits and separators after the last `count` digits, in the order they are met. */
  function Collected(integer: string, count: nat, group: char): string
    requires count <= |integer|
  {
    if count == 0 then ""
        else WithDigit(Collected(integer, count - 1, group), count - 1, integer[|integer| - count], group)
  }

  lemma {:induction false} CollectedIsGrouped(integer: string, count: nat, group: char)
    requires count <= |integer|
    ensures Reversed(Collected(integer, count, group)) == Grouped(integer[|integer| - count..], group)
  {
    if count == 0 {
      assert integer[|integer|..] == "";
    } else {
      var (s, c) := (integer[|integer| - count..], integer[|integer| - count]);
      CollectedIsGrouped(integer, count - 1, group);
      ReversedWithDigit(Collected(integer, count - 1, group), count - 1, c, group);
      assert s[0] == c && s[1..] == integer[|integer| - count + 1..];
    }
  }

  method GroupDigits(integer: string, group: char) returns (r: string)
    ensures r == Grouped(integer, group)
  {
    var digits := "";
    for index := 0 to |integer|
      invariant digits == Collected(integer, index, group)
    {
      if index != 0 && index % 3 == 0 {
        digits := digits + [group];
      }
      digits := digits + [integer[|integer| - 1 - index]];
    }
    CollectedIsGrouped(integer, |integer|, group);
    assert integer[0..] == integer;
    r := Reversed(digits);
  }

  /** Counted from the right, every fourth character and no other is a separator. */
  predicate EveryFourth(g: string, group: char) {
    forall i :: 0 <= i < |g| ==> (g[i] == group <==> (|g| - 1 - i) % 4 == 3)
  }

  function GroupedLength(n: nat): nat {
    if n == 0 then 0 else n + (n - 1) / 3
  }

  lemma GroupedLengthStep(after: nat)
    ensures var (k, r) := (after / 3, after % 3);
            && GroupedLength(after + 1) == 4 * k + r + 1
            && GroupedLength(after + 1) == GroupedLength(after) + (if after != 0 && r == 0 then 2 else 1)
            && (4 * k + r) % 4 == r
            && (r == 0 && after != 0 ==> (4 * k - 1) % 4 == 3)
  {
    var (k, r) := (after / 3, after % 3);
    assert after == 3 * k + r;
  }

  lemma LedKeepsFourth(c: char, after: nat, rest: string, group: char)
    requires IsDigit(c) && !IsDigit(group) && EveryFourth(rest, group) && |rest| == GroupedLength(after)
    ensures EveryFourth(Led(c, after, rest, group), group) && |Led(c, after, rest, group)| == GroupedLength(after + 1)
  {
    var g := Led(c, after, rest, group);
    var front := if after != 0 && after % 3 == 0 then 2 else 1;
    GroupedLengthStep(after);
    assert |g| == front + |rest|;
    forall i | front <= i < |g| ensures g[i] == group <==> (|g| - 1 - i) % 4 == 3 {
      assert g[i] == rest[i - front];
    }
    assert g[0] != group && (|g| - 1) % 4 != 3;
    assert front == 2 ==> g[1] == group && (|g| - 2) % 4 == 3;
  }

  /** All groups but the first have three digits, and the text never starts with a separator. */
  lemma {:induction false} GroupsOfThree(s: string, group: char)
    requires AllDigits(s) && !IsDigit(group)
    ensures |Grouped(s, group)| == GroupedLength(|s|) && EveryFourth(Grouped(s, group), group)
    ensures s != "" ==> IsDigit(Grouped(s, group)[0])
  {
    if s != "" {
      GroupsOfThree(s[1..], group);
      LedKeepsFourth(s[0], |s| - 1, Grouped(s[1..], group), group);
    }
  }

  function Without(s: string, c: char): string {
    if s == [] then [] else if s[0] == c then Without(s[1..], c) else [s[0]] + Without(s[1..], c)
  }

  lemma WithoutCons(x: char, s: string, c: char)
    ensures Without([x] + s, c) == (if x == c then [] else [x]) + Without(s, c)
  {
    assert ([x] + s)[1..] == s;
  }

  lemma {:induction false} WithoutAppend(a: string, b: string, c: char)
    ensures Without(a + b, c) == Without(a, c) + Without(b, c)
  {
    if a == [] {
      assert a + b == b;
    } else {
      var (x, rest) := (a[0], a[1..]);
      var first := if x == c then [] else [x];
      WithoutAppend(rest, b, c);
      assert Without(a, c) == first + Without(rest, c);
      assert (a + b)[1..] == rest + b;
      assert Without(a + b, c) == first + Without(rest + b, c);
      assert first + (Without(rest, c) + Without(b, c)) == first + Without(rest, c) + Without(b, c);
    }
  }

  lemma {:induction false} WithoutAbsent(s: string, c: char)
    requires c !in s
    ensures Without(s, c) == s
  {
    if s != [] {
      WithoutAbsent(s[1..], c);
    }
  }

  lemma {:induction false} UngroupingRestores(s: string, group: char)
    requires group !in s
    ensures Without(Grouped(s, group), group) == s
  {
    if s != "" {
      var rest := Grouped(s[1..], group);
      UngroupingRestores(s[1..], group);
      WithoutCons(s[0], rest, group);
      WithoutCons(group, rest, group);
      WithoutCons(s[0], [group] + rest, group);
      assert [s[0]] + [group] + rest == [s[0]] + ([group] + rest);
    }
  }

  // ---- formatting -------------------------------------------------------------------------------------------

  /** What stands before the first `c`, and what stands after it. */
  function Partition(s: string, c: char): (string, string) {
    if s == [] then ("", "")
    else if s[0] == c then ("", s[1..])
    else var (a, b) := Partition(s[1..], c); ([s[0]] + a, b)
  }

  lemma {:induction false} PartitionAt(a: string, b: string, c: char)
    requires c !in a
    ensures Partition(a + [c] + b, c) == (a, b)
    ensures Partition(a, c) == (a, "")
  {
    var s := a + [c] + b;
    if a == [] {
      assert s == [c] + b && s[1..] == b;
    } else {
      PartitionAt(a[1..], b, c);
      assert s[1..] == a[1..] + [c] + b && s[0] == a[0];
      assert a == [a[0]] + a[1..];
    }
  }

  function WrittenInteger(integer: string, group: char, minGrouping: nat, grouping: bool): string {
    if grouping && |integer| >= 3 + minGrouping then Grouped(integer, group) else integer
  }

  function PointAndFraction(fraction: string, point: char): string {
    if fraction != "" then [point] + fraction else ""
  }

  /** q units of the last place as written with these separators. */
  function Written(
    negative: bool, q: nat, places: nat, separators: Separators, minGrouping: nat, grouping: bool): string
  {
    (if negative then "-" else "")
    + (WrittenInteger(IntegerText(q, places), separators.group, minGrouping, grouping)
       + PointAndFraction(FractionText(q, places), separators.point))
  }

  lemma FixedTextParts(negative: bool, q: nat, places: nat)
    ensures var text := (if negative then "-" else "") + FixedText(q, places);
            && text != "" && (text[0] == '-' <==> negative)
            && (if negative then text[1..] else text) == FixedText(q, places)
            && Partition(FixedText(q, places), '.') == (IntegerText(q, places), FractionText(q, places))
  {
    var (integer, fraction) := (IntegerText(q, places), FractionText(q, places));
    var text := (if negative then "-" else "") + FixedText(q, places);
    assert IsDigit(integer[0]) && FixedText(q, places)[0] == integer[0];
    assert negative ==> text[1..] == FixedText(q, places);
    NotADigit(integer, '.');
    PartitionAt(integer, fraction, '.');
    assert FixedText(q, places) == if places > 0 then integer + ['.'] + fraction else integer;
  }

  /** Formatting never fails: the quantized number is written with its own sign, minus zero included. */
  method FormatNumber(value: Number, region: string, decimals: Option<int>, grouping: bool, ambient: nat)
    returns (r: Result<string, DecimalError>)
    requires ambient >= 1
    ensures value.NonFinite? ==> r == Ok(value.text)
    ensures value.Finite? ==>
              var places := Places(value, decimals);
              r == Ok(Written(value.negative, Quantized(value, places), places, SeparatorsOf(region),
                  MinGrouping(region), grouping))
  {
    if value.NonFinite? {
      return Ok(value.text);
    }
    var separators := SeparatorsOf(region);
    var places := Places(value, decimals);
    PrecisionSuffices(value, places, ambient);
    match Quantize(value, places, Precision(ambient, value, places)) {
      case Err(error) => r := Err(error);
      case Ok(quantized) =>
        FixedTextParts(value.negative, quantized, places);
        var text := (if value.negative then "-" else "") + FixedText(quantized, places);
        var negative := text[0] == '-';
        if negative {
          text := text[1..];
        }
        var (integer, fraction) := Partition(text, '.');
        var minGrouping := MinGrouping(region);
        if grouping && |integer| >= 3 + minGrouping {
          integer := GroupDigits(integer, separators.group);
        }
        var result := integer + PointAndFraction(fraction, separators.point);
        r := Ok(if negative then "-" + result else result);
        assert value.negative || "" + result == result;
    }
  }

  /** Reading a written number: strip the sign, drop group separators, split at the decimal separator. */
  function Read(text: string, separators: Separators): (bool, nat, nat) {
    var negative := text != "" && text[0] == '-';
    var (integer, fraction) :=
        Partition(Without(if negative then text[1..] else text, separators.group), separators.point);
    (negative, Value(integer + fraction), |fraction|)
  }

  lemma NotADigit(s: string, c: char)
    requires AllDigits(s) && !IsDigit(c)
    ensures c !in s
  {
  }

  lemma WrittenIntegerRestores(integer: string, group: char, minGrouping: nat, grouping: bool)
    requires AllDigits(integer) && integer != [] && !IsDigit(group)
    ensures var written := WrittenInteger(integer, group, minGrouping, grouping);
            written != "" && IsDigit(written[0]) && Without(written, group) == integer
  {
    NotADigit(integer, group);
    UngroupingRestores(integer, group);
    WithoutAbsent(integer, group);
    GroupsOfThree(integer, group);
  }

  lemma UngroupedText(integer: string, fraction: string, separators: Separators, minGrouping: nat, grouping: bool)
    requires Distinguishable(separators) && AllDigits(integer) && integer != [] && AllDigits(fraction)
    ensures var body := WrittenInteger(integer, separators.group, minGrouping, grouping)
        + PointAndFraction(fraction, separators.point);
            && body[0] != '-'
            && Without(body, separators.group) == integer + PointAndFraction(fraction, separators.point)
  {
    var (written, tail) := (WrittenInteger(integer, separators.group, minGrouping, grouping),
        PointAndFraction(fraction, separators.point));
    WrittenIntegerRestores(integer, separators.group, minGrouping, grouping);
    NotADigit(fraction, separators.group);
    WithoutAbsent(tail, separators.group);
    WithoutAppend(written, tail, separators.group);
    assert (written + tail)[0] == written[0];
  }

  lemma SplitText(integer: string, fraction: string, point: char)
    requires AllDigits(integer) && !IsDigit(point)
    ensures Partition(integer + PointAndFraction(fraction, point), point) == (integer, fraction)
  {
    NotADigit(integer, point);
    if fraction == "" {
      SplitNothing(integer, point);
    } else {
      SplitPoint(integer, fraction, point);
    }
  }

  lemma SplitNothing(integer: string, point: char)
    requires point !in integer
    ensures Partition(integer + PointAndFraction("", point), point) == (integer, "")
  {
    PartitionAt(integer, "", point);
    assert integer + PointAndFraction("", point) == integer;
  }

  lemma SplitPoint(integer: string, fraction: string, point: char)
    requires point !in integer && fraction != ""
    ensures Partition(integer + PointAndFraction(fraction, point), point) == (integer, fraction)
  {
    PartitionAt(integer, fraction, point);
    assert integer + PointAndFraction(fraction, point) == integer + [point] + fraction;
  }

  /**
    Every number written for any region, listed or not, reads back as exactly the
    quantized number: its sign, its digits and its number of places.
   */
  lemma WrittenReadsBack(negative: bool, q: nat, places: nat, separators: Separators, minGrouping: nat, grouping: bool)
    requires Distinguishable(separators)
    ensures Read(Written(negative, q, places, separators, minGrouping, grouping), separators) == (negative, q, places)
  {
    var (integer, fraction) := (IntegerText(q, places), FractionText(q, places));
    var body := WrittenInteger(integer, separators.group, minGrouping, grouping)
        + PointAndFraction(fraction, separators.point);
    var text := Written(negative, q, places, separators, minGrouping, grouping);
    UngroupedText(integer, fraction, separators, minGrouping, grouping);
    SplitText(integer, fraction, separators.point);
    assert (if negative then text[1..] else text) == body;
    FixedTextValue(q, places);
  }

  /** A separator is put in exactly when grouping is asked for and the digits are enough. */
  lemma GroupedExactlyWhenLong(q: nat, places: nat, separators: Separators, minGrouping: nat, grouping: bool)
    requires Distinguishable(separators) && minGrouping >= 1
    ensures separators.group in WrittenInteger(IntegerText(q, places), separators.group, minGrouping, grouping)
            <==> grouping && |IntegerText(q, places)| >= 3 + minGrouping
  {
    NotADigit(IntegerText(q, places), separators.group);
    LongIsSeparated(IntegerText(q, places), separators.group);
  }

  lemma LongIsSeparated(integer: string, group: char)
    requires AllDigits(integer) && !IsDigit(group)
    ensures |integer| >= 4 ==> group in Grouped(integer, group)
  {
    GroupsOfThree(integer, group);
    if |integer| >= 4 {
      var g := Grouped(integer, group);
      assert |g| >= 5 && (|g| - 1 - (|g| - 4)) % 4 == 3;
      assert g[|g| - 4] == group;
    }
  }

  // ---- what is written, digit for digit ----------------------------------------------------------------------

  /**
    The number of fraction digits: the one asked for, none if that is negative; without
    one, the fewest that hold the number.
   */
  lemma FractionDigitsExactly(value: Number, decimals: Option<int>, region: string, grouping: bool)
    requires value.Finite?
    ensures var (places, separators) := (Places(value, decimals), SeparatorsOf(region));
            var text := Written(value.negative, Quantized(value, places), places, separators, MinGrouping(region),
                grouping);
            var digits := Read(text, separators).2;
            match decimals
            case Some(d) => digits == d || (digits == 0 && d < 0)
            case None => value.exponent + digits >= 0 && (digits > 0 ==> value.exponent + digits == 0)
  {
    var places := Places(value, decimals);
    WrittenReadsBack(value.negative, Quantized(value, places), places, SeparatorsOf(region), MinGrouping(region),
        grouping);
  }

  lemma FirstDigit(c: char, s: string, g: char)
    ensures Grouped([c] + s, g) == Led(c, |s|, Grouped(s, g), g)
  {
    assert ([c] + s)[1..] == s;
  }

  lemma ThreeDigits(a: char, b: char, c: char, s: string, g: char)
    requires |s| % 3 == 0
    ensures Grouped([a, b, c] + s, g) == [a, b, c] + (if s == "" then "" else [g] + Grouped(s, g))
  {
    FirstDigit(c, s, g);
    FirstDigit(b, [c] + s, g);
    FirstDigit(a, [b, c] + s, g);
    assert [b] + ([c] + s) == [b, c] + s && [a] + ([b, c] + s) == [a, b, c] + s;
  }

  lemma GroupsOfSamples(g: char)
    ensures Grouped("1234567", g) == ['1', g, '2', '3', '4', g, '5', '6', '7']
    ensures Grouped("1234", g) == ['1', g, '2', '3', '4']
  {
    var (last, middle) := (['5', '6', '7'], ['2', '3', '4']);
    ThreeDigits('5', '6', '7', "", g);
    ThreeDigits('2', '3', '4', "", g);
    ThreeDigits('2', '3', '4', last, g);
    assert last + "" == last && middle + "" == middle;
    FirstDigit('1', middle, g);
    FirstDigit('1', middle + last, g);
    assert "1234567" == ['1'] + (middle + last) && "1234" == ['1'] + middle;
  }

  /** Integer and fraction digits as a region writes them. */
  function InRegion(region: string, integer: string, fraction: string): string {
    var separators := SeparatorsOf(region);
    WrittenInteger(integer, separators.group, MinGrouping(region), true) + PointAndFraction(fraction, separators.point)
  }

  /** 1234567.50 as each region writes it, and any other text like Germany; three of them leave four digits alone. */
  lemma RegionsExactly(region: string)
    ensures InRegion(region, "1234567", "50")
            == match region
               case "de-AT" => "1\U{A0}234\U{A0}567,50"
               case "de-CH" => "1'234'567.50"
               case "en-US" => "1,234,567.50"
               case "en-GB" => "1,234,567.50"
               case "fr-FR" => "1\U{202F}234\U{202F}567,50"
               case "fr-CH" => "1'234'567,50"
               case "it-CH" => "1'234'567.50"
               case _ => "1.234.567,50"
    ensures InRegion(region, "1234", "")
            == if region in {"it-IT", "it-CH", "es-ES"} then "1234"
               else ['1', SeparatorsOf(region).group, '2', '3', '4']
  {
    GroupsOfSamples(SeparatorsOf(region).group);
  }
}
