/**
 The self-measuring cost of a callable skeleton: three rounds that write the serialized length
 into the payload whose length it is (src/exact_source_projection.rs:73-107). The payload is
 `base` bytes plus the decimal digits of the two numbers being rewritten.
 */
module ProjectedBytes {
  import opened Decimals

  /** Decimal digits of a number as JSON prints it. */
  function Digits(n: nat): (d: nat)
    ensures d >= 1
  {
    if n < 10 then 1 else 1 + Digits(n / 10)
  }

  lemma {:induction false} DigitsCountNumeral(n: nat)
    ensures |Decimal(n)| == Digits(n)
  {
    if n >= 10 { DigitsCountNumeral(n / 10); }
  }

  function SaturatingSub(a: nat, b: nat): nat
  {
    if a <= b then 0 else a - b
  }

  function SerializedLength(base: nat, projected: nat, omitted: nat): nat
  {
    base + Digits(projected) + Digits(omitted)
  }

  /** The length after a round that recorded `projected`. */
  function Measure(base: nat, source: nat, projected: nat): nat
  {
    SerializedLength(base, projected, SaturatingSub(source, projected))
  }

  function First(base: nat): nat
  {
    SerializedLength(base, 0, 0)
  }

  function Second(base: nat, source: nat): nat
  {
    Measure(base, source, First(base))
  }

  function Third(base: nat, source: nat): nat
  {
    Measure(base, source, Second(base, source))
  }

  /** The `cost` object of the payload. */
  class Cost {
    const base: nat
    const sourceBytes: nat
    var projectedBytes: nat
    var omittedBytes: nat

    constructor (base: nat, sourceBytes: nat)
      ensures this.base == base && this.sourceBytes == sourceBytes && projectedBytes == 0 && omittedBytes == 0
    {
      this.base, this.sourceBytes := base, sourceBytes;
      projectedBytes, omittedBytes := 0, 0;
    }

    /** The serialized payload: the fixed text and both numerals. */
    function Length(): nat
      reads this
    {
      base + |Decimal(projectedBytes)| + |Decimal(omittedBytes)|
    }

    /** Three rounds: the record ends within one byte of the truth, and exact except in two cases. */
    method Stabilize()
      requires projectedBytes == 0 && omittedBytes == 0
      requires base + 40 < U64 && sourceBytes < U64
      modifies this
      ensures projectedBytes == Third(base, sourceBytes)
      ensures omittedBytes == SaturatingSub(sourceBytes, projectedBytes)
      ensures Length() - 1 <= projectedBytes <= Length() + 1
      ensures projectedBytes == Length() <==> !LosesADigit(base, sourceBytes) && !GainsADigit(base, sourceBytes)
    {
      for round := 0 to 3
        invariant projectedBytes == if round == 0 then 0
                                    else if round == 1 then First(base)
                                    else if round == 2 then Second(base, sourceBytes)
                                    else Third(base, sourceBytes)
        invariant omittedBytes == if round == 0 then 0 else SaturatingSub(sourceBytes, projectedBytes)
      {
        LengthByDigits();
        projectedBytes := Length();
        omittedBytes := SaturatingSub(sourceBytes, projectedBytes);
      }
      LengthByDigits();
      ThreeRounds(base, sourceBytes);
    }

    lemma LengthByDigits()
      ensures Length() == SerializedLength(base, projectedBytes, omittedBytes)
    {
      DigitsCountNumeral(projectedBytes);
      DigitsCountNumeral(omittedBytes);
    }
  }

  function Pow10(k: nat): (r: nat)
    ensures r >= 1
  {
    if k == 0 then 1 else 10 * Pow10(k - 1)
  }

  ghost predicate PowerOfTen(n: int)
  {
    exists k: nat :: k >= 1 && n == Pow10(k)
  }

  /** The second round widened the length by a digit and left `10^k` bytes omitted: the third drops one. */
  ghost predicate LosesADigit(base: nat, source: nat)
  {
    var p1, p2 := First(base), Second(base, source);
    && Digits(p2) == Digits(p1) + 1
    && Digits(SaturatingSub(source, p1)) == Digits(SaturatingSub(source, p2))
    && PowerOfTen(source - p2)
  }

  /** The second round narrowed the omitted count to `10^k - 1`: the third brings the digit back. */
  ghost predicate GainsADigit(base: nat, source: nat)
  {
    var p1, p2 := First(base), Second(base, source);
    && Digits(p2) == Digits(p1)
    && Digits(SaturatingSub(source, p1)) == Digits(SaturatingSub(source, p2)) + 1
    && PowerOfTen(source - p2 + 1)
  }

  // ----- digits

  lemma {:induction false} DigitsBelow(n: nat, k: nat)
    requires k >= 1
    ensures Digits(n) <= k <==> n < Pow10(k)
  {
    if k == 1 {
      assert Pow10(1) == 10;
      if n >= 10 { assert Digits(n) >= 2; }
    } else if n >= 10 {
      DigitsBelow(n / 10, k - 1);
    } else {
      assert Pow10(k - 1) >= 1;
    }
  }

  lemma DigitsMonotone(a: nat, b: nat)
    requires a <= b
    ensures Digits(a) <= Digits(b)
  {
    DigitsBelow(b, Digits(b));
    DigitsBelow(a, Digits(b));
  }

  lemma Pow10AtLeastTen(k: nat)
    requires k >= 1
    ensures Pow10(k) >= 10 && Pow10(k + 1) == 10 * Pow10(k)
  {
    assert Pow10(k - 1) >= 1;
  }

  lemma DigitsOfWord(n: nat)
    requires n < U64
    ensures Digits(n) <= 20
  {
    assert Pow10(5) == 100000;
    assert Pow10(10) == 100000 * 100000;
    assert Pow10(15) == 100000 * 100000 * 100000;
    assert Pow10(20) == 100000 * 100000 * 100000 * 100000;
    DigitsBelow(n, 20);
  }

  /** A short step up crosses at most one power of ten. */
  lemma DigitsShortStep(a: nat, b: nat)
    requires a <= b <= a + 89
    ensures Digits(a) <= Digits(b) <= Digits(a) + 1
  {
    DigitsMonotone(a, b);
    var k := Digits(a);
    DigitsBelow(a, k);
    Pow10AtLeastTen(k);
    DigitsBelow(b, k + 1);
  }

  /** The digit count rises exactly on reaching a power of ten. */
  lemma DigitsUnitStep(n: nat)
    ensures Digits(n + 1) == if PowerOfTen(n + 1) then Digits(n) + 1 else Digits(n)
  {
    DigitsShortStep(n, n + 1);
    var k := Digits(n);
    DigitsBelow(n, k);
    DigitsBelow(n + 1, k);
    if PowerOfTen(n + 1) {
      var j: nat :| j >= 1 && n + 1 == Pow10(j);
      DigitsBelow(n, j);
      DigitsBelow(n + 1, j);
    } else {
      assert n + 1 != Pow10(k);
    }
  }

  // ----- the rounds

  lemma RoundsMoveLittle(base: nat, source: nat)
    requires base + 40 < U64 && source < U64
    ensures First(base) == base + 2
    ensures First(base) <= Second(base, source) <= First(base) + 38
    ensures var p1, p2 := First(base), Second(base, source);
            var o1, o2 := SaturatingSub(source, p1), SaturatingSub(source, p2);
            && Digits(p1) <= Digits(p2) <= Digits(p1) + 1
            && Digits(o2) <= Digits(o1) <= Digits(o2) + 1
            && Third(base, source) == p2 + (Digits(p2) - Digits(p1)) - (Digits(o1) - Digits(o2))
  {
    var p1, p2 := First(base), Second(base, source);
    var o1, o2 := SaturatingSub(source, p1), SaturatingSub(source, p2);
    DigitsOfWord(p1);
    DigitsOfWord(o1);
    DigitsShortStep(p1, p2);
    DigitsShortStep(o2, o1);
  }

  /** A third round one longer: the projected width no longer changes, the omitted one may drop. */
  lemma ThirdIsLonger(base: nat, source: nat)
    requires base + 40 < U64 && source < U64
    requires Third(base, source) == Second(base, source) + 1
    ensures Measure(base, source, Third(base, source)) ==
            if PowerOfTen(source - Second(base, source)) then Third(base, source) - 1 else Third(base, source)
  {
    RoundsMoveLittle(base, source);
    var p1, p2 := First(base), Second(base, source);
    var k := Digits(p1);
    DigitsBelow(p1, k);
    DigitsBelow(p2, k);
    Pow10AtLeastTen(k);
    DigitsBelow(p2 + 1, k + 1);
    DigitsMonotone(p2, p2 + 1);
    if source > p2 {
      DigitsUnitStep(source - p2 - 1);
    } else {
      SmallNotPower(source - p2);
    }
  }

  lemma SmallNotPower(n: int)
    requires n < 10
    ensures !PowerOfTen(n)
  {
    forall k: nat | k >= 1 ensures Pow10(k) != n {
      Pow10AtLeastTen(k);
    }
  }

  /** A third round one shorter: the omitted width may come back. */
  lemma ThirdIsShorter(base: nat, source: nat)
    requires base + 40 < U64 && source < U64
    requires Third(base, source) == Second(base, source) - 1
    ensures Measure(base, source, Third(base, source)) ==
            if PowerOfTen(source - Second(base, source) + 1) then Third(base, source) + 1 else Third(base, source)
  {
    RoundsMoveLittle(base, source);
    var p1, p2 := First(base), Second(base, source);
    assert Digits(SaturatingSub(source, p1)) >= 2;
    DigitsMonotone(p1, p2 - 1);
    DigitsMonotone(p2 - 1, p2);
    if source >= p2 {
      DigitsUnitStep(source - p2);
    } else {
      SmallNotPower(source - p2 + 1);
    }
  }

  /**
   After three rounds the record is at most one byte off, and it equals the true length if and
   only if neither single-digit case applies.
   */
  lemma ThreeRounds(base: nat, source: nat)
    requires base + 40 < U64 && source < U64
    ensures var recorded := Third(base, source);
            var actual := Measure(base, source, recorded);
            && actual - 1 <= recorded <= actual + 1
            && (recorded == actual <==> !LosesADigit(base, source) && !GainsADigit(base, source))
  {
    RoundsMoveLittle(base, source);
    var p2, p3 := Second(base, source), Third(base, source);
    if p3 == p2 + 1 {
      ThirdIsLonger(base, source);
    } else if p3 == p2 - 1 {
      ThirdIsShorter(base, source);
    }
  }

  /** A source no longer than the first measured size is recorded exactly. */
  lemma ShortSourceExact(base: nat, source: nat)
    requires base + 40 < U64 && source <= First(base)
    ensures Measure(base, source, Third(base, source)) == Third(base, source)
  {
    RoundsMoveLittle(base, source);
    ThreeRounds(base, source);
    SmallNotPower(source - Second(base, source));
    SmallNotPower(source - Second(base, source) + 1);
  }

  /** Three rounds do not always settle: 605 source bytes over a 500-byte base end one byte short. */
  lemma NotAlwaysStable()
    ensures Third(500, 605) == 505 && Measure(500, 605, 505) == 506 && GainsADigit(500, 605)
  {
    assert First(500) == 502;
    assert Digits(103) == 3 && Digits(502) == 3;
    assert Second(500, 605) == 506;
    ThreeRounds(500, 605);
  }

  /** And 1012 source bytes over a 997-byte base end one byte long. */
  lemma NotAlwaysEnough()
    ensures Third(997, 1012) == 1003 && Measure(997, 1012, 1003) == 1002 && LosesADigit(997, 1012)
  {
    assert First(997) == 999;
    assert Digits(13) == 2 && Digits(999) == 3;
    assert Second(997, 1012) == 1002;
    assert Digits(10) == 2 && Digits(1002) == 4;
    assert Digits(9) == 1 && Digits(1003) == 4;
    ThreeRounds(997, 1012);
  }
}
