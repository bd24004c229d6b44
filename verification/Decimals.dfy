/** Exact decimals as a claim writes them, and how many places a number shows once trailing zeros are dropped. */
module Decimals {
  import opened Collections

  function Pow10(k: nat): (r: int)
    ensures r >= 1
  {
    if k == 0 then 1 else 10 * Pow10(k - 1)
  }

  /** `units` tenths, hundredths, ... of one, for 1, 2, ... places. */
  datatype Decimal = Decimal(units: nat, places: nat) {
    function Value(): real {
      units as real / Pow10(places) as real
    }

    function Percent(): Decimal {
      Decimal(units, places + 2)
    }
  }

  /** The same number without trailing zeros after the point. */
  function Stripped(d: Decimal): Decimal
    decreases d.places
  {
    if d.places > 0 && d.units % 10 == 0 then Stripped(Decimal(d.units / 10, d.places - 1)) else d
  }

  lemma {:induction false} Pow10Sum(a: nat, b: nat)
    ensures Pow10(a + b) == Pow10(a) * Pow10(b)
  {
    if a > 0 {
      Pow10Sum(a - 1, b);
      MulAssociates(10, Pow10(a - 1), Pow10(b));
    }
  }

  lemma MulAssociates(x: int, y: int, z: int)
    ensures (x * y) * z == x * (y * z)
  {
  }

  lemma DropZero(d: Decimal)
    requires d.places > 0 && d.units % 10 == 0
    ensures d.Value() == Decimal(d.units / 10, d.places - 1).Value()
  {
    var u, q := d.units / 10, Pow10(d.places - 1);
    assert d.units == 10 * u;
    ScaleBoth(u as real, q as real);
  }

  lemma ScaleBoth(u: real, q: real)
    requires q > 0.0
    ensures (10.0 * u) / (10.0 * q) == u / q
  {
    var r := u / q;
    assert r * q == u;
    assert r * (10.0 * q) == 10.0 * u;
  }

  /** Dropping trailing zeros keeps the number and never adds places. */
  lemma {:induction false} StrippedIsEqual(d: Decimal)
    ensures Stripped(d).Value() == d.Value() && Stripped(d).places <= d.places
    decreases d.places
  {
    if d.places > 0 && d.units % 10 == 0 {
      DropZero(d);
      StrippedIsEqual(Decimal(d.units / 10, d.places - 1));
    }
  }

  lemma CrossMultiply(a: real, p: real, b: real, q: real)
    requires p > 0.0 && q > 0.0 && a / p == b / q
    ensures a * q == b * p
  {
    var r := a / p;
    assert a == r * p && b == r * q;
    assert a * q == (r * p) * q && b * p == (r * q) * p;
  }

  lemma EqualNumbers(a: Decimal, b: Decimal)
    requires a.Value() == b.Value()
    ensures a.units * Pow10(b.places) == b.units * Pow10(a.places)
  {
    hide Pow10;
    CrossMultiply(a.units as real, Pow10(a.places) as real, b.units as real, Pow10(b.places) as real);
    assert (a.units * Pow10(b.places)) as real == a.units as real * Pow10(b.places) as real;
    assert (b.units * Pow10(a.places)) as real == b.units as real * Pow10(a.places) as real;
  }

  lemma CancelFactor(a: int, q: int, b: int, t: int)
    requires q >= 1 && a * q == b * (q * t)
    ensures a == b * t
  {
    assert (a - b * t) * q == 0;
  }

  lemma EndsInZero(a: int, b: int, places: nat, more: nat)
    requires more > 0 && a * Pow10(places) == b * Pow10(places + more)
    ensures a % 10 == 0
  {
    Pow10Sum(places, more);
    CancelFactor(a, Pow10(places), b, Pow10(more));
    MulAssociates(b, 10, Pow10(more - 1));
    assert a == b * 10 * Pow10(more - 1) == 10 * (b * Pow10(more - 1)) by {
      MulAssociates(10, b, Pow10(more - 1));
    }
  }

  /** No way of writing the number has fewer places. */
  lemma StrippedIsShortest(d: Decimal, other: Decimal)
    requires d.Value() == other.Value()
    ensures Stripped(d).places <= other.places
  {
    hide Pow10, Decimal.Value;
    StrippedIsEqual(d);
    StrippedEndsInDigit(d);
    var s := Stripped(d);
    EqualNumbers(s, other);
    if s.places > other.places {
      EndsInZero(s.units, other.units, other.places, s.places - other.places);
    }
  }

  lemma {:induction false} StrippedEndsInDigit(d: Decimal)
    ensures Stripped(d).places > 0 ==> Stripped(d).units % 10 != 0
    decreases d.places
  {
    if d.places > 0 && d.units % 10 == 0 {
      StrippedEndsInDigit(Decimal(d.units / 10, d.places - 1));
    }
  }

  /** The places a number is printed with; none when its shortest form needs an exponent. */
  function Places(d: Decimal): Option<nat> {
    var v := d.Value();
    if v >= 10_000_000_000_000_000.0 || (d.units > 0 && v < 0.0001) then None else Some(Stripped(d).places)
  }

  /**
   A number is printed without an exponent exactly if it is zero or at least 0.0001, and below 10^16; then no way of
   writing it has fewer places than it is printed with, and some way has as many.
   */
  lemma PlacesAre(d: Decimal, other: Decimal)
    requires d.Value() == other.Value()
    ensures Places(d).Some? <==> (d.Value() == 0.0 || d.Value() >= 0.0001) && d.Value() < 10_000_000_000_000_000.0
    ensures Places(d).Some? ==> Places(d).value <= other.places
    ensures Places(d).Some? ==> Stripped(d).Value() == d.Value() && Stripped(d).places == Places(d).value
  {
    StrippedIsEqual(d);
    StrippedIsShortest(d, other);
    ZeroUnits(d);
    hide Decimal.Value, Stripped;
  }

  lemma ZeroUnits(d: Decimal)
    ensures d.Value() == 0.0 <==> d.units == 0
    ensures d.Value() >= 0.0
  {
    hide Pow10;
    var v, q := d.Value(), Pow10(d.places) as real;
    assert v * q == d.units as real;
  }

  /** Half a unit in the last of `places` places. */
  function HalfUnit(places: nat): real {
    0.5 / Pow10(places) as real
  }

  lemma {:induction false} FewerPlacesAreWider(p: nat, q: nat)
    requires p <= q
    ensures HalfUnit(q) <= HalfUnit(p) <= 0.5
  {
    Pow10Grows(p, q);
    Pow10Grows(0, p);
    QuotientShrinks(Pow10(p) as real, Pow10(q) as real);
    QuotientShrinks(1.0, Pow10(p) as real);
  }

  lemma {:induction false} Pow10Grows(p: nat, q: nat)
    requires p <= q
    ensures Pow10(p) <= Pow10(q)
  {
    if p < q {
      Pow10Grows(p, q - 1);
    }
  }

  lemma QuotientShrinks(a: real, b: real)
    requires 0.0 < a <= b
    ensures 0.5 / b <= 0.5 / a
  {
    if a < b {
      QuotientShrinksStrictly(a, b);
    }
  }

  lemma HalfUnitIsStrict(p: nat, q: nat)
    requires p < q
    ensures HalfUnit(q) < HalfUnit(p)
  {
    var a, b := Pow10(p) as real, Pow10(q) as real;
    Pow10Grows(p, q - 1);
    assert Pow10(q) == 10 * Pow10(q - 1);
    QuotientShrinksStrictly(a, b);
  }

  lemma Positive(x: real, y: real)
    requires x > 0.0 && y > 0.0
    ensures x * y > 0.0
  {
  }

  lemma SignOfFactor(x: real, y: real)
    requires x * y > 0.0 && y > 0.0
    ensures x > 0.0
  {
  }

  lemma QuotientShrinksStrictly(a: real, b: real)
    requires 0.0 < a < b
    ensures 0.5 / b < 0.5 / a
  {
    var x, y := 0.5 / a, 0.5 / b;
    assert x * a == 0.5 && y * b == 0.5;
    Positive(x, b - a);
    assert (x - y) * b == x * (b - a);
    SignOfFactor(x - y, b);
  }

  lemma TenTimes(p: nat)
    ensures HalfUnit(p) == 10.0 * HalfUnit(p + 1)
  {
    var a := Pow10(p) as real;
    assert Pow10(p + 1) == 10 * Pow10(p);
    ScaleBoth(0.05, a);
  }
}
