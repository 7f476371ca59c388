/** scripts/memory/treemap.py: format_size. */
module FormatSize {
  import opened Basics
  import opened BlockMath

  const UNITS := "BkMGTPE"

  /** A formatted size; `Whole` is printed without a decimal. */
  datatype Printed = Whole(n: nat, unit: nat) | Decimal(n: nat, tenths: nat, unit: nat)

  /** Bytes in unit number `k`. */
  function Unit(k: nat): (u: nat)
    ensures u > 0
  {
    if k == 0 then 1 else 1024 * Unit(k - 1)
  }

  /** When the loop goes on to the next unit. */
  predicate TooBig(n: int) { n >= 10000 || (n != 0 && n % 1024 == 0) }

  /** A size to be given in a unit beyond number `k`: it is 10000 of that unit or more, or it is at least one of
      the next unit and, but for less than one of its own, a whole number of the next. */
  ghost predicate BeyondUnit(nbytes: nat, k: nat) {
    || nbytes >= 10000 * Unit(k)
    || (nbytes >= Unit(k + 1) && nbytes % Unit(k + 1) < Unit(k))
  }

  /** The unit chosen: the first that the size is not beyond. */
  ghost predicate LeastUnit(nbytes: nat, ui: nat) {
    !BeyondUnit(nbytes, ui) && forall k :: 0 <= k < ui ==> BeyondUnit(nbytes, k)
  }

  /** The value printed, in tenths of the unit. */
  function Tenths(p: Printed): nat { match p case Whole(n, _) => 10 * n case Decimal(n, d, _) => 10 * n + d }

  /** What the printed text promises about the value. The error is counted in the next smaller unit,
      1/1024 of the one printed: at most 74 of them too much, less than 50 too little. */
  ghost predicate Accurate(p: Printed, nbytes: nat) {
    && (p.Whole? <==> nbytes % Unit(p.unit) == 0)
    && (p.Whole? ==> nbytes == p.n * Unit(p.unit))
    && (p.Decimal? ==>
          && p.unit > 0 && p.tenths <= 9
          && Tenths(p) * Unit(p.unit) <= 10 * nbytes + 740 * Unit(p.unit - 1)
          && Tenths(p) * Unit(p.unit) > 10 * nbytes - 500 * Unit(p.unit - 1))
  }

  lemma Distribute(a: int, b: int, c: int)
    ensures (a + b) * c == a * c + b * c
  {
  }

  /** Quotient and remainder are unique. */
  lemma DivisionIs(x: nat, n: nat, u: nat, rem: nat)
    requires x == n * u + rem && rem < u
    ensures x / u == n && x % u == rem
  {
    var q, r := x / u, x % u;
    assert x == q * u + r;
    Distribute(q, 1, u);
    Distribute(n, 1, u);
    if q < n { MulMonotone(u, q + 1, n); } else if q > n { MulMonotone(u, n + 1, q); }
  }

  /** One turn of the loop, on the invariant value == n * unit + rem. */
  lemma TurnKeeps(x: nat, n: nat, u: nat, rem: nat)
    requires x == n * u + rem && rem < u
    ensures x == (n / 1024) * (1024 * u) + ((n % 1024) * u + rem)
    ensures (n % 1024) * u + rem < 1024 * u
    ensures (n % 1024) * u + rem == 0 <==> n % 1024 == 0 && rem == 0
  {
    var q, s := n / 1024, n % 1024;
    Distribute(1024 * q, s, u);
    MulAssoc(q, u);
    MulMonotone(u, s, 1023);
    if s > 0 { MulMonotone(u, 1, s); }
  }

  lemma MulAssoc(q: int, u: int)
    ensures (1024 * q) * u == q * (1024 * u)
  {
  }

  /** Rounding the remainder `r` (of 1024) to tenths. */
  function Rounded(r: nat): nat { r / 100 + (if r % 100 >= 50 then 1 else 0) }

  lemma RoundedError(r: nat)
    requires r < 1024
    ensures Rounded(r) <= 10
    ensures 10 * r - 490 <= 1024 * Rounded(r) <= 10 * r + 740
  {
  }

  lemma RoundedScaled(r: nat, v: nat)
    requires r < 1024
    ensures 10 * (r * v) - 490 * v <= 1024 * (Rounded(r) * v) <= 10 * (r * v) + 740 * v
  {
    RoundedError(r);
    var k := Rounded(r);
    MulMonotone(v, 1024 * k, 10 * r + 740);
    MulMonotone(v, 10 * r - 490, 1024 * k);
    assert v * (10 * r + 740) == 10 * (r * v) + 740 * v;
    assert v * (10 * r - 490) == 10 * (r * v) - 490 * v;
    assert v * (1024 * k) == 1024 * (k * v);
  }

  lemma TenthsScaled(n: nat, k: nat, v: nat)
    ensures (10 * n + k) * (1024 * v) == 10 * (n * (1024 * v)) + 1024 * (k * v)
  {
    Distribute(10 * n, k, 1024 * v);
  }

  lemma DecimalError(n: nat, k: nat, r: nat, v: nat, low: nat, x: nat)
    requires r < 1024 && k == Rounded(r) && low < v && x == n * (1024 * v) + (r * v + low)
    ensures (10 * n + k) * (1024 * v) <= 10 * x + 740 * v
    ensures (10 * n + k) * (1024 * v) > 10 * x - 500 * v
  {
    RoundedScaled(r, v);
    TenthsScaled(n, k, v);
  }

  /** Beyond which values format_size has no unit left and raises IndexError. */
  const EXA := 0x1000_0000_0000_0000   // Unit(6)

  lemma UnitValues()
    ensures Unit(0) == 1 && Unit(1) == 1024 && Unit(2) == 1024 * 1024 && Unit(3) == 1024 * 1024 * 1024
    ensures Unit(4) == 1024 * Unit(3) && Unit(5) == 1024 * Unit(4) && Unit(6) == 1024 * Unit(5) == EXA
  {
    assert Unit(1) == 1024 * Unit(0);
    assert Unit(2) == 1024 * Unit(1);
    assert Unit(3) == 1024 * Unit(2);
    assert Unit(4) == 1024 * Unit(3);
    assert Unit(5) == 1024 * Unit(4);
    assert Unit(6) == 1024 * Unit(5);
  }

  /** A value that stopped before the last unit is small in terms of it. */
  lemma StoppedEarly(x: nat, n: nat, ui: nat, rem: nat)
    requires ui < 6 && n < 10000 && x == n * Unit(ui) + rem && rem < Unit(ui)
    ensures x / EXA < 10
  {
    UnitValues();
    assert x < 10000 * Unit(ui);
    assert 10000 * Unit(ui) <= 10 * EXA by {
      if ui == 0 { } else if ui == 1 { } else if ui == 2 { } else if ui == 3 { } else if ui == 4 { } else { assert ui == 5; }
    }
  }

  /** The state of the loop: `n` whole units and a remainder, of which `r` are 1024ths. */
  ghost predicate Reduced(x: nat, n: nat, ui: nat, r: nat, rem: nat, low: nat) {
    && x == n * Unit(ui) + rem && rem < Unit(ui)
    && (ui > 0 ==> r < 1024 && rem == r * Unit(ui - 1) + low && low < Unit(ui - 1))
    && (ui == 0 ==> rem == 0)
  }

  lemma ReduceOnce(x: nat, n: nat, ui: nat, r: nat, rem: nat, low: nat)
    requires Reduced(x, n, ui, r, rem, low)
    ensures Reduced(x, n / 1024, ui + 1, n % 1024, (n % 1024) * Unit(ui) + rem, rem)
    ensures (n % 1024) * Unit(ui) + rem == 0 <==> n % 1024 == 0 && rem == 0
    ensures n == x / Unit(ui)
  {
    TurnKeeps(x, n, Unit(ui), rem);
    DivisionIs(x, n, Unit(ui), rem);
  }

  lemma AtLeastIff(x: nat, n: nat, u: nat, rem: nat, k: nat)
    requires x == n * u + rem && rem < u
    ensures n >= k <==> x >= k * u
  {
    if n >= k { MulMonotone(u, k, n); } else { MulMonotone(u, n + 1, k); Distribute(n, 1, u); }
  }

  /** The loop's test of the whole units, on the size itself. */
  lemma TooBigIff(x: nat, n: nat, ui: nat, r: nat, rem: nat, low: nat)
    requires Reduced(x, n, ui, r, rem, low)
    ensures TooBig(n) <==> BeyondUnit(x, ui)
  {
    var u, s := Unit(ui), n % 1024;
    AtLeastIff(x, n, u, rem, 10000);
    AtLeastIff(x, n, u, rem, 1024);
    ReduceOnce(x, n, ui, r, rem, low);
    DivisionIs(x, n / 1024, Unit(ui + 1), s * u + rem);
    assert s == 0 <==> s * u + rem < u by { if s > 0 { MulMonotone(u, 1, s); } }
  }

  /** The loop of format_size. */
  method Reduce(nbytes: nat) returns (n: nat, ui: nat, r: nat, whole: bool, ghost rem: nat, ghost low: nat)
    ensures Reduced(nbytes, n, ui, r, rem, low) && !TooBig(n)
    ensures whole <==> rem == 0
    ensures LeastUnit(nbytes, ui)
  {
    n, ui, r, whole, rem, low := nbytes, 0, 0, true, 0, 0;
    while TooBig(n)
      invariant Reduced(nbytes, n, ui, r, rem, low)
      invariant whole <==> rem == 0
      invariant forall k :: 0 <= k < ui ==> BeyondUnit(nbytes, k)
      decreases n
    {
      TooBigIff(nbytes, n, ui, r, rem, low);
      ReduceOnce(nbytes, n, ui, r, rem, low);
      rem, low := (n % 1024) * Unit(ui) + rem, rem;
      ui := ui + 1;
      if n % 1024 != 0 { whole := false; }
      r := n % 1024;
      n := n / 1024;
    }
    TooBigIff(nbytes, n, ui, r, rem, low);
  }

  lemma NoUnitLeftIff(x: nat, n: nat, ui: nat, r: nat, rem: nat, low: nat)
    requires Reduced(x, n, ui, r, rem, low) && n < 10000 && LeastUnit(x, ui)
    ensures ui > 6 <==> x >= 10000 * EXA || (x >= 1024 * EXA && x % (1024 * EXA) < EXA)
  {
    UnitValues();
    assert Unit(7) == 1024 * Unit(6);
    if ui < 6 { StoppedEarly(x, n, ui, rem); }
    assert ui > 6 ==> BeyondUnit(x, 6);
  }

  /** format_size. Every result is accurate; there is none exactly when the number of whole exabytes would
      itself be carried to a further unit, so never for a value below 1024^7. */
  method Format(nbytes: nat) returns (p: Option<Printed>)
    ensures p.Some? ==> p.value.unit < |UNITS| && LeastUnit(nbytes, p.value.unit) && Accurate(p.value, nbytes)
    ensures p.None? <==> nbytes >= 10000 * EXA || (nbytes >= 1024 * EXA && nbytes % (1024 * EXA) < EXA)
  {
    var n, ui, r, whole, rem, low := Reduce(nbytes);
    NoUnitLeftIff(nbytes, n, ui, r, rem, low);
    DivisionIs(nbytes, n, Unit(ui), rem);
    if ui >= |UNITS| { return None; }
    if whole { return Some(Whole(n, ui)); }
    var tenths := r / 100 + (if r % 100 >= 50 then 1 else 0);
    RoundedError(r);
    DecimalError(n, tenths, r, Unit(ui - 1), low, nbytes);
    if tenths == 10 {
      n := n + 1;
      tenths := 0;
    }
    return Some(Decimal(n, tenths, ui));
  }
}
