/**
 The destruction engine of the assembly-biased occupation models.

 A destruction function D(p | h) multiplies the baseline mean occupation
 <N>(p) of a halo of primary property p and type h. The engine starts from
 an unconstrained type-1 value d~(p), clamps it so that the type-1 branch is
 admissible, and derives the type-0 branch from the conservation law

     F1(p)·D(p|1) + F0(p)·D(p|0) = 1,   F0 = 1 - F1,

 so that the type-averaged conditioned occupation equals the baseline one.
 Every step acts on each halo separately, so the engine is written as pure
 functions of one halo's values, then lifted to catalogs.
 */
module Destruction {

  /** The two assembly-bias halo types (the source stores them as 0 and 1). */
  datatype HaloType = Type0 | Type1

  /** A type fraction is a probability. */
  predicate IsFraction(f: real)
  {
    0.0 <= f <= 1.0
  }

  /** F_h(p): the fractional representation of halos of type h, given the
      type-1 fraction F1(p). Shared by centrals and satellites. */
  function TypeFraction(f1: real, h: HaloType): (r: real)
    ensures h == Type1 ==> r == f1
    ensures h == Type0 ==> r + f1 == 1.0
    ensures IsFraction(f1) ==> IsFraction(r)
  {
    match h
    case Type1 => f1
    case Type0 => 1.0 - f1
  }

  /** 1/x where x is positive, and 0 otherwise. */
  function InverseOrZero(x: real): (r: real)
    ensures x > 0.0 ==> r * x == 1.0
    ensures x <= 0.0 ==> r == 0.0
    ensures r >= 0.0
    ensures 0.0 < x <= 1.0 ==> r >= 1.0
  {
    if x > 0.0 then InverseAtLeastOne(x); 1.0 / x else 0.0
  }

  lemma InverseAtLeastOne(x: real)
    requires x > 0.0
    ensures x <= 1.0 ==> 1.0 / x >= 1.0
  {
  }

  /** A value below an admissible ceiling stays admissible. */
  lemma BelowCeiling(d: real, m: real, f: real)
    requires 0.0 <= d <= m && f >= 0.0 && m * f <= 1.0
    ensures d * f <= 1.0
  {
    assert d * f <= m * f;
  }

  /** The largest admissible central destruction for halos of type h: the
      smaller of 1/F_h (keeping F_h·D <= 1) and 1/<Ncen> (keeping the
      conditioned central mean at most 1), each bound 0 where its
      denominator is 0. */
  function MaximumDestructionCentrals(f1: real, ncen: real, h: HaloType): (r: real)
    ensures r >= 0.0
    ensures r * TypeFraction(f1, h) <= 1.0
    ensures r * ncen <= 1.0
    ensures TypeFraction(f1, h) <= 0.0 || ncen <= 0.0 ==> r == 0.0
    ensures TypeFraction(f1, h) > 0.0 && ncen > 0.0 ==>
              (r * TypeFraction(f1, h) == 1.0 || r * ncen == 1.0)
  {
    var case1 := InverseOrZero(TypeFraction(f1, h));
    var case2 := InverseOrZero(ncen);
    if case2 < case1 then case2 else case1
  }

  /** The largest admissible satellite destruction for halos of type h:
      1/F_h, or 0 where F_h is 0. Satellites have no occupation ceiling. */
  function MaximumDestructionSatellites(f1: real, h: HaloType): (r: real)
    ensures r >= 0.0
    ensures TypeFraction(f1, h) > 0.0 ==> r * TypeFraction(f1, h) == 1.0
    ensures TypeFraction(f1, h) <= 0.0 ==> r == 0.0
  {
    InverseOrZero(TypeFraction(f1, h))
  }

  /** The smallest admissible central destruction for halos of type h,
      (1 - F_other/<Ncen>)/F_h floored at 0, and 0 where F_h or <Ncen> is 0.
      The engine does not apply this bound; see CentralType0MeanBoundedByMinimum. */
  function MinimumDestructionCentrals(f1: real, ncen: real, h: HaloType): (r: real)
    ensures r >= 0.0
    ensures TypeFraction(f1, h) <= 0.0 || ncen <= 0.0 ==> r == 0.0
    ensures TypeFraction(f1, h) > 0.0 && ncen > 0.0 ==>
              r * TypeFraction(f1, h) >= 1.0 - (1.0 - TypeFraction(f1, h)) / ncen
    ensures TypeFraction(f1, h) > 0.0 && ncen > 0.0 ==>
              (r == 0.0 || r * TypeFraction(f1, h) == 1.0 - (1.0 - TypeFraction(f1, h)) / ncen)
  {
    var fh := TypeFraction(f1, h);
    var complement := 1.0 - fh;
    if fh > 0.0 && ncen > 0.0 then
      var m := (1.0 - complement / ncen) / fh;
      if m < 0.0 then 0.0 else m
    else 0.0
  }

  /** The constrained type-1 destruction, computed as if every halo were of
      type 1: floor the unconstrained value at 0, cap it at `maximum`, and
      override it to exactly 1 where F1 = 1 (the override wins). */
  function ConstrainedType1(dTilde: real, f1: real, maximum: real): (d1: real)
    requires maximum >= 0.0
    ensures f1 == 1.0 ==> d1 == 1.0
    ensures f1 != 1.0 ==> 0.0 <= d1 <= maximum
    ensures f1 != 1.0 && 0.0 <= dTilde <= maximum ==> d1 == dTilde
    ensures f1 != 1.0 && dTilde < 0.0 ==> d1 == 0.0
    ensures f1 != 1.0 && dTilde > maximum ==> d1 == maximum
  {
    var floored := if dTilde < 0.0 then 0.0 else dTilde;
    var capped := if floored > maximum then maximum else floored;
    if f1 == 1.0 then 1.0 else capped
  }

  /** The destruction for a halo of type h. Type-1 halos keep the constrained
      value d1; type-0 halos get (1 - d1·F1)/F0 where F0 = 1 - F1 is positive,
      0 where F0 is 0, and (as written) d1 itself where F0 is negative. */
  function ResolveType(d1: real, f1: real, h: HaloType): (d: real)
    ensures h == Type1 ==> d == d1
    ensures h == Type0 && 1.0 - f1 > 0.0 ==> d * (1.0 - f1) == 1.0 - d1 * f1
    ensures h == Type0 && f1 == 1.0 ==> d == 0.0
    ensures h == Type0 && f1 > 1.0 ==> d == d1
  {
    match h
    case Type1 => d1
    case Type0 =>
      var f0 := 1.0 - f1;
      if f0 > 0.0 then (1.0 - d1 * f1) / f0
      else if f0 == 0.0 then 0.0
      else d1
  }

  /** D_cen(p | h) from the unconstrained value d~_cen(p), the central type-1
      fraction F1(p) and the baseline <Ncen>(p). */
  function DestructionCentrals(dTilde: real, f1: real, ncen: real, h: HaloType): (d: real)
    requires IsFraction(f1) && ncen >= 0.0
    ensures d >= 0.0
    ensures h == Type1 && f1 == 1.0 ==> d == 1.0
    ensures h == Type0 && f1 == 1.0 ==> d == 0.0
    ensures h == Type1 && f1 < 1.0 ==> d <= MaximumDestructionCentrals(f1, ncen, Type1)
    ensures h == Type1 && f1 < 1.0 && 0.0 <= dTilde <= MaximumDestructionCentrals(f1, ncen, Type1) ==> d == dTilde
    ensures h == Type1 && f1 < 1.0 && dTilde < 0.0 ==> d == 0.0
    ensures h == Type1 && f1 < 1.0 && dTilde > MaximumDestructionCentrals(f1, ncen, Type1) ==>
              d == MaximumDestructionCentrals(f1, ncen, Type1)
  {
    var m := MaximumDestructionCentrals(f1, ncen, Type1);
    var d1 := ConstrainedType1(dTilde, f1, m);
    if f1 < 1.0 then BelowCeiling(d1, m, f1); Type0NonNegative(d1, f1); ResolveType(d1, f1, h)
    else Type0NonNegative(d1, f1); ResolveType(d1, f1, h)
  }

  /** D_sat(p | h) from the unconstrained value d~_sat(p) and the satellite
      type-1 fraction F1(p). */
  function DestructionSatellites(dTilde: real, f1: real, h: HaloType): (d: real)
    requires IsFraction(f1)
    ensures d >= 0.0
    ensures h == Type1 && f1 == 1.0 ==> d == 1.0
    ensures h == Type0 && f1 == 1.0 ==> d == 0.0
    ensures h == Type1 && f1 < 1.0 ==> d <= MaximumDestructionSatellites(f1, Type1)
    ensures h == Type1 && f1 < 1.0 && 0.0 <= dTilde <= MaximumDestructionSatellites(f1, Type1) ==> d == dTilde
    ensures h == Type1 && f1 < 1.0 && dTilde < 0.0 ==> d == 0.0
    ensures h == Type1 && f1 < 1.0 && dTilde > MaximumDestructionSatellites(f1, Type1) ==>
              d == MaximumDestructionSatellites(f1, Type1)
  {
    var m := MaximumDestructionSatellites(f1, Type1);
    var d1 := ConstrainedType1(dTilde, f1, m);
    if f1 < 1.0 then BelowCeiling(d1, m, f1); Type0NonNegative(d1, f1); ResolveType(d1, f1, h)
    else Type0NonNegative(d1, f1); ResolveType(d1, f1, h)
  }

  /** An admissible type-1 value gives a non-negative type-0 value. */
  lemma Type0NonNegative(d1: real, f1: real)
    requires IsFraction(f1) && d1 >= 0.0
    requires f1 < 1.0 ==> d1 * f1 <= 1.0
    ensures ResolveType(d1, f1, Type0) >= 0.0
  {
    if f1 < 1.0 {
      var f0 := 1.0 - f1;
      assert ResolveType(d1, f1, Type0) * f0 == 1.0 - d1 * f1 >= 0.0;
    }
  }

  // ----- Conservation -----

  /** The type-averaged destruction is 1 for any value the type-1 branch
      takes: the type-0 branch is built to absorb the difference. */
  lemma ResolveConserves(d1: real, f1: real)
    requires IsFraction(f1)
    requires f1 == 1.0 ==> d1 == 1.0
    ensures f1 * ResolveType(d1, f1, Type1) + (1.0 - f1) * ResolveType(d1, f1, Type0) == 1.0
  {
  }

  /** Conservation for centrals: F1·D_cen(p|1) + F0·D_cen(p|0) = 1. */
  lemma CentralsConserve(dTilde: real, f1: real, ncen: real)
    requires IsFraction(f1) && ncen >= 0.0
    ensures f1 * DestructionCentrals(dTilde, f1, ncen, Type1)
          + (1.0 - f1) * DestructionCentrals(dTilde, f1, ncen, Type0) == 1.0
  {
    var d1 := ConstrainedType1(dTilde, f1, MaximumDestructionCentrals(f1, ncen, Type1));
    ConservedBy(d1, f1, DestructionCentrals(dTilde, f1, ncen, Type1), DestructionCentrals(dTilde, f1, ncen, Type0));
  }

  /** Conservation for satellites: F1·D_sat(p|1) + F0·D_sat(p|0) = 1. */
  lemma SatellitesConserve(dTilde: real, f1: real)
    requires IsFraction(f1)
    ensures f1 * DestructionSatellites(dTilde, f1, Type1)
          + (1.0 - f1) * DestructionSatellites(dTilde, f1, Type0) == 1.0
  {
    var d1 := ConstrainedType1(dTilde, f1, MaximumDestructionSatellites(f1, Type1));
    ConservedBy(d1, f1, DestructionSatellites(dTilde, f1, Type1), DestructionSatellites(dTilde, f1, Type0));
  }

  /** Conservation restated for the two values a type-1 and a type-0 halo
      receive from the same constrained type-1 value. */
  lemma ConservedBy(d1: real, f1: real, a: real, b: real)
    requires IsFraction(f1) && (f1 == 1.0 ==> d1 == 1.0)
    requires a == ResolveType(d1, f1, Type1) && b == ResolveType(d1, f1, Type0)
    ensures f1 * a + (1.0 - f1) * b == 1.0
  {
    ResolveConserves(d1, f1);
  }

  // ----- Conditioned mean occupations -----

  /** <Ncen | h>(p) = D_cen(p | h)·<Ncen>(p). */
  function MeanNcen(dTilde: real, f1: real, ncen: real, h: HaloType): (n: real)
    requires IsFraction(f1) && 0.0 <= ncen <= 1.0
    ensures n >= 0.0
    ensures h == Type1 ==> n <= 1.0
    ensures f1 == 1.0 && h == Type1 ==> n == ncen
  {
    var d := DestructionCentrals(dTilde, f1, ncen, h);
    CentralType1Ceiling(dTilde, f1, ncen);
    ProductNonNegative(d, ncen);
    d * ncen
  }

  /** The type-1 central destruction never lets the conditioned central mean
      exceed 1: below F1 = 1 it is capped by 1/<Ncen>, and at F1 = 1 it is
      exactly 1 while <Ncen> is at most 1. */
  lemma CentralType1Ceiling(dTilde: real, f1: real, ncen: real)
    requires IsFraction(f1) && 0.0 <= ncen <= 1.0
    ensures DestructionCentrals(dTilde, f1, ncen, Type1) * ncen <= 1.0
  {
    var d := DestructionCentrals(dTilde, f1, ncen, Type1);
    var m := MaximumDestructionCentrals(f1, ncen, Type1);
    if f1 < 1.0 {
      ScaleBelow(d, m, ncen);
    }
  }

  /** <Nsat | h>(p) = D_sat(p | h)·<Nsat>(p). */
  function MeanNsat(dTilde: real, f1: real, nsat: real, h: HaloType): (n: real)
    requires IsFraction(f1) && nsat >= 0.0
    ensures n >= 0.0
    ensures f1 == 1.0 && h == Type1 ==> n == nsat
    ensures f1 == 1.0 && h == Type0 ==> n == 0.0
  {
    var d := DestructionSatellites(dTilde, f1, h);
    ProductNonNegative(d, nsat);
    d * nsat
  }

  /** The type-averaged conditioned central mean is the baseline mean. */
  lemma MeanNcenConserves(dTilde: real, f1: real, ncen: real)
    requires IsFraction(f1) && 0.0 <= ncen <= 1.0
    ensures f1 * MeanNcen(dTilde, f1, ncen, Type1) + (1.0 - f1) * MeanNcen(dTilde, f1, ncen, Type0) == ncen
  {
    var d1 := ConstrainedType1(dTilde, f1, MaximumDestructionCentrals(f1, ncen, Type1));
    MeanNcenValue(dTilde, f1, ncen, Type1);
    MeanNcenValue(dTilde, f1, ncen, Type0);
    MeanConservedBy(d1, f1, ncen, MeanNcen(dTilde, f1, ncen, Type1), MeanNcen(dTilde, f1, ncen, Type0));
  }

  /** Conservation of a mean: the two conditioned means scaled from the
      same constrained type-1 value average to the baseline. */
  lemma MeanConservedBy(d1: real, f1: real, n: real, x: real, y: real)
    requires IsFraction(f1) && (f1 == 1.0 ==> d1 == 1.0)
    requires x == ResolveType(d1, f1, Type1) * n && y == ResolveType(d1, f1, Type0) * n
    ensures f1 * x + (1.0 - f1) * y == n
  {
    ResolveConserves(d1, f1);
    ScaleAverage(f1, ResolveType(d1, f1, Type1), ResolveType(d1, f1, Type0), n, x, y);
  }

  /** A conditioned central mean is the type's share of the constrained
      type-1 value, times the baseline. */
  lemma MeanNcenValue(dTilde: real, f1: real, ncen: real, h: HaloType)
    requires IsFraction(f1) && 0.0 <= ncen <= 1.0
    ensures MeanNcen(dTilde, f1, ncen, h)
            == ResolveType(ConstrainedType1(dTilde, f1, MaximumDestructionCentrals(f1, ncen, Type1)), f1, h) * ncen
  {
  }

  /** A conditioned satellite mean is the type's share of the constrained
      type-1 value, times the baseline. */
  lemma MeanNsatValue(dTilde: real, f1: real, nsat: real, h: HaloType)
    requires IsFraction(f1) && nsat >= 0.0
    ensures MeanNsat(dTilde, f1, nsat, h)
            == ResolveType(ConstrainedType1(dTilde, f1, MaximumDestructionSatellites(f1, Type1)), f1, h) * nsat
  {
  }

  /** The type-averaged conditioned satellite mean is the baseline mean. */
  lemma MeanNsatConserves(dTilde: real, f1: real, nsat: real)
    requires IsFraction(f1) && nsat >= 0.0
    ensures f1 * MeanNsat(dTilde, f1, nsat, Type1) + (1.0 - f1) * MeanNsat(dTilde, f1, nsat, Type0) == nsat
  {
    var d1 := ConstrainedType1(dTilde, f1, MaximumDestructionSatellites(f1, Type1));
    MeanNsatValue(dTilde, f1, nsat, Type1);
    MeanNsatValue(dTilde, f1, nsat, Type0);
    MeanConservedBy(d1, f1, nsat, MeanNsat(dTilde, f1, nsat, Type1), MeanNsat(dTilde, f1, nsat, Type0));
  }

  // ----- Arithmetic steps, kept apart from the engine's contracts -----

  lemma ProductNonNegative(a: real, b: real)
    requires a >= 0.0 && b >= 0.0
    ensures a * b >= 0.0
  {
  }

  lemma ScaleBelow(a: real, b: real, c: real)
    requires a <= b && c >= 0.0 && b * c <= 1.0
    ensures a * c <= 1.0
  {
  }

  /** A weighted average of 1 scaled by n is n. */
  lemma ScaleAverage(f: real, a: real, b: real, n: real, an: real, bn: real)
    requires f * a + (1.0 - f) * b == 1.0
    requires an == a * n
    requires bn == b * n
    ensures f * an + (1.0 - f) * bn == n
  {
    assert f * (a * n) + (1.0 - f) * (b * n) == (f * a + (1.0 - f) * b) * n;
  }

  // ----- No assembly bias from a unit unconstrained function -----

  /** With d~ ≡ 1 the constrained type-1 value is 1 wherever the ceiling
      is at least 1. */
  lemma UnitType1(f1: real, maximum: real)
    requires maximum >= 1.0
    ensures ConstrainedType1(1.0, f1, maximum) == 1.0
  {
  }

  /** A type-1 value of 1 gives a type-0 value of 1 wherever type-0 halos
      exist. */
  lemma UnitType0(f1: real)
    requires 0.0 <= f1 < 1.0
    ensures ResolveType(1.0, f1, Type0) == 1.0
  {
    var k := 1.0 - f1;
    assert 1.0 - 1.0 * f1 == k;
    assert k / k == 1.0;
  }

  /** With d~_cen ≡ 1, every halo whose own type fraction is positive keeps
      the baseline central mean. */
  lemma UnitCentralsNoAssemblyBias(f1: real, ncen: real, h: HaloType)
    requires IsFraction(f1) && 0.0 <= ncen <= 1.0
    requires TypeFraction(f1, h) > 0.0
    ensures MeanNcen(1.0, f1, ncen, h) == ncen
  {
    var m := MaximumDestructionCentrals(f1, ncen, Type1);
    var d1 := ConstrainedType1(1.0, f1, m);
    if ncen > 0.0 {
      if f1 > 0.0 {
        assert m >= 1.0;
        UnitType1(f1, m);
      }
      if h == Type0 {
        if f1 > 0.0 {
          UnitType0(f1);
        } else {
          assert ResolveType(d1, f1, Type0) == (1.0 - d1 * 0.0) / 1.0;
        }
      }
      assert DestructionCentrals(1.0, f1, ncen, h) == 1.0;
    }
  }

  /** With d~_sat ≡ 1, every halo whose own type fraction is positive keeps
      the baseline satellite mean. */
  lemma UnitSatellitesNoAssemblyBias(f1: real, nsat: real, h: HaloType)
    requires IsFraction(f1) && nsat >= 0.0
    requires TypeFraction(f1, h) > 0.0
    ensures MeanNsat(1.0, f1, nsat, h) == nsat
  {
    var m := MaximumDestructionSatellites(f1, Type1);
    var d1 := ConstrainedType1(1.0, f1, m);
    if f1 > 0.0 {
      UnitType1(f1, m);
    }
    if h == Type0 {
      if f1 > 0.0 {
        UnitType0(f1);
      } else {
        assert ResolveType(d1, f1, Type0) == (1.0 - d1 * 0.0) / 1.0;
      }
    }
    assert DestructionSatellites(1.0, f1, h) == 1.0;
  }

  // ----- The unused lower bound for centrals -----

  /** The admissible interval for centrals is never empty: the minimum never
      exceeds the maximum. */
  lemma CentralBoundsConsistent(f1: real, ncen: real, h: HaloType)
    requires IsFraction(f1) && 0.0 <= ncen <= 1.0
    ensures MinimumDestructionCentrals(f1, ncen, h) <= MaximumDestructionCentrals(f1, ncen, h)
  {
    var fh := TypeFraction(f1, h);
    if fh > 0.0 && ncen > 0.0 {
      var m := (1.0 - (1.0 - fh) / ncen) / fh;
      var top := MaximumDestructionCentrals(f1, ncen, h);
      MinimumProducts(m, fh, ncen);
      if top * fh == 1.0 {
        CancelPositive(m, top, fh);
      } else {
        CancelPositive(m, top, ncen);
      }
    }
  }

  /** The unfloored minimum m = (1 - (1 - f)/n)/f has m·f <= 1 and m·n <= 1
      for f and n in (0, 1]. */
  lemma MinimumProducts(m: real, f: real, n: real)
    requires 0.0 < f <= 1.0 && 0.0 < n <= 1.0
    requires m == (1.0 - (1.0 - f) / n) / f
    ensures m * f <= 1.0 && m * n <= 1.0
  {
    var q := (1.0 - f) / n;
    assert q * n == 1.0 - f;
    assert q >= 0.0;
    assert m * f == 1.0 - q;
    var a := m * n;
    assert a * f == (m * f) * n;
    assert (m * f) * n == (1.0 - q) * n;
    assert (1.0 - q) * n == n - q * n;
    assert a * f == n - (1.0 - f);
    CancelBelowOne(a, f);
  }

  /** From a·f <= f with f > 0, a <= 1. */
  lemma CancelBelowOne(a: real, f: real)
    requires f > 0.0 && a * f <= f
    ensures a <= 1.0
  {
  }

  /** From a·x <= b·x with x > 0, a <= b. */
  lemma CancelPositive(a: real, b: real, x: real)
    requires x > 0.0 && a * x <= 1.0 && b * x == 1.0
    ensures a <= b
  {
  }

  /** Had the type-1 central destruction also been floored at the minimum,
      the type-0 conditioned central mean would not exceed 1. */
  lemma CentralType0MeanBoundedByMinimum(d1: real, f1: real, ncen: real)
    requires 0.0 < f1 < 1.0 && 0.0 < ncen <= 1.0
    requires d1 >= MinimumDestructionCentrals(f1, ncen, Type1)
    ensures ResolveType(d1, f1, Type0) * ncen <= 1.0
  {
    var f0 := 1.0 - f1;
    var d0 := ResolveType(d1, f1, Type0);
    var lower := 1.0 - f0 / ncen;
    assert d1 * f1 >= lower by {
      var m := MinimumDestructionCentrals(f1, ncen, Type1);
      assert m * f1 >= lower;
      assert d1 * f1 >= m * f1;
    }
    assert d0 * f0 <= f0 / ncen;
    ScaleBound(d0, f0, ncen);
  }

  /** From d·f <= f/n with positive f and n, d·n <= 1. */
  lemma ScaleBound(d: real, f: real, n: real)
    requires f > 0.0 && n > 0.0
    requires d * f <= f / n
    ensures d * n <= 1.0
  {
    assert d <= 1.0 / n;
    assert d * n <= (1.0 / n) * n;
  }

  /** As written the engine never applies that minimum, so a type-0 central
      mean above 1 is reachable: with F1 = 1/2, <Ncen> = 1 and d~ = 0 the
      type-0 destruction is 2. */
  lemma CentralType0MeanCanExceedOne()
    ensures MeanNcen(0.0, 0.5, 1.0, Type0) == 2.0
  {
    assert DestructionCentrals(0.0, 0.5, 1.0, Type0) * 0.5 == 1.0;
  }

  // ----- Lifted to catalogs -----

  /** `destruction_centrals` over a catalog: each halo's value from the
      baseline functions evaluated at its own primary property. */
  function DestructionCentralsAll(ps: seq<real>, types: seq<HaloType>,
                                  dTilde: real -> real, f1: real -> real, ncen: real -> real): (ds: seq<real>)
    requires |types| == |ps|
    requires forall i :: 0 <= i < |ps| ==> IsFraction(f1(ps[i])) && ncen(ps[i]) >= 0.0
    ensures |ds| == |ps|
    ensures forall i :: 0 <= i < |ps| ==> ds[i] >= 0.0
    ensures forall i :: 0 <= i < |ps| && f1(ps[i]) == 1.0 ==> ds[i] == (if types[i] == Type1 then 1.0 else 0.0)
    ensures forall i :: 0 <= i < |ps| && types[i] == Type1 && f1(ps[i]) < 1.0 ==>
              ds[i] <= MaximumDestructionCentrals(f1(ps[i]), ncen(ps[i]), Type1)
    ensures forall i :: 0 <= i < |ps| && types[i] == Type1 && f1(ps[i]) < 1.0 ==>
              (0.0 <= dTilde(ps[i]) <= MaximumDestructionCentrals(f1(ps[i]), ncen(ps[i]), Type1) ==>
                 ds[i] == dTilde(ps[i]))
    ensures forall i :: 0 <= i < |ps| && types[i] == Type1 && f1(ps[i]) < 1.0 && dTilde(ps[i]) < 0.0 ==> ds[i] == 0.0
    ensures forall i :: 0 <= i < |ps| && types[i] == Type1 && f1(ps[i]) < 1.0 ==>
              (dTilde(ps[i]) > MaximumDestructionCentrals(f1(ps[i]), ncen(ps[i]), Type1) ==>
                 ds[i] == MaximumDestructionCentrals(f1(ps[i]), ncen(ps[i]), Type1))
  {
    seq(|ps|, i requires 0 <= i < |ps| => DestructionCentrals(dTilde(ps[i]), f1(ps[i]), ncen(ps[i]), types[i]))
  }

  /** `destruction_satellites` over a catalog. */
  function DestructionSatellitesAll(ps: seq<real>, types: seq<HaloType>,
                                    dTilde: real -> real, f1: real -> real): (ds: seq<real>)
    requires |types| == |ps|
    requires forall i :: 0 <= i < |ps| ==> IsFraction(f1(ps[i]))
    ensures |ds| == |ps|
    ensures forall i :: 0 <= i < |ps| ==> ds[i] >= 0.0
    ensures forall i :: 0 <= i < |ps| && f1(ps[i]) == 1.0 ==> ds[i] == (if types[i] == Type1 then 1.0 else 0.0)
    ensures forall i :: 0 <= i < |ps| && types[i] == Type1 && f1(ps[i]) < 1.0 ==>
              ds[i] <= MaximumDestructionSatellites(f1(ps[i]), Type1)
    ensures forall i :: 0 <= i < |ps| && types[i] == Type1 && f1(ps[i]) < 1.0 ==>
              (0.0 <= dTilde(ps[i]) <= MaximumDestructionSatellites(f1(ps[i]), Type1) ==>
                 ds[i] == dTilde(ps[i]))
    ensures forall i :: 0 <= i < |ps| && types[i] == Type1 && f1(ps[i]) < 1.0 && dTilde(ps[i]) < 0.0 ==> ds[i] == 0.0
    ensures forall i :: 0 <= i < |ps| && types[i] == Type1 && f1(ps[i]) < 1.0 ==>
              (dTilde(ps[i]) > MaximumDestructionSatellites(f1(ps[i]), Type1) ==>
                 ds[i] == MaximumDestructionSatellites(f1(ps[i]), Type1))
  {
    seq(|ps|, i requires 0 <= i < |ps| => DestructionSatellites(dTilde(ps[i]), f1(ps[i]), types[i]))
  }

  /** Central conservation over a catalog: at every halo's primary property,
      the type-weighted destructions that a type-1 and a type-0 halo would
      receive there sum to 1. */
  lemma CatalogCentralsConserve(ps: seq<real>, ones: seq<HaloType>, zeros: seq<HaloType>,
                                dTilde: real -> real, f1: real -> real, ncen: real -> real)
    requires |ones| == |zeros| == |ps|
    requires forall i :: 0 <= i < |ps| ==> ones[i] == Type1 && zeros[i] == Type0
    requires forall i :: 0 <= i < |ps| ==> IsFraction(f1(ps[i])) && ncen(ps[i]) >= 0.0
    ensures forall i :: 0 <= i < |ps| ==>
      f1(ps[i]) * DestructionCentralsAll(ps, ones, dTilde, f1, ncen)[i]
      + (1.0 - f1(ps[i])) * DestructionCentralsAll(ps, zeros, dTilde, f1, ncen)[i] == 1.0
  {
    forall i | 0 <= i < |ps|
      ensures f1(ps[i]) * DestructionCentralsAll(ps, ones, dTilde, f1, ncen)[i]
              + (1.0 - f1(ps[i])) * DestructionCentralsAll(ps, zeros, dTilde, f1, ncen)[i] == 1.0
    {
      CentralsConserveAt(ps, ones, zeros, dTilde, f1, ncen, i);
    }
  }

  /** Central conservation at one halo of a catalog. */
  lemma CentralsConserveAt(ps: seq<real>, ones: seq<HaloType>, zeros: seq<HaloType>,
                           dTilde: real -> real, f1: real -> real, ncen: real -> real, i: nat)
    requires |ones| == |zeros| == |ps| && i < |ps|
    requires ones[i] == Type1 && zeros[i] == Type0
    requires forall j :: 0 <= j < |ps| ==> IsFraction(f1(ps[j])) && ncen(ps[j]) >= 0.0
    ensures f1(ps[i]) * DestructionCentralsAll(ps, ones, dTilde, f1, ncen)[i]
            + (1.0 - f1(ps[i])) * DestructionCentralsAll(ps, zeros, dTilde, f1, ncen)[i] == 1.0
  {
    var f, m := f1(ps[i]), MaximumDestructionCentrals(f1(ps[i]), ncen(ps[i]), Type1);
    ConservedBy(ConstrainedType1(dTilde(ps[i]), f, m), f,
                DestructionCentralsAll(ps, ones, dTilde, f1, ncen)[i], DestructionCentralsAll(ps, zeros, dTilde, f1, ncen)[i]);
  }

  /** Satellite conservation over a catalog. */
  lemma CatalogSatellitesConserve(ps: seq<real>, ones: seq<HaloType>, zeros: seq<HaloType>,
                                  dTilde: real -> real, f1: real -> real)
    requires |ones| == |zeros| == |ps|
    requires forall i :: 0 <= i < |ps| ==> ones[i] == Type1 && zeros[i] == Type0
    requires forall i :: 0 <= i < |ps| ==> IsFraction(f1(ps[i]))
    ensures forall i :: 0 <= i < |ps| ==>
      f1(ps[i]) * DestructionSatellitesAll(ps, ones, dTilde, f1)[i]
      + (1.0 - f1(ps[i])) * DestructionSatellitesAll(ps, zeros, dTilde, f1)[i] == 1.0
  {
    forall i | 0 <= i < |ps|
      ensures f1(ps[i]) * DestructionSatellitesAll(ps, ones, dTilde, f1)[i]
              + (1.0 - f1(ps[i])) * DestructionSatellitesAll(ps, zeros, dTilde, f1)[i] == 1.0
    {
      SatellitesConserveAt(ps, ones, zeros, dTilde, f1, i);
    }
  }

  /** Satellite conservation at one halo of a catalog. */
  lemma SatellitesConserveAt(ps: seq<real>, ones: seq<HaloType>, zeros: seq<HaloType>,
                             dTilde: real -> real, f1: real -> real, i: nat)
    requires |ones| == |zeros| == |ps| && i < |ps|
    requires ones[i] == Type1 && zeros[i] == Type0
    requires forall j :: 0 <= j < |ps| ==> IsFraction(f1(ps[j]))
    ensures f1(ps[i]) * DestructionSatellitesAll(ps, ones, dTilde, f1)[i]
            + (1.0 - f1(ps[i])) * DestructionSatellitesAll(ps, zeros, dTilde, f1)[i] == 1.0
  {
    var f, m := f1(ps[i]), MaximumDestructionSatellites(f1(ps[i]), Type1);
    ConservedBy(ConstrainedType1(dTilde(ps[i]), f, m), f,
                DestructionSatellitesAll(ps, ones, dTilde, f1)[i], DestructionSatellitesAll(ps, zeros, dTilde, f1)[i]);
  }
}
