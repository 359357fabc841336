/**
 The concrete occupation models built on the destruction engine: the
 Zheng et al. (2007) satellite occupation's hard zero below M0, the
 satellite-central correlation model's type-1 fractions, the polynomial
 type-1 and quenched fractions, and the catalog-level conditioned means.

 The baseline central mean <Ncen>(p) (an error function of log mass) is an
 uninterpreted function with values in [0,1]; the satellite power law is an
 uninterpreted non-negative value.
 */
module Models {
  import opened Numerics
  import opened Polynomial
  import opened Destruction
  import opened Classifier

  /** Zheng07 `mean_nsat` at one halo: <Ncen>·((M - M0)/M1)^alpha where the
      halo mass exceeds M0, and exactly 0 elsewhere. `powerLaw` stands for
      the value ((M - M0)/M1)^alpha. */
  function Zheng07MeanNsat(mass: real, m0: real, ncen: real, powerLaw: real): (n: real)
    ensures mass <= m0 ==> n == 0.0
    ensures 0.0 <= ncen && 0.0 <= powerLaw ==> 0.0 <= n
    ensures 0.0 <= ncen <= 1.0 && 0.0 <= powerLaw && mass > m0 ==> n <= powerLaw
    ensures n != 0.0 <==> mass > m0 && ncen != 0.0 && powerLaw != 0.0
  {
    if mass - m0 > 0.0 then ncen * powerLaw else 0.0
  }

  // ----- Catalog-level conditioned means -----

  /** `mean_ncen` of an assembly-biased model over a catalog: each halo's
      central destruction times its baseline central mean. */
  function MeanNcenAll(ps: seq<real>, types: seq<HaloType>,
                       dTilde: real -> real, f1: real -> real, ncen: real -> real): (ns: seq<real>)
    requires |types| == |ps|
    requires forall i :: 0 <= i < |ps| ==> IsFraction(f1(ps[i])) && 0.0 <= ncen(ps[i]) <= 1.0
    ensures |ns| == |ps|
    ensures forall i :: 0 <= i < |ps| ==> ns[i] >= 0.0
    ensures forall i :: 0 <= i < |ps| && types[i] == Type1 ==> ns[i] <= 1.0
    ensures forall i :: 0 <= i < |ps| && f1(ps[i]) == 1.0 && types[i] == Type1 ==> ns[i] == ncen(ps[i])
  {
    seq(|ps|, i requires 0 <= i < |ps| => MeanNcen(dTilde(ps[i]), f1(ps[i]), ncen(ps[i]), types[i]))
  }

  /** `mean_nsat` of an assembly-biased model over a catalog. */
  function MeanNsatAll(ps: seq<real>, types: seq<HaloType>,
                       dTilde: real -> real, f1: real -> real, nsat: real -> real): (ns: seq<real>)
    requires |types| == |ps|
    requires forall i :: 0 <= i < |ps| ==> IsFraction(f1(ps[i])) && nsat(ps[i]) >= 0.0
    ensures |ns| == |ps|
    ensures forall i :: 0 <= i < |ps| ==> ns[i] >= 0.0
    ensures forall i :: 0 <= i < |ps| && f1(ps[i]) == 1.0 ==>
              ns[i] == (if types[i] == Type1 then nsat(ps[i]) else 0.0)
  {
    seq(|ps|, i requires 0 <= i < |ps| => MeanNsat(dTilde(ps[i]), f1(ps[i]), nsat(ps[i]), types[i]))
  }

  /** A unit unconstrained central function leaves every halo of a
      represented type at its baseline central mean. */
  lemma UnitCatalogCentralsUnbiased(ps: seq<real>, types: seq<HaloType>, f1: real -> real, ncen: real -> real)
    requires |types| == |ps|
    requires forall i :: 0 <= i < |ps| ==> IsFraction(f1(ps[i])) && 0.0 <= ncen(ps[i]) <= 1.0
    requires forall i :: 0 <= i < |ps| ==> TypeFraction(f1(ps[i]), types[i]) > 0.0
    ensures forall i :: 0 <= i < |ps| ==> MeanNcenAll(ps, types, _ => 1.0, f1, ncen)[i] == ncen(ps[i])
  {
    forall i | 0 <= i < |ps|
      ensures MeanNcenAll(ps, types, _ => 1.0, f1, ncen)[i] == ncen(ps[i])
    {
      UnitCentralsNoAssemblyBias(f1(ps[i]), ncen(ps[i]), types[i]);
    }
  }

  // ----- Extreme type fractions -----

  /** With F1 = 0 at p, every halo there is type 0, and whatever the
      unconstrained function, type-0 halos keep the baseline central mean. */
  lemma ZeroFractionCentralsUnbiased(dTilde: real, ncen: real)
    requires 0.0 <= ncen <= 1.0
    ensures MeanNcen(dTilde, 0.0, ncen, Type0) == ncen
  {
    var m := MaximumDestructionCentrals(0.0, ncen, Type1);
    assert m == 0.0;
    var d1 := ConstrainedType1(dTilde, 0.0, m);
    assert ResolveType(d1, 0.0, Type0) == (1.0 - d1 * 0.0) / 1.0;
  }

  /** With F1 = 0 at p, type-0 halos keep the baseline satellite mean. */
  lemma ZeroFractionSatellitesUnbiased(dTilde: real, nsat: real)
    requires nsat >= 0.0
    ensures MeanNsat(dTilde, 0.0, nsat, Type0) == nsat
  {
    var m := MaximumDestructionSatellites(0.0, Type1);
    var d1 := ConstrainedType1(dTilde, 0.0, m);
    assert ResolveType(d1, 0.0, Type0) == (1.0 - d1 * 0.0) / 1.0;
  }

  // ----- Satellite-central correlation model -----

  /** `halo_type1_fraction_centrals` of the satellite-central model: every
      halo counts as type 1. */
  function SatcenType1FractionCentrals(ps: seq<real>): (f: seq<real>)
    ensures |f| == |ps|
    ensures forall i :: 0 <= i < |ps| ==> IsFraction(f[i]) && TypeFraction(f[i], Type0) == 0.0
  {
    seq(|ps|, _ => 1.0)
  }

  /** `halo_type1_fraction_satellites` of the satellite-central model: the
      type-1 fraction is the baseline central mean, so a type-1 halo is one
      that hosts a central. */
  function SatcenType1FractionSatellites(ps: seq<real>, ncen: real -> real): (f: seq<real>)
    requires forall i :: 0 <= i < |ps| ==> 0.0 <= ncen(ps[i]) <= 1.0
    ensures |f| == |ps|
    ensures forall i :: 0 <= i < |ps| ==> IsFraction(f[i])
    ensures forall i :: 0 <= i < |ps| ==> TypeFraction(f[i], Type0) == 1.0 - ncen(ps[i])
  {
    seq(|ps|, i requires 0 <= i < |ps| => ncen(ps[i]))
  }

  /** Centrals of the satellite-central model show no assembly bias: every
      type-1 halo keeps the baseline central mean, whatever the central
      polynomial, and the classifier makes no type-0 halo in any bin. */
  lemma SatcenCentralsUnbiased(ps: seq<real>, dTilde: real -> real, ncen: real -> real, n: nat)
    requires forall i :: 0 <= i < |ps| ==> 0.0 <= ncen(ps[i]) <= 1.0
    ensures forall i :: 0 <= i < |ps| ==>
              MeanNcen(dTilde(ps[i]), SatcenType1FractionCentrals(ps)[i], ncen(ps[i]), Type1) == ncen(ps[i])
    ensures SplitCount(n, 1.0) == 0
  {
    assert n as real * (1.0 - 1.0) == 0.0;
  }

  /** Satellites of the satellite-central model: the mean over halos with a
      central (weight <Ncen>) and without one (weight 1 - <Ncen>) is the
      baseline satellite mean. */
  lemma SatcenSatellitesConserve(ps: seq<real>, dTilde: real -> real, ncen: real -> real, nsat: real -> real)
    requires forall i :: 0 <= i < |ps| ==> 0.0 <= ncen(ps[i]) <= 1.0 && nsat(ps[i]) >= 0.0
    ensures forall i :: 0 <= i < |ps| ==>
              ncen(ps[i]) * MeanNsat(dTilde(ps[i]), ncen(ps[i]), nsat(ps[i]), Type1)
              + (1.0 - ncen(ps[i])) * MeanNsat(dTilde(ps[i]), ncen(ps[i]), nsat(ps[i]), Type0) == nsat(ps[i])
  {
    forall i | 0 <= i < |ps|
      ensures ncen(ps[i]) * MeanNsat(dTilde(ps[i]), ncen(ps[i]), nsat(ps[i]), Type1)
              + (1.0 - ncen(ps[i])) * MeanNsat(dTilde(ps[i]), ncen(ps[i]), nsat(ps[i]), Type0) == nsat(ps[i])
    {
      MeanNsatConserves(dTilde(ps[i]), ncen(ps[i]), nsat(ps[i]));
    }
  }

  // ----- Polynomial type-1 fractions -----

  /** The clamped polynomial type-1 fractions of the polynomial model are
      admissible inputs to the engine, so at every halo the type-averaged
      conditioned central mean equals the baseline one. */
  lemma PolynomialCentralsConserve(c: seq<real>, ps: seq<real>, dTilde: real -> real, ncen: real -> real)
    requires forall i :: 0 <= i < |ps| ==> 0.0 <= ncen(ps[i]) <= 1.0
    ensures forall i :: 0 <= i < |ps| ==>
              ClampedPolynomial(c, ps)[i] * MeanNcen(dTilde(ps[i]), ClampedPolynomial(c, ps)[i], ncen(ps[i]), Type1)
              + (1.0 - ClampedPolynomial(c, ps)[i]) * MeanNcen(dTilde(ps[i]), ClampedPolynomial(c, ps)[i], ncen(ps[i]), Type0)
              == ncen(ps[i])
  {
    forall i | 0 <= i < |ps|
      ensures ClampedPolynomial(c, ps)[i] * MeanNcen(dTilde(ps[i]), ClampedPolynomial(c, ps)[i], ncen(ps[i]), Type1)
              + (1.0 - ClampedPolynomial(c, ps)[i]) * MeanNcen(dTilde(ps[i]), ClampedPolynomial(c, ps)[i], ncen(ps[i]), Type0)
              == ncen(ps[i])
    {
      MeanNcenConserves(dTilde(ps[i]), ClampedPolynomial(c, ps)[i], ncen(ps[i]));
    }
  }

  /** The same for satellites: with the clamped polynomial fractions the
      type-averaged conditioned satellite mean is the baseline one. */
  lemma PolynomialSatellitesConserve(c: seq<real>, ps: seq<real>, dTilde: real -> real, nsat: real -> real)
    requires forall i :: 0 <= i < |ps| ==> nsat(ps[i]) >= 0.0
    ensures forall i :: 0 <= i < |ps| ==>
              ClampedPolynomial(c, ps)[i] * MeanNsat(dTilde(ps[i]), ClampedPolynomial(c, ps)[i], nsat(ps[i]), Type1)
              + (1.0 - ClampedPolynomial(c, ps)[i]) * MeanNsat(dTilde(ps[i]), ClampedPolynomial(c, ps)[i], nsat(ps[i]), Type0)
              == nsat(ps[i])
  {
    forall i | 0 <= i < |ps|
      ensures ClampedPolynomial(c, ps)[i] * MeanNsat(dTilde(ps[i]), ClampedPolynomial(c, ps)[i], nsat(ps[i]), Type1)
              + (1.0 - ClampedPolynomial(c, ps)[i]) * MeanNsat(dTilde(ps[i]), ClampedPolynomial(c, ps)[i], nsat(ps[i]), Type0)
              == nsat(ps[i])
    {
      MeanNsatConserves(dTilde(ps[i]), ClampedPolynomial(c, ps)[i], nsat(ps[i]));
    }
  }

  /** Fed the clamped polynomial fraction of a bin, the classifier's type-0
      count is round(n·(1 - F1)) and lies in [0, n]. */
  lemma PolynomialSplitInRange(c: seq<real>, mid: real, n: nat)
    ensures var f := ClampedPolynomial(c, [mid])[0];
            SplitCount(n, f) == Round(n as real * (1.0 - f)) &&
            0 <= Round(n as real * (1.0 - f)) <= n
  {
    var f := ClampedPolynomial(c, [mid])[0];
    SplitWithinBin(n, f);
  }
}
