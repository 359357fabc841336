# Assembly-biased halo occupation: a Dafny model

This project models the occupation-modulation core of `halotools/halo_occupation.py`. That module builds mock galaxy catalogs from halo occupation distribution (HOD) models with assembly bias. It splits halos of the same primary property p (log halo mass) into two types according to a secondary property. It then multiplies the baseline mean central and satellite occupations ⟨N⟩(p) by a *destruction function* D(p | h), chosen so that the type-averaged occupation keeps the baseline value:

    F1(p)·D(p|1) + F0(p)·D(p|0) = 1,   F0 = 1 − F1.

The model has these modules:

- `Numerics`:
  - integer powers;
  - Python 2 `round`, which rounds halves away from zero;
  - the length of a Python slice `xs[0:k]`;
  - the [0,1] clamp.
- `Polynomial`:
  - the term-by-term polynomial evaluation the models use;
  - Horner's scheme as an independent reference;
  - the Vandermonde layout handed to the linear solver, and what a solution of that system means.
- `Destruction`, the engine:
  - type fractions;
  - the maximum and minimum admissible destructions;
  - the constrained type-1 destruction (floor at 0, cap at the maximum, override to 1 when F1 = 1);
  - the derived type-0 destruction (1 − d1·F1)/(1 − F1);
  - the conditioned means D·⟨N⟩;
  - catalog lifts of all of the above;
  - the conservation law, non-negativity, the boundary override, the ceilings, and the absence of assembly bias for a unit unconstrained function.
- `Classifier`, `halo_type_calculator`. In every occupied bin, the round(n·(1 − F1)) halos with the lowest secondary property become type 0 and all others stay type 1. The method is proved to give:
  - exactly that count in every bin;
  - the ordering within bins;
  - locality: processing one bin changes no halo outside it.
- `Parameters`:
  - the Zheng et al. (2007) table keyed by luminosity threshold;
  - the default threshold −19.5 and the `TypeError` paths;
  - exact key-set validation;
  - the right-biased merge `dict(a.items() + b.items())`;
  - the composite models' constructors.
- `Models`:
  - Zheng07's satellite occupation, which is exactly 0 for halo masses up to M0;
  - the satellite-central correlation model's fractions (central F1 ≡ 1, satellite F1 = ⟨Ncen⟩);
  - the clamped polynomial fractions fed through the engine and the classifier.

Modelling choices:

- Arithmetic is on exact `real`s.
- The per-halo numpy array operations become pure functions of one halo's values, lifted over sequences with `seq` comprehensions.
- Halo types are a two-valued datatype.
- The source leaves the ordering of ties to `np.argsort`. The classifier instead takes, for every bin, a *rank order*: the catalog positions of the bin's members sorted ascending by the secondary property. It accepts any such order, so no tie-break is fixed.
- The baseline ⟨Ncen⟩ (an error function), the satellite power law, the unconstrained destruction functions and the type-1 fraction functions enter as uninterpreted functions (`real -> real`) or values.
- The per-halo bin index and the per-bin type-1 fraction at the bin midpoint are inputs.

## Model

| member | source | states |
|---|---|---|
| Numerics.Round | halotools/halo_occupation.py:1165-1167 | Python 2 rounding of the bin split: the result is within 1/2 of its argument, and a tie is broken away from zero |
| Numerics.RoundWithin | halotools/halo_occupation.py:1165-1167 | rounding n·(1 − F1) for a fraction F1 gives a count between 0 and n |
| Numerics.SliceStop | halotools/halo_occupation.py:1178 | the number of entries `sort[0:k]` selects: k inside [0, n], n above, n + k for a negative k down to −n, 0 below that |
| Numerics.Clamp01 | halotools/halo_occupation.py:1443-1446 | negative values become 0, values above 1 become 1, values in [0,1] are unchanged, and the result is always in [0,1] |
| Numerics.ClampIdempotent | halotools/halo_occupation.py:1705-1708 | clamping a clamped fraction changes nothing |
| Polynomial.PolyEvalIsHorner | halotools/halo_occupation.py:1310-1311 | the term-by-term sum Σ cₙ·pⁿ equals Horner's evaluation for every coefficient list and point |
| Polynomial.PolyEvalHead | halotools/halo_occupation.py:1310-1311 | the sum of powers splits as c₀ + p·(sum of the remaining coefficients) |
| Polynomial.SumHead | halotools/halo_occupation.py:1310-1311 | every partial sum of the first n terms splits as c₀ + p·(partial sum of the next n − 1 coefficients) |
| Polynomial.PolynomialModel | halotools/halo_occupation.py:1303-1313 | accumulating `coeff*p**n` over the coefficients yields, at every halo, the polynomial's value by Horner's scheme |
| Polynomial.ClampedPolynomial | halotools/halo_occupation.py:1695-1710 | quenched fractions lie in [0,1], equal the polynomial where it is in [0,1], and are 0 or 1 where it is below or above |
| Polynomial.ClampedPolynomialIdempotent | halotools/halo_occupation.py:1705-1708 | clamped quenched fractions are fixed points of the clamp |
| Polynomial.Columns | halotools/halo_occupation.py:150-153 | appending `abcissa**i` for i = 1 … N−1 to a column of ones gives a flat buffer of N·N entries with abcissa[j]^i at position i·N + j |
| Polynomial.Vandermonde | halotools/halo_occupation.py:150-155 | after stacking, reshaping and transposing, row j holds the powers of abcissa[j] and entry (j, i) is abcissa[j]^i |
| Polynomial.DotPowers | halotools/halo_occupation.py:150-158 | a Vandermonde row times the coefficients is the polynomial at that row's abcissa |
| Polynomial.SolveMeansInterpolate | halotools/halo_occupation.py:107-160 | coefficients solve the Vandermonde system exactly when the polynomial passes through every (abcissa, ordinate) point |
| Polynomial.DuplicateAbcissaUnsolvable | halotools/halo_occupation.py:132-135 | a repeated abcissa with different ordinates admits no coefficients at all |
| Destruction.TypeFraction | halotools/halo_occupation.py:676-735 | type-1 halos get F1, type-0 halos get 1 − F1, and fractions stay fractions |
| Destruction.InverseOrZero | halotools/halo_occupation.py:774-775 | 1/x for positive x (so r·x = 1), 0 otherwise; never negative, and at least 1 for x in (0,1] |
| Destruction.MaximumDestructionCentrals | halotools/halo_occupation.py:738-794 | the maximum is non-negative, its product with F_h and with ⟨Ncen⟩ is at most 1, it is 0 when either is 0, and otherwise one of the two products is exactly 1 |
| Destruction.MaximumDestructionSatellites | halotools/halo_occupation.py:842-875 | the maximum is 1/F_h for positive F_h, 0 otherwise, and never negative |
| Destruction.MinimumDestructionCentrals | halotools/halo_occupation.py:796-839 | the minimum is non-negative, 0 when F_h or ⟨Ncen⟩ is 0, and otherwise either 0 or exactly the value whose product with F_h is 1 − F_other/⟨Ncen⟩, so its product with F_h is at least that bound |
| Destruction.ConstrainedType1 | halotools/halo_occupation.py:1008-1028 | the type-1 value is d̃ floored at 0 and capped at the maximum, and exactly 1 wherever F1 = 1 |
| Destruction.ResolveType | halotools/halo_occupation.py:1035-1052 | type-1 halos keep d1; type-0 halos get d with d·(1 − F1) = 1 − d1·F1 when F0 > 0, and 0 when F1 = 1 |
| Destruction.DestructionCentrals | halotools/halo_occupation.py:967-1054 | both branches are ≥ 0; at F1 = 1 type 1 gets exactly 1 and type 0 gets 0; below F1 = 1 the type-1 value is d̃ clamped to [0, central maximum]: d̃ itself inside that range, 0 below it, the maximum above it |
| Destruction.DestructionSatellites | halotools/halo_occupation.py:878-965 | both branches are ≥ 0; at F1 = 1 type 1 gets 1 and type 0 gets 0; below F1 = 1 the type-1 value is d̃ clamped to [0, satellite maximum], where the maximum is 1/F1, or 0 at F1 = 0: d̃ itself inside that range, 0 below it, the maximum above it |
| Destruction.Type0NonNegative | halotools/halo_occupation.py:1041-1046 | because d1·F1 ≤ 1, the type-0 destruction (1 − d1·F1)/(1 − F1) is never negative |
| Destruction.ResolveConserves | halotools/halo_occupation.py:1041-1049 | the type-0 branch is exactly what makes F1·d1 + F0·d0 = 1 |
| Destruction.CentralsConserve | halotools/halo_occupation.py:1008-1052 | conservation for centrals: F1·D(p\|1) + F0·D(p\|0) = 1 for every unconstrained value and every fraction |
| Destruction.SatellitesConserve | halotools/halo_occupation.py:919-963 | conservation for satellites: F1·D(p\|1) + F0·D(p\|0) = 1 |
| Destruction.MeanNcen | halotools/halo_occupation.py:1056-1078 | the conditioned central mean D·⟨Ncen⟩ is ≥ 0, at most 1 for type-1 halos, and the baseline mean where F1 = 1 |
| Destruction.CentralType1Ceiling | halotools/halo_occupation.py:769-794 | the central cap keeps D(p\|1)·⟨Ncen⟩ ≤ 1 |
| Destruction.MeanNsat | halotools/halo_occupation.py:1080-1102 | the conditioned satellite mean D·⟨Nsat⟩ is ≥ 0; at F1 = 1 it is the baseline for type 1 and 0 for type 0 |
| Destruction.MeanNcenConserves | halotools/halo_occupation.py:1056-1078 | the type-averaged conditioned central mean is the baseline ⟨Ncen⟩ |
| Destruction.MeanNsatConserves | halotools/halo_occupation.py:1080-1102 | the type-averaged conditioned satellite mean is the baseline ⟨Nsat⟩ |
| Destruction.UnitType1 | halotools/halo_occupation.py:1015-1021 | d̃ ≡ 1 passes the floor and the cap unchanged whenever the maximum is at least 1 |
| Destruction.UnitType0 | halotools/halo_occupation.py:1041-1046 | a type-1 value of 1 gives a type-0 value of 1 |
| Destruction.UnitCentralsNoAssemblyBias | halotools/halo_occupation.py:602-603 | with d̃_cen ≡ 1, every halo of a type with positive fraction keeps its baseline central mean |
| Destruction.UnitSatellitesNoAssemblyBias | halotools/halo_occupation.py:625-626 | with d̃_sat ≡ 1, every halo of a type with positive fraction keeps its baseline satellite mean |
| Destruction.CentralBoundsConsistent | halotools/halo_occupation.py:796-839 | the minimum central destruction never exceeds the maximum |
| Destruction.CentralType0MeanBoundedByMinimum | halotools/halo_occupation.py:796-839 | a type-1 value at or above the minimum keeps the type-0 conditioned central mean ≤ 1 |
| Destruction.CentralType0MeanCanExceedOne | halotools/halo_occupation.py:1015-1052 | without that floor, F1 = 1/2, ⟨Ncen⟩ = 1 and d̃ = 0 give a type-0 conditioned central mean of 2 |
| Destruction.DestructionCentralsAll | halotools/halo_occupation.py:967-1054 | over a catalog, halo by halo: one value per halo, all ≥ 0, 1 or 0 by type wherever F1 = 1, and for a type-1 halo with F1 < 1 the halo's d̃ clamped to [0, central maximum] |
| Destruction.DestructionSatellitesAll | halotools/halo_occupation.py:878-965 | over a catalog, halo by halo: one value per halo, all ≥ 0, 1 or 0 by type wherever F1 = 1, and for a type-1 halo with F1 < 1 the halo's d̃ clamped to [0, satellite maximum] |
| Destruction.CatalogCentralsConserve | halotools/halo_occupation.py:1008-1052 | the central conservation law holds at every halo of a catalog |
| Destruction.CatalogSatellitesConserve | halotools/halo_occupation.py:919-963 | the satellite conservation law holds at every halo of a catalog |
| Classifier.SplitCount | halotools/halo_occupation.py:1165-1178 | a bin's type-0 count never exceeds its occupancy, and is round(n·(1 − F1)) for a fraction F1 |
| Classifier.SplitWithinBin | halotools/halo_occupation.py:1145-1167 | for a fraction F1 the rounded split is between 0 and n |
| Classifier.MarkLowest | halotools/halo_occupation.py:1178 | the halos at the first k rank positions become type 0 and every other halo keeps its type |
| Classifier.MarkLowestIsLocal | halotools/halo_occupation.py:1156-1182 | processing one bin changes no halo of another bin |
| Classifier.HaloTypeCalculator | halotools/halo_occupation.py:1104-1184 | a halo is type 0 exactly when it is among its bin's lowest round(n·(1 − F1)) by rank; every bin has exactly that many type-0 halos; within a bin, type-0 secondary values are ≤ type-1 ones |
| Classifier.DistinctCard | halotools/halo_occupation.py:1162-1163 | a list of distinct positions has as many elements as its set |
| Classifier.RankOrderLength | halotools/halo_occupation.py:1156-1163 | an argsort of a bin has one entry per member of the bin |
| Classifier.Type0Count | halotools/halo_occupation.py:1165-1182 | each bin ends with exactly SplitCount type-0 halos |
| Classifier.Type0BelowType1 | halotools/halo_occupation.py:1162-1178 | within a bin, every type-0 halo's secondary property is ≤ every type-1 halo's |
| Parameters.ThresholdTable | halotools/halo_occupation.py:437-438 | the reversed `arange(-22, -17.5, 0.5)` has nine entries, entry k being −18 − k/2 |
| Parameters.FindFrom | halotools/halo_occupation.py:440 | the position found holds the threshold and no earlier one does; no position is found only if none holds it |
| Parameters.ThresholdRow | halotools/halo_occupation.py:440-441 | a threshold has a row exactly when it is tabulated, and the row of −18 − k/2 is k |
| Parameters.TableDistinct | halotools/halo_occupation.py:437-441 | the nine thresholds are distinct, so `np.where` finds at most one row |
| Parameters.Row | halotools/halo_occupation.py:442-449 | a table row carries exactly the six Zheng07 keys |
| Parameters.PublishedParameters | halotools/halo_occupation.py:396-453 | no threshold means the −19.5 row; a non-number or an untabulated number is refused; −18 − k/2 yields row k; every result has the six keys |
| Parameters.PublishedParametersInjective | halotools/halo_occupation.py:431-449 | two tabulated thresholds with the same published parameters are equal |
| Parameters.RequireCorrectKeys | halotools/halo_occupation.py:455-462 | a dictionary passes exactly when its key set equals the required one, and is then unchanged |
| Parameters.Zheng07ReferenceKeys | halotools/halo_occupation.py:460 | the reference key set read off the −20 row is the six Zheng07 keys |
| Parameters.Zheng07Parameters | halotools/halo_occupation.py:278-285 | without a supplied dictionary the published parameters pass validation; a supplied dictionary is lost and the construction fails |
| Parameters.Merge | halotools/halo_occupation.py:1231-1232 | the merged keys are the union; the right-hand value wins on shared keys and left-hand values survive elsewhere |
| Parameters.MergeDisjointCommutes | halotools/halo_occupation.py:1385-1386 | with disjoint key sets the order of the merge does not matter |
| Parameters.ComposeParameters | halotools/halo_occupation.py:1197-1232 | construction succeeds exactly when the baseline does and any supplied dictionary has the required keys; the result is the baseline merged with the supplied or default parameters |
| Parameters.CompositeParameters | halotools/halo_occupation.py:1192-1232 | satellite-central construction (`vdB03_Quenching_Model` follows the same rule with the quenching defaults): it succeeds exactly when the threshold has published parameters (unspecified, or tabulated) and a supplied dictionary has the defaults' key set; the keys are the Zheng07 keys plus the defaults' keys; the extra values come from the supplied dictionary, or the defaults when none is supplied; untouched baseline values are the published ones |
| Parameters.PolynomialAssembiasParameters | halotools/halo_occupation.py:1342-1386 | a supplied dictionary is checked against the satellite-central default keys and its values are kept on its keys, while the polynomial defaults are what is merged when none is supplied; in both cases every Zheng07 key not overridden keeps its published value |
| Parameters.KeySetsDisjoint | halotools/halo_occupation.py:1327-1334 | no assembly-bias key and no quenching key is a Zheng07 key |
| Parameters.CompositeKeepsBaseline | halotools/halo_occupation.py:1605-1609 | with the satellite-central or the quenching key set as defaults, a threshold with published parameters and a well-keyed dictionary (or none) always give a model that keeps every published Zheng07 parameter and adds exactly the defaults' keys |
| Models.Zheng07MeanNsat | halotools/halo_occupation.py:356-366 | the satellite mean is exactly 0 for masses up to M0, non-negative, at most the power law, and nonzero exactly when M > M0 and both factors are nonzero |
| Models.MeanNcenAll | halotools/halo_occupation.py:1056-1078 | over a catalog: conditioned central means are ≥ 0, at most 1 for type-1 halos, and the baseline where F1 = 1 |
| Models.MeanNsatAll | halotools/halo_occupation.py:1080-1102 | over a catalog: conditioned satellite means are ≥ 0, and where F1 = 1 they are the baseline (type 1) or 0 (type 0) |
| Models.UnitCatalogCentralsUnbiased | halotools/halo_occupation.py:602-603 | a unit unconstrained central function leaves every represented halo of a catalog at its baseline central mean |
| Models.ZeroFractionCentralsUnbiased | halotools/halo_occupation.py:641-643 | at F1 = 0, whatever the unconstrained function, type-0 halos keep the baseline central mean |
| Models.ZeroFractionSatellitesUnbiased | halotools/halo_occupation.py:663-665 | at F1 = 0, whatever the unconstrained function, type-0 halos keep the baseline satellite mean |
| Models.SatcenType1FractionCentrals | halotools/halo_occupation.py:1274-1285 | satellite-central centrals: every fraction is a valid fraction with no type-0 share |
| Models.SatcenType1FractionSatellites | halotools/halo_occupation.py:1287-1301 | satellite-central satellites: fractions are valid, and the type-0 share is 1 − ⟨Ncen⟩ |
| Models.SatcenCentralsUnbiased | halotools/halo_occupation.py:1282-1284 | every type-1 central keeps the baseline mean whatever the polynomial, and the classifier makes no type-0 halo |
| Models.SatcenSatellitesConserve | halotools/halo_occupation.py:1295-1301 | the ⟨Ncen⟩-weighted average of the two conditioned satellite means is the baseline ⟨Nsat⟩ |
| Models.PolynomialCentralsConserve | halotools/halo_occupation.py:1429-1447 | clamped polynomial type-1 fractions keep the type-averaged central mean at the baseline |
| Models.PolynomialSatellitesConserve | halotools/halo_occupation.py:1449-1466 | clamped polynomial type-1 fractions keep the type-averaged satellite mean at the baseline |
| Models.PolynomialSplitInRange | halotools/halo_occupation.py:1145-1167 | with a clamped polynomial fraction at a bin midpoint, the classifier's split is round(n·(1 − F1)) and lies in [0, n] |

## Left out

- Transcendental floating-point maths is not modelled: `erf`, `10.**`, `**alpha_sat`, `anatoly_concentration` and `cumulative_NFW_PDF`. ⟨Ncen⟩ is an uninterpreted function into [0,1]. The satellite power law is a non-negative value. Zheng07's comparison of 10^logM with 10^logM0 is taken on the masses themselves.
- `np.linalg.solve` is a foreign LAPACK call. Coefficients are taken as given. Only the matrix layout and what a solution means are modelled.
- The bin-edge arithmetic of `halo_type_calculator` is floating-point edge computation, so it is not modelled: `linspace`, `digitize`, the bin-spacing and epsilon defaults, and the midpoints. The bin of every halo and the type-1 fraction at each bin midpoint are inputs.
- Floating-point rounding is not modelled. Arithmetic is exact, so equalities such as F1 == 1 and the conservation law hold exactly.
- Classifier.HaloTypeCalculator: `np.argsort` is replaced by any rank order the caller supplies, so no particular tie-break is proved.
- Destruction.DestructionCentrals: requires F1 in [0,1], which the code assumes. Outside that range the code does not fail. For F1 < 0, F0 = 1 − F1 is positive, so the first type-0 branch still gives d0 = (1 − d1·F1)/(1 − F1). For F1 > 1, neither type-0 branch fires and d0 silently keeps d1. Destruction.ResolveType models all three cases.
- Destruction.DestructionSatellites: requires F1 in [0,1], for the same reason.
- The docstring claims that an identically zero unconstrained function gives no assembly bias. The code gives d1 = 0 and d0 = 1/(1 − F1), so this is not proved. The unit-function and F1 = 0 or 1 claims are proved.
- `minimum_destruction_centrals` is never called by `destruction_centrals`. It is modelled and its consequences are proved, but the engine does not apply it, as in the code.
- Warnings, `publication` lists, `isinstance` checks on the baseline model, the abstract-base-class stubs, the `six` metaclass and the `self.threshold` side effects are not modelled.
- `Assembly_Biased_HOD_Quenching_Model` is fully abstract, so it is not modelled.
- Parameters.PublishedParameters: a threshold is a number or something else. Python's `bool` counts as an `int` and so arrives as a number.
- Parameters.Zheng07Parameters: the failure on a supplied dictionary is an `AttributeError` on a missing dictionary in the code. It is modelled only as the distinct error `MissingParameterDict`.
- The constructor argument `baseline_hod_parameter_dict` of the composite models is never used by the code (the attribute of the same name holds the baseline's published parameters), so it is not a parameter of the model.
- The default parameter dictionaries live in the `defaults` module, which is not part of this model. They are parameters of the constructors.
- Concentrations, satellite positions, mock population and the halo catalog I/O are not modelled.
