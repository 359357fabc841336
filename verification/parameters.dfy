/**
 Parameter dictionaries of the occupation models: the Zheng et al. (2007)
 published-parameter table keyed by luminosity threshold, exact key-set
 validation, and the right-biased merge of a baseline dictionary with the
 assembly-bias or quenching parameters.
 */
module Parameters {

  /** A dictionary value: a scalar, or an array such as a list of abcissa. */
  datatype ParamValue = Scalar(x: real) | Array(xs: seq<real>)

  type ParamDict = map<string, ParamValue>

  datatype Option<T> = None | Some(value: T)

  /** The luminosity threshold argument: left out, a number (int or float),
      or a value of any other type. */
  datatype Threshold = Unspecified | Number(value: real) | NotANumber

  /** The conditions the models report: the first three are raised as
      TypeError, the last is the failure of a key check on a model that has
      no parameter dictionary. */
  datatype ConfigError = ThresholdNotScalar | ThresholdNotTabulated | KeySetMismatch | MissingParameterDict

  datatype Result<T> = Ok(value: T) | Err(error: ConfigError)
  {
    predicate IsFailure() { Err? }

    function PropagateFailure<U>(): Result<U>
      requires Err?
    {
      Err(error)
    }

    function Extract(): T
      requires Ok?
    {
      value
    }
  }

  const Zheng07Keys: set<string> :=
    {"logMmin_cen", "sigma_logM", "logM0_sat", "logM1_sat", "alpha_sat", "fconc"}

  /** The keys named by the satellite-central and polynomial assembly-bias
      models' validation. */
  const AssembiasKeys: set<string> :=
    {"assembias_abcissa", "satellite_assembias_ordinates", "central_assembias_ordinates"}

  /** The keys named by the quenching model's validation. */
  const QuenchingKeys: set<string> :=
    {"quenching_abcissa", "central_quenching_ordinates", "satellite_quenching_ordinates"}

  /** Threshold used when none is given. */
  const DefaultThreshold: real := -19.5

  /** Table 1 of Zheng et al. (2007), one entry per threshold row. */
  const LogMminCen: seq<real> := [11.35, 11.46, 11.6, 11.75, 12.02, 12.3, 12.79, 13.38, 14.22]
  const SigmaLogM: seq<real> := [0.25, 0.24, 0.26, 0.28, 0.26, 0.21, 0.39, 0.51, 0.77]
  const LogM0: seq<real> := [11.2, 10.59, 11.49, 11.69, 11.38, 11.84, 11.92, 13.94, 14.0]
  const LogM1: seq<real> := [12.4, 12.68, 12.83, 13.01, 13.31, 13.58, 13.94, 13.91, 14.69]
  const AlphaSat: seq<real> := [0.83, 0.97, 1.02, 1.06, 1.06, 1.12, 1.15, 1.04, 0.87]

  /** The thresholds of the table rows: -22, -21.5, ..., -18 reversed, so
      row k belongs to threshold -18 - k/2. */
  function ThresholdTable(): (table: seq<real>)
    ensures |table| == 9
    ensures forall k :: 0 <= k < 9 ==> table[k] == -18.0 - 0.5 * k as real
  {
    var ascending := seq(9, i requires 0 <= i < 9 => -22.0 + 0.5 * i as real);
    seq(9, k requires 0 <= k < 9 => ascending[8 - k])
  }

  /** The first position at or after `from` where `xs` holds x. */
  function FindFrom(xs: seq<real>, x: real, from: nat): (r: Option<nat>)
    requires from <= |xs|
    ensures r.Some? ==> from <= r.value < |xs| && xs[r.value] == x
    ensures r.Some? ==> forall i :: from <= i < r.value ==> xs[i] != x
    ensures r.None? ==> forall i :: from <= i < |xs| ==> xs[i] != x
    decreases |xs| - from
  {
    if from == |xs| then None
    else if xs[from] == x then Some(from)
    else FindFrom(xs, x, from + 1)
  }

  /** The table row of a threshold, if it has one. The thresholds are
      distinct, so the first match is the only one. */
  function ThresholdRow(x: real): (r: Option<nat>)
    ensures r.Some? <==> x in ThresholdTable()
    ensures forall k :: 0 <= k < 9 && x == ThresholdTable()[k] ==> r == Some(k)
  {
    var table := ThresholdTable();
    TableDistinct(table);
    FindFrom(table, x, 0)
  }

  /** The tabulated thresholds are pairwise distinct. */
  lemma TableDistinct(table: seq<real>)
    requires table == ThresholdTable()
    ensures forall j, k :: 0 <= j < |table| && 0 <= k < |table| && table[j] == table[k] ==> j == k
  {
  }

  /** The published parameters of table row k; `fconc` is always 1. */
  function Row(k: nat): (d: ParamDict)
    requires k < 9
    ensures d.Keys == Zheng07Keys
  {
    map["logMmin_cen" := Scalar(LogMminCen[k]),
        "sigma_logM" := Scalar(SigmaLogM[k]),
        "logM0_sat" := Scalar(LogM0[k]),
        "logM1_sat" := Scalar(LogM1[k]),
        "alpha_sat" := Scalar(AlphaSat[k]),
        "fconc" := Scalar(1.0)]
  }

  /** `published_parameters`: the Zheng07 parameters for a threshold. No
      threshold means -19.5; a non-numeric one or one outside the table is
      refused. */
  function PublishedParameters(t: Threshold): (r: Result<ParamDict>)
    ensures t.NotANumber? ==> r == Err(ThresholdNotScalar)
    ensures t.Unspecified? ==> r == Ok(Row(3))
    ensures t.Number? ==> (r.Ok? <==> t.value in ThresholdTable())
    ensures t.Number? && r.Err? ==> r.error == ThresholdNotTabulated
    ensures forall k :: 0 <= k < 9 && t == Number(ThresholdTable()[k]) ==> r == Ok(Row(k))
    ensures r.Ok? ==> r.value.Keys == Zheng07Keys
  {
    var x :- match t
      case Unspecified => Ok(DefaultThreshold)
      case Number(v) => Ok(v)
      case NotANumber => Err(ThresholdNotScalar);
    match ThresholdRow(x)
    case Some(k) => Ok(Row(k))
    case None => Err(ThresholdNotTabulated)
  }

  /** Different tabulated thresholds give different parameter sets (the
      logMmin_cen column increases strictly down the table), so the
      published parameters identify the threshold they came from. */
  lemma PublishedParametersInjective(x: real, y: real)
    requires PublishedParameters(Number(x)).Ok? && PublishedParameters(Number(y)).Ok?
    requires PublishedParameters(Number(x)) == PublishedParameters(Number(y))
    ensures x == y
  {
    var table := ThresholdTable();
    var j :| 0 <= j < 9 && table[j] == x;
    var k :| 0 <= k < 9 && table[k] == y;
    assert PublishedParameters(Number(x)) == Ok(Row(j));
    assert PublishedParameters(Number(y)) == Ok(Row(k));
    RowDeterminesIndex(j, k);
  }

  /** Distinct table rows are distinct parameter sets. */
  lemma RowDeterminesIndex(j: nat, k: nat)
    requires j < 9 && k < 9 && Row(j) == Row(k)
    ensures j == k
  {
    assert Row(j)["logMmin_cen"] == Scalar(LogMminCen[j]);
    assert Row(k)["logMmin_cen"] == Scalar(LogMminCen[k]);
    LogMminCenIncreasing();
  }

  /** The logMmin_cen column increases strictly with the row. */
  lemma LogMminCenIncreasing()
    ensures forall j, k :: 0 <= j < k < |LogMminCen| ==> LogMminCen[j] < LogMminCen[k]
  {
  }

  /** `require_correct_keys`: a dictionary passes only if its key set is
      exactly the required one. */
  function RequireCorrectKeys(d: ParamDict, required: set<string>): (r: Result<ParamDict>)
    ensures r.Ok? <==> d.Keys == required
    ensures r.Ok? ==> r.value == d
    ensures r.Err? ==> r.error == KeySetMismatch
  {
    if d.Keys == required then Ok(d) else Err(KeySetMismatch)
  }

  /** The key set Zheng07's validation compares against, read off the
      published parameters of threshold -20, is the six Zheng07 keys. */
  lemma Zheng07ReferenceKeys()
    ensures PublishedParameters(Number(-20.0)).Ok?
    ensures PublishedParameters(Number(-20.0)).value.Keys == Zheng07Keys
  {
    assert ThresholdTable()[4] == -20.0;
  }

  /** `Zheng07_HOD_Model(parameter_dict, threshold)`. The base-class
      initialiser leaves the model without a parameter dictionary, and only
      the branch without a supplied dictionary fills it in, so a supplied
      dictionary is discarded and the key check then fails on the missing
      one. Without one, the published parameters always pass the check. */
  function Zheng07Parameters(supplied: Option<ParamDict>, t: Threshold): (r: Result<ParamDict>)
    ensures supplied.Some? ==> r == Err(MissingParameterDict)
    ensures supplied.None? ==> r == PublishedParameters(t)
    ensures r.Ok? ==> r.value.Keys == Zheng07Keys
  {
    if supplied.Some? then Err(MissingParameterDict)
    else
      var d :- PublishedParameters(t);
      Zheng07ReferenceKeys();
      RequireCorrectKeys(d, PublishedParameters(Number(-20.0)).value.Keys)
  }

  /** `dict(a.items() + b.items())`: every key of either, with b's value
      winning where both have the key. */
  function Merge(a: ParamDict, b: ParamDict): (r: ParamDict)
    ensures r.Keys == a.Keys + b.Keys
    ensures forall k :: k in b ==> r[k] == b[k]
    ensures forall k :: k in a && k !in b ==> r[k] == a[k]
  {
    a + b
  }

  /** When the key sets are disjoint the merge order does not matter. */
  lemma MergeDisjointCommutes(a: ParamDict, b: ParamDict)
    requires a.Keys !! b.Keys
    ensures Merge(a, b) == Merge(b, a)
  {
  }

  /** Construction of a composite model: build the baseline model from the
      threshold alone, validate the supplied extra parameters against the
      required key set (or take the defaults when none are supplied), then
      merge the extra parameters over the baseline ones. */
  function ComposeParameters(baseline: Result<ParamDict>, supplied: Option<ParamDict>,
                             defaults: ParamDict, required: set<string>): (r: Result<ParamDict>)
    ensures r.Ok? <==> baseline.Ok? && (supplied.None? || supplied.value.Keys == required)
    ensures baseline.Err? ==> r == baseline
    ensures r.Ok? && supplied.Some? ==> r.value == Merge(baseline.value, supplied.value)
    ensures r.Ok? && supplied.None? ==> r.value == Merge(baseline.value, defaults)
    ensures baseline.Ok? && supplied.Some? && supplied.value.Keys != required ==> r == Err(KeySetMismatch)
  {
    var base :- baseline;
    var extra :- match supplied
      case None => Ok(defaults)
      case Some(d) => RequireCorrectKeys(d, required);
    Ok(Merge(base, extra))
  }

  /** The construction shared by `Satcen_Correlation_Polynomial_HOD_Model`
      and `vdB03_Quenching_Model` over a Zheng07 baseline: supplied extra
      parameters must have exactly the keys of the model's own defaults, and
      the defaults are taken when none are supplied. */
  function CompositeParameters(t: Threshold, supplied: Option<ParamDict>, defaults: ParamDict): (r: Result<ParamDict>)
    ensures r.Ok? <==> PublishedParameters(t).Ok? && (supplied.None? || supplied.value.Keys == defaults.Keys)
    ensures r.Ok? ==> r.value.Keys == Zheng07Keys + defaults.Keys
    ensures r.Ok? ==> forall k :: k in defaults ==>
                        r.value[k] == (if supplied.Some? then supplied.value[k] else defaults[k])
    ensures r.Ok? ==> forall k :: k in Zheng07Keys && k !in defaults ==>
                        r.value[k] == PublishedParameters(t).value[k]
  {
    ComposeParameters(Zheng07Parameters(None, t), supplied, defaults, defaults.Keys)
  }

  /** `Polynomial_Assembly_Biased_HOD_Model(threshold,
      assembias_parameter_dict)`: when nothing is supplied the assembly-bias
      defaults are merged in, but supplied parameters are checked against
      the keys of the satellite-central defaults. */
  function PolynomialAssembiasParameters(t: Threshold, supplied: Option<ParamDict>,
                                         assembiasDefaults: ParamDict, satcenDefaults: ParamDict): (r: Result<ParamDict>)
    ensures r.Ok? <==> PublishedParameters(t).Ok? && (supplied.None? || supplied.value.Keys == satcenDefaults.Keys)
    ensures r.Ok? && supplied.Some? ==> r.value.Keys == Zheng07Keys + satcenDefaults.Keys
    ensures r.Ok? && supplied.None? ==> r.value.Keys == Zheng07Keys + assembiasDefaults.Keys
    ensures r.Ok? && supplied.None? ==> forall k :: k in assembiasDefaults ==> r.value[k] == assembiasDefaults[k]
    ensures r.Ok? && supplied.None? ==> forall k :: k in Zheng07Keys && k !in assembiasDefaults ==>
                                          r.value[k] == PublishedParameters(t).value[k]
    ensures r.Ok? && supplied.Some? ==> forall k :: k in supplied.value ==> r.value[k] == supplied.value[k]
    ensures r.Ok? && supplied.Some? ==> forall k :: k in Zheng07Keys && k !in supplied.value ==>
                                          r.value[k] == PublishedParameters(t).value[k]
  {
    ComposeParameters(Zheng07Parameters(None, t), supplied, assembiasDefaults, satcenDefaults.Keys)
  }

  /** No assembly-bias or quenching key is a Zheng07 key. */
  lemma KeySetsDisjoint()
    ensures Zheng07Keys !! AssembiasKeys
    ensures Zheng07Keys !! QuenchingKeys
  {
  }

  /** With the satellite-central or the quenching key set as defaults (both
      disjoint from the Zheng07 keys), a composite model built from a
      threshold with published parameters and well-keyed extra parameters
      exists, keeps every published Zheng07 parameter and adds exactly the
      defaults' keys. */
  lemma CompositeKeepsBaseline(t: Threshold, supplied: Option<ParamDict>, defaults: ParamDict)
    requires defaults.Keys == AssembiasKeys || defaults.Keys == QuenchingKeys
    requires PublishedParameters(t).Ok?
    requires supplied.None? || supplied.value.Keys == defaults.Keys
    ensures CompositeParameters(t, supplied, defaults).Ok?
    ensures CompositeParameters(t, supplied, defaults).value.Keys == Zheng07Keys + defaults.Keys
    ensures forall k :: k in Zheng07Keys ==>
              CompositeParameters(t, supplied, defaults).value[k] == PublishedParameters(t).value[k]
  {
    KeySetsDisjoint();
  }
}
