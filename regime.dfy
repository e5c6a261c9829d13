/** The regime classifier `assign_regime_type` of src/data.py: a four-band
    threshold function on the Democracy Index. */
module Regime {
  import opened Wrappers

  /** The four regime types, in the order `get_migration_matrix` lists them. */
  datatype Regime = Authoritarian | HybridRegime | FlawedDemocracy | FullDemocracy

  /** The label the source stores in the `RegimeType` column. */
  function Label(r: Regime): string
  {
    match r
    case Authoritarian => "Authoritarian"
    case HybridRegime => "Hybrid regime"
    case FlawedDemocracy => "Flawed democracy"
    case FullDemocracy => "Full democracy"
  }

  /** Position of a regime in the list `regimes` of `get_migration_matrix`. */
  function Band(r: Regime): (b: nat)
    ensures b < 4
  {
    match r
    case Authoritarian => 0
    case HybridRegime => 1
    case FlawedDemocracy => 2
    case FullDemocracy => 3
  }

  /** The regime at a band position; the inverse of Band. */
  function FromBand(b: nat): (r: Regime)
    requires b < 4
    ensures Band(r) == b
  {
    if b == 0 then Authoritarian
    else if b == 1 then HybridRegime
    else if b == 2 then FlawedDemocracy
    else FullDemocracy
  }

  /** Reading a label back; the inverse of Label. */
  function ParseLabel(s: string): (r: Option<Regime>)
    ensures r.Some? ==> Label(r.value) == s
  {
    if s == "Authoritarian" then Some(Authoritarian)
    else if s == "Hybrid regime" then Some(HybridRegime)
    else if s == "Flawed democracy" then Some(FlawedDemocracy)
    else if s == "Full democracy" then Some(FullDemocracy)
    else None
  }

  predicate IsRegimeLabel(s: string)
  {
    ParseLabel(s).Some?
  }

  /** `assign_regime_type` on a present index value: start from
      Authoritarian and overwrite it with the highest band whose inclusive
      lower bound the value reaches. */
  function AssignRegimeType(index: real): Regime
  {
    if index >= 8.0 then FullDemocracy
    else if index >= 6.0 then FlawedDemocracy
    else if index >= 4.0 then HybridRegime
    else Authoritarian
  }

  /** `assign_regime_type` applied to a cell that may be NaN: every comparison
      with NaN is false, so a missing value keeps the initial Authoritarian. */
  function ClassifyCell(index: Option<real>): Regime
  {
    match index
    case None => Authoritarian
    case Some(x) => AssignRegimeType(x)
  }

  lemma LabelParseRoundTrip(r: Regime)
    ensures ParseLabel(Label(r)) == Some(r)
  {
  }

  lemma LabelInjective(r1: Regime, r2: Regime)
    ensures Label(r1) == Label(r2) <==> r1 == r2
  {
    LabelParseRoundTrip(r1);
    LabelParseRoundTrip(r2);
  }

  lemma BandInjective(r1: Regime, r2: Regime)
    ensures Band(r1) == Band(r2) <==> r1 == r2
  {
  }

  /** The four bands, each with its inclusive lower bound. */
  lemma Thresholds(x: real)
    ensures AssignRegimeType(x) == FullDemocracy <==> 8.0 <= x
    ensures AssignRegimeType(x) == FlawedDemocracy <==> 6.0 <= x < 8.0
    ensures AssignRegimeType(x) == HybridRegime <==> 4.0 <= x < 6.0
    ensures AssignRegimeType(x) == Authoritarian <==> x < 4.0
  {
  }

  /** A higher index never lands in a lower band. */
  lemma Monotone(a: real, b: real)
    requires a <= b
    ensures Band(AssignRegimeType(a)) <= Band(AssignRegimeType(b))
  {
  }

  /** Every classification yields one of the four labels. */
  lemma ClassifyCellIsLabel(index: Option<real>)
    ensures IsRegimeLabel(Label(ClassifyCell(index)))
  {
    LabelParseRoundTrip(ClassifyCell(index));
  }
}
