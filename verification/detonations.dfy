/**
  The detonation record and the JavaScript truthiness tests the views apply to its
  optional fields. Floating-point fields are carried as `real` and never computed on.
 */
module Detonations {
  import opened Wrappers
  import opened Decimal

  /** One historical detonation event. `id` is the synthetic key the views use; fields the
      source data may omit or set to null are optional. */
  datatype Detonation = Detonation(
    id: int,
    detonatedBy: string,
    detonatedIn: string,
    dataSource: string,
    latitude: real,
    longitude: real,
    magnitudeBody: Option<real>,
    magnitudeSurface: Option<real>,
    depth: Option<real>,
    lowerYield: Option<real>,
    upperYield: Option<real>,
    purpose: string,
    name: Option<string>,
    deviceType: string,
    detonationDay: int,
    detonationMonth: int,
    detonationYear: int)

  /** A string field is truthy when present and not empty. */
  predicate TruthyText(t: Option<string>) {
    t.Some? && t.value != ""
  }

  /** A number field is truthy when present and not zero (NaN is not modelled). */
  predicate TruthyNumber(x: Option<real>) {
    x.Some? && x.value != 0.0
  }

  /** `text || fallback`: the text when it is truthy, the fallback otherwise. */
  function OrElse(t: Option<string>, fallback: string): (r: string)
    ensures TruthyText(t) ==> r == t.value
    ensures !TruthyText(t) ==> r == fallback
    ensures fallback != "" ==> r != ""
  {
    if TruthyText(t) then t.value else fallback
  }

  /** The string a record is keyed by: `id.toString()`. */
  function IdKey(d: Detonation): (k: string)
    ensures ParseInt(k) == Some(d.id)
  {
    ParseIntOfIntToString(d.id);
    IntToString(d.id)
  }

  /** Two records have the same key string exactly when they have the same id. */
  lemma IdKeyMatchesIff(a: Detonation, b: Detonation)
    ensures IdKey(a) == IdKey(b) <==> a.id == b.id
  {
  }
}
