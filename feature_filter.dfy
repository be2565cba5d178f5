/**
 * The feature filter of the selection layer: a feature name and an inclusive
 * interval of accepted values, with setters that validate the bounds.
 */
module FeatureFilters {
  import opened Base

  /**
   * An item as the filter reads it: each feature name maps to what unary `+`
   * makes of the stored value (a number, or `NaN` for text that is not one).
   * A name the item lacks reads `undefined`, and `+undefined` is `NaN`.
   */
  type Item = map<string, JsNumber>

  function FeatureValue(item: Item, name: string): (v: JsNumber)
    ensures name !in item ==> v == NaN
    ensures name in item ==> v == item[name]
  {
    if name in item then item[name] else NaN
  }

  /** What a bound setter does: assign, or throw a `RangeError` with a message. */
  datatype SetOutcome = Assigned | RangeError(message: string)

  const UndefinedMessage: string := "value undefined in feature filter"
  const IntervalMessage: string := "supplied parameter must be in interval [0,1]"

  /**
   * The guard both bound setters run. `None` is `undefined`. The range test is
   * `v < 0 || v > 1`, both false for `NaN`, so `NaN` is let through.
   */
  function CheckBound(v: Option<JsNumber>): (r: SetOutcome)
    ensures v.None? ==> r == RangeError(UndefinedMessage)
    ensures v.Some? && v.value.Num? ==>
              (r.Assigned? <==> 0.0 <= v.value.value <= 1.0)
    ensures r.RangeError? && v.Some? ==> r.message == IntervalMessage
    ensures v == Some(NaN) ==> r.Assigned?
  {
    if v.None? then RangeError(UndefinedMessage)
    else if Below(v.value, Num(0.0)) || Below(Num(1.0), v.value) then RangeError(IntervalMessage)
    else Assigned
  }

  class FeatureFilter {
    var featureName: string
    var minValue: JsNumber
    var maxValue: JsNumber

    /**
     * Every omitted argument takes its default (`""`, 0, 0); nothing is
     * validated, so bounds outside [0,1] and `min > max` are accepted here.
     */
    constructor (name: Option<string>, min: Option<JsNumber>, max: Option<JsNumber>)
      ensures featureName == (if name.Some? then name.value else "")
      ensures minValue == (if min.Some? then min.value else Num(0.0))
      ensures maxValue == (if max.Some? then max.value else Num(0.0))
    {
      featureName := if name.Some? then name.value else "";
      minValue := if min.Some? then min.value else Num(0.0);
      maxValue := if max.Some? then max.value else Num(0.0);
    }

    /**
     * `value >= min && value <= max` on the item's value of the filtered
     * feature. The id and the optional second record do not take part.
     */
    function ItemConfirmsToFilter(id: int, item: Item, values: Option<Item>): (r: bool)
      reads this
      ensures r <==> Conforms(featureName, minValue, maxValue, item)
    {
      var value := FeatureValue(item, featureName);
      AtMost(minValue, value) && AtMost(value, maxValue)
    }

    method SetFeatureName(newName: string)
      modifies this
      ensures featureName == newName
      ensures minValue == old(minValue) && maxValue == old(maxValue)
    {
      featureName := newName;
    }

    method SetMinValue(v: Option<JsNumber>) returns (outcome: SetOutcome)
      modifies this
      ensures outcome == CheckBound(v)
      ensures minValue == (if outcome.Assigned? then v.value else old(minValue))
      ensures featureName == old(featureName) && maxValue == old(maxValue)
    {
      outcome := CheckBound(v);
      if outcome.Assigned? {
        minValue := v.value;
      }
    }

    method SetMaxValue(v: Option<JsNumber>) returns (outcome: SetOutcome)
      modifies this
      ensures outcome == CheckBound(v)
      ensures maxValue == (if outcome.Assigned? then v.value else old(maxValue))
      ensures featureName == old(featureName) && minValue == old(minValue)
    {
      outcome := CheckBound(v);
      if outcome.Assigned? {
        maxValue := v.value;
      }
    }
  }

  /**
   * The interval test on real numbers: the item's value of feature `name`
   * and both bounds are numbers, and the value lies in `[lo, hi]`.
   */
  predicate Conforms(name: string, lo: JsNumber, hi: JsNumber, item: Item)
  {
    var v := FeatureValue(item, name);
    v.Num? && lo.Num? && hi.Num? && lo.value <= v.value <= hi.value
  }

  /** The id and the optional second record do not take part in the test. */
  lemma ConfirmsIgnoresIdAndValues(f: FeatureFilter, id: int, id': int, item: Item, values: Option<Item>, values': Option<Item>)
    ensures f.ItemConfirmsToFilter(id, item, values) == f.ItemConfirmsToFilter(id', item, values')
  {
  }

  /** Both bounds are inclusive: a value equal to either bound conforms when min <= max. */
  lemma BoundsInclusive(name: string, lo: real, hi: real, item: Item)
    requires lo <= hi
    requires FeatureValue(item, name) == Num(lo) || FeatureValue(item, name) == Num(hi)
    ensures Conforms(name, Num(lo), Num(hi), item)
  {
  }

  /** A filter whose lower bound exceeds its upper bound lets no item through. */
  lemma EmptyIntervalRejectsAll(name: string, lo: real, hi: real, item: Item)
    requires lo > hi
    ensures !Conforms(name, Num(lo), Num(hi), item)
  {
  }

  /** An item whose feature is missing or not numeric never conforms. */
  lemma NaNNeverConforms(name: string, lo: JsNumber, hi: JsNumber, item: Item)
    requires FeatureValue(item, name) == NaN
    ensures !Conforms(name, lo, hi, item)
  {
  }

  /** Once a bound is `NaN` (the setters let it through), nothing conforms. */
  lemma NaNBoundRejectsAll(name: string, lo: JsNumber, hi: JsNumber, item: Item)
    requires lo == NaN || hi == NaN
    ensures !Conforms(name, lo, hi, item)
  {
  }

  /** A bound the setters would accept as a number: a real in [0,1]. */
  predicate InUnitInterval(b: JsNumber)
  {
    b.Num? && 0.0 <= b.value <= 1.0
  }

  /**
   * A bound in [0,1] stays in [0,1] under a setter call, whether the call
   * throws and changes nothing or assigns a value that passed the guard;
   * the one way out is `NaN`, which the guard lets through.
   */
  lemma SetterKeepsUnitBound(old_: JsNumber, v: Option<JsNumber>)
    requires InUnitInterval(old_)
    ensures var b := if CheckBound(v).Assigned? then v.value else old_;
            (v != Some(NaN) ==> InUnitInterval(b)) && (v == Some(NaN) ==> b == NaN)
  {
  }
}
