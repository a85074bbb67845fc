/** The category classifier: four risk levels, totally ordered by their
    position in CategoryOrder. */
module Categories {

  datatype Category = Stable | Tight | Fragile | Critical

  /** Safest first; the position is the rank used for "worst" and for ranking. */
  const CategoryOrder: seq<Category> := [Stable, Tight, Fragile, Critical]

  const CriticalMargin: real := 1.8
  const FragileMargin: real := 3.0
  const TightMargin: real := 4.5

  /** `CATEGORY_ORDER.indexOf(c)`. */
  function Rank(c: Category): (r: nat)
    ensures r < |CategoryOrder| && CategoryOrder[r] == c
    ensures forall i :: 0 <= i < r ==> CategoryOrder[i] != c
  {
    match c
    case Stable => 0
    case Tight => 1
    case Fragile => 2
    case Critical => 3
  }

  predicate IsFragileOrCritical(c: Category) {
    c == Fragile || c == Critical
  }

  /** First matching rule wins: over threshold or margin below 1.8 is Critical,
      below 3.0 Fragile, below 4.5 Tight, otherwise Stable. */
  function DetermineCategory(thermalMargin: real, inletTemp: real, threshold: real): (r: Category)
    ensures r == Critical <==> inletTemp > threshold || thermalMargin < CriticalMargin
    ensures IsFragileOrCritical(r) <==> inletTemp > threshold || thermalMargin < FragileMargin
    ensures r == Stable <==> inletTemp <= threshold && thermalMargin >= TightMargin
  {
    var overThreshold := inletTemp > threshold;
    if overThreshold || thermalMargin < CriticalMargin then Critical
    else if thermalMargin < FragileMargin then Fragile
    else if thermalMargin < TightMargin then Tight
    else Stable
  }

  /** A smaller margin never gives a safer category, provided the first
      reading is over its threshold whenever the second one is. */
  lemma MarginMonotone(m1: real, inlet1: real, threshold1: real,
                       m2: real, inlet2: real, threshold2: real)
    requires m1 <= m2
    requires inlet2 > threshold2 ==> inlet1 > threshold1
    ensures Rank(DetermineCategory(m1, inlet1, threshold1)) >= Rank(DetermineCategory(m2, inlet2, threshold2))
  {
  }
}
