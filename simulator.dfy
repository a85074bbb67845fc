/** The setpoint simulator: projects every rack's inlet temperature under a
    proposed setpoint increase, reclassifies, and derives the hall-level
    outcome, a top-3 ranking and three breach flags. */
module Simulator {
  import opened Numeric
  import opened Categories
  import opened Hall
  import opened Ordering
  import opened Aggregator

  /** The hard clamp on the requested delta, whatever the advertised range. */
  const MinDelta: real := 0.0
  const MaxDelta: real := 2.0
  /** Above this delta a rise in the Fragile-or-Critical count is a breach. */
  const CoolingDeltaLimit: real := 1.6
  /** Length of the most-affected ranking. */
  const TopCount: nat := 3

  /** A projected rack: the rack with its projected inlet, margin and category,
      plus the base category and whether it moved. */
  datatype PostRack = PostRack(rack: Rack, prevCategory: Category, changed: bool)

  /** One entry of `topAffected`. */
  datatype Affected = Affected(id: string, category: Category, prevCategory: Category)

  datatype FailureFlags = FailureFlags(
    inletSafeThresholdBreached: bool,
    headroomMarginBreached: bool,
    coolingSafeRangeBreached: bool)

  /** `simulatedInMs` is a random figure and is not modelled. */
  datatype SimulationResult = SimulationResult(
    setpointDelta: real,
    proposedSetpoint: real,
    postHeadroom: Category,
    postCriticalCount: nat,
    postFragileOrCriticalCount: nat,
    topAffected: seq<Affected>,
    postRacks: seq<PostRack>,
    failureFlags: FailureFlags)

  // ------------------------------------------------------------ per rack

  /** Farther zones respond more: D 0.14, C 0.10, any other 0.06. */
  function ZoneWeight(zone: string): (w: real)
    ensures 0.06 <= w <= 0.14
    ensures w == 0.14 <==> EndsWith(zone, 'D')
    ensures w == 0.10 <==> EndsWith(zone, 'C') && !EndsWith(zone, 'D')
    ensures w == 0.06 <==> !EndsWith(zone, 'C') && !EndsWith(zone, 'D')
  {
    if EndsWith(zone, 'D') then 0.14 else if EndsWith(zone, 'C') then 0.10 else 0.06
  }

  /** Busier racks respond more: Peak 0.20, Elevated 0.12, Nominal 0.04. */
  function LoadWeight(loadBand: LoadBand): (w: real)
    ensures 0.04 <= w <= 0.20
    ensures w == 0.20 <==> loadBand == Peak
    ensures w == 0.12 <==> loadBand == Elevated
    ensures w == 0.04 <==> loadBand == Nominal
  {
    match loadBand
    case Peak => 0.20
    case Elevated => 0.12
    case Nominal => 0.04
  }

  /** The thermal-response coefficient `k = 0.65 + zoneWeight + loadWeight`. */
  function Coefficient(rack: Rack): (k: real)
    ensures 0.75 <= k <= 0.99
  {
    0.65 + ZoneWeight(rack.zone) + LoadWeight(rack.loadBand)
  }

  /** `Number((inletTemp + k * delta).toFixed(1))`. */
  function ProjectedInlet(rack: Rack, delta: real): (inlet: real)
    ensures OnTenths(inlet)
    ensures rack.inletTemp + Coefficient(rack) * delta - 0.05 < inlet <= rack.inletTemp + Coefficient(rack) * delta + 0.05
  {
    RoundTenth(rack.inletTemp + Coefficient(rack) * delta)
  }

  /** `Number((threshold - newInlet).toFixed(1))`. */
  function ProjectedMargin(rack: Rack, delta: real): (margin: real)
    ensures OnTenths(margin)
    ensures rack.threshold - ProjectedInlet(rack, delta) - 0.05 < margin <= rack.threshold - ProjectedInlet(rack, delta) + 0.05
  {
    RoundTenth(rack.threshold - ProjectedInlet(rack, delta))
  }

  /** The `postRacks.map` callback: `{...rack, inletTemp, thermalMargin,
      category, prevCategory, changed}`. */
  function Project(rack: Rack, delta: real): (p: PostRack)
    ensures p.rack.(inletTemp := rack.inletTemp, thermalMargin := rack.thermalMargin, category := rack.category) == rack
    ensures p.rack.inletTemp == ProjectedInlet(rack, delta) && p.rack.thermalMargin == ProjectedMargin(rack, delta)
    ensures p.rack.category == DetermineCategory(p.rack.thermalMargin, p.rack.inletTemp, p.rack.threshold)
    ensures p.prevCategory == rack.category
    ensures p.changed <==> p.rack.category != p.prevCategory
  {
    var newInlet := ProjectedInlet(rack, delta);
    var newMargin := ProjectedMargin(rack, delta);
    var newCategory := DetermineCategory(newMargin, newInlet, rack.threshold);
    PostRack(
      rack.(inletTemp := newInlet, thermalMargin := newMargin, category := newCategory),
      rack.category,
      newCategory != rack.category)
  }

  // -------------------------------------------------------- hall level

  /** The projected racks as racks, for the aggregators. */
  function Projected(post: seq<PostRack>): (racks: seq<Rack>)
    ensures |racks| == |post|
    ensures forall i :: 0 <= i < |post| ==> racks[i] == post[i].rack
  {
    seq(|post|, i requires 0 <= i < |post| => post[i].rack)
  }

  /** `racks.some(r => r.inletTemp > r.threshold)`. */
  function AnyOverThreshold(racks: seq<Rack>): (b: bool)
    ensures b <==> exists i :: 0 <= i < |racks| && racks[i].inletTemp > racks[i].threshold
  {
    if racks == [] then false
    else racks[0].inletTemp > racks[0].threshold || AnyOverThreshold(racks[1..])
  }

  /** `racks.some(r => r.thermalMargin < limit)`. */
  function AnyMarginBelow(racks: seq<Rack>, limit: real): (b: bool)
    ensures b <==> exists i :: 0 <= i < |racks| && racks[i].thermalMargin < limit
  {
    if racks == [] then false
    else racks[0].thermalMargin < limit || AnyMarginBelow(racks[1..], limit)
  }

  /** Rack p ranks strictly above rack q: worse category, or the same
      category and less margin. */
  predicate Outranks(p: Rack, q: Rack) {
    Rank(p.category) > Rank(q.category)
    || (Rank(p.category) == Rank(q.category) && p.thermalMargin < q.thermalMargin)
  }

  /** Racks p and q tie in the ranking. */
  predicate RankedAlike(p: Rack, q: Rack) {
    Rank(p.category) == Rank(q.category) && p.thermalMargin == q.thermalMargin
  }

  /** Rack p ranks at least as high as rack q. */
  predicate RanksAbove(p: Rack, q: Rack) {
    Outranks(p, q) || RankedAlike(p, q)
  }

  /** Sort keys for the ranking comparator: one key is less than another
      exactly when its rack outranks the other, and two keys are equal
      exactly when their racks tie. */
  function AffectedKeys(post: seq<PostRack>): (keys: seq<Key>)
    ensures |keys| == |post|
    ensures forall i, j :: 0 <= i < |post| && 0 <= j < |post| ==>
      (KeyLess(keys[i], keys[j]) <==> Outranks(post[i].rack, post[j].rack))
    ensures forall i, j :: 0 <= i < |post| && 0 <= j < |post| ==>
      (keys[i] == keys[j] <==> RankedAlike(post[i].rack, post[j].rack))
  {
    seq(|post|, i requires 0 <= i < |post| => Key(-(Rank(post[i].rack.category) as int), post[i].rack.thermalMargin))
  }

  /** The sorted copy behind `topAffected`, as positions into post: every
      position once, each outranking or tying the next, ties in original
      order. */
  function AffectedOrder(post: seq<PostRack>): (order: seq<nat>)
    ensures |order| == |post|
    ensures forall j: nat :: j in order <==> j < |post|
    ensures forall a :: 0 <= a < |order| ==> order[a] < |post|
    ensures forall a, b :: 0 <= a < b < |order| ==>
      || Outranks(post[order[a]].rack, post[order[b]].rack)
      || (RankedAlike(post[order[a]].rack, post[order[b]].rack) && order[a] < order[b])
  {
    var keys := AffectedKeys(post);
    var order := StableSort(keys);
    assert forall a, b :: 0 <= a < b < |order| ==> Before(keys, order[a], order[b]);
    order
  }

  function Summary(p: PostRack): Affected {
    Affected(p.rack.id, p.rack.category, p.prevCategory)
  }

  function Min(a: nat, b: nat): nat {
    if a < b then a else b
  }

  /** `sort(...).slice(0, 3).map(({id, category, prevCategory}))`. */
  function TopAffected(post: seq<PostRack>): (top: seq<Affected>)
    ensures |top| == Min(TopCount, |post|)
  {
    var order := AffectedOrder(post);
    seq(Min(TopCount, |post|), k requires 0 <= k < Min(TopCount, |post|) => Summary(post[order[k]]))
  }

  /** `simulateChange` once the requested delta has been clamped. */
  function SimulateDelta(base: Snapshot, delta: real): (r: SimulationResult)
    requires MinDelta <= delta <= MaxDelta
    ensures |r.postRacks| == |base.racks|
    ensures MinDelta <= r.setpointDelta <= MaxDelta && OnTenths(r.setpointDelta)
    ensures delta - 0.05 < r.setpointDelta <= delta + 0.05
    ensures OnTenths(r.proposedSetpoint)
    ensures base.currentSetpoint + delta - 0.05 < r.proposedSetpoint <= base.currentSetpoint + delta + 0.05
    ensures forall i :: 0 <= i < |base.racks| ==> r.postRacks[i] == Project(base.racks[i], delta)
    ensures var projected := Projected(r.postRacks);
      && r.postHeadroom == OverallHeadroom(projected)
      && r.postCriticalCount == CountCritical(projected)
      && r.postFragileOrCriticalCount == CountFragileOrCritical(projected)
      && r.topAffected == TopAffected(r.postRacks)
  {
    RoundTenthWithin(delta, MinDelta, MaxDelta);
    var postRacks := seq(|base.racks|, i requires 0 <= i < |base.racks| => Project(base.racks[i], delta));
    var projected := Projected(postRacks);
    var fragileOrCriticalCount := CountFragileOrCritical(projected);
    SimulationResult(
      RoundTenth(delta),
      RoundTenth(base.currentSetpoint + delta),
      OverallHeadroom(projected),
      CountCritical(projected),
      fragileOrCriticalCount,
      TopAffected(postRacks),
      postRacks,
      FailureFlags(
        AnyOverThreshold(projected),
        AnyMarginBelow(projected, CriticalMargin),
        delta > CoolingDeltaLimit && fragileOrCriticalCount > base.fragileOrCriticalCount))
  }

  /** `simulateChange(baseState, setpointDelta)`: the request is clamped to
      [0, 2] first. */
  function SimulateChange(base: Snapshot, setpointDelta: real): (r: SimulationResult)
    ensures |r.postRacks| == |base.racks|
    ensures MinDelta <= r.setpointDelta <= MaxDelta && OnTenths(r.setpointDelta)
    ensures var delta := Clamp(setpointDelta, MinDelta, MaxDelta);
      && delta - 0.05 < r.setpointDelta <= delta + 0.05
      && OnTenths(r.proposedSetpoint)
      && base.currentSetpoint + delta - 0.05 < r.proposedSetpoint <= base.currentSetpoint + delta + 0.05
      && (forall i :: 0 <= i < |base.racks| ==> r.postRacks[i] == Project(base.racks[i], delta))
    ensures var projected := Projected(r.postRacks);
      && r.postHeadroom == OverallHeadroom(projected)
      && r.postCriticalCount == CountCritical(projected)
      && r.postFragileOrCriticalCount == CountFragileOrCritical(projected)
      && r.topAffected == TopAffected(r.postRacks)
  {
    SimulateDelta(base, Clamp(setpointDelta, MinDelta, MaxDelta))
  }

  // -------------------------------------------------------------- lemmas

  /** A request below the range behaves exactly like 0. */
  lemma DeltaBelowRangeIsZero(base: Snapshot, setpointDelta: real)
    requires setpointDelta <= MinDelta
    ensures SimulateChange(base, setpointDelta) == SimulateChange(base, MinDelta)
  {
    assert Clamp(setpointDelta, MinDelta, MaxDelta) == Clamp(MinDelta, MinDelta, MaxDelta);
  }

  /** A request above the range behaves exactly like 2. */
  lemma DeltaAboveRangeIsMax(base: Snapshot, setpointDelta: real)
    requires setpointDelta >= MaxDelta
    ensures SimulateChange(base, setpointDelta) == SimulateChange(base, MaxDelta)
  {
    assert Clamp(setpointDelta, MinDelta, MaxDelta) == Clamp(MaxDelta, MinDelta, MaxDelta);
  }

  /** Every projected rack is the base rack at the same position with only
      its temperatures and category replaced; its category is the
      classifier's verdict on its own stored values, its previous category
      is the base category, and `changed` says whether they differ. */
  lemma ProjectionPreservesRacks(base: Snapshot, setpointDelta: real, i: nat)
    requires i < |base.racks|
    ensures var p := SimulateChange(base, setpointDelta).postRacks[i];
      && p.rack.(inletTemp := base.racks[i].inletTemp,
                 thermalMargin := base.racks[i].thermalMargin,
                 category := base.racks[i].category) == base.racks[i]
      && p.rack.category == DetermineCategory(p.rack.thermalMargin, p.rack.inletTemp, p.rack.threshold)
      && p.prevCategory == base.racks[i].category
      && (p.changed <==> p.rack.category != p.prevCategory)
  {
  }

  /** A non-negative delta never cools a rack whose inlet is whole tenths. */
  lemma ProjectedInletNotBelowBase(rack: Rack, delta: real)
    requires OnTenths(rack.inletTemp) && 0.0 <= delta
    ensures ProjectedInlet(rack, delta) >= rack.inletTemp
  {
    RoundTenthMonotone(rack.inletTemp, rack.inletTemp + Coefficient(rack) * delta);
    RoundTenthFixesTenths(rack.inletTemp);
  }

  /** A larger delta never gives a cooler inlet or a wider margin. */
  lemma ProjectionMonotone(rack: Rack, d1: real, d2: real)
    requires 0.0 <= d1 <= d2
    ensures ProjectedInlet(rack, d1) <= ProjectedInlet(rack, d2)
    ensures ProjectedMargin(rack, d1) >= ProjectedMargin(rack, d2)
  {
    var k := Coefficient(rack);
    assert k * d1 <= k * d2;
    RoundTenthMonotone(rack.inletTemp + k * d1, rack.inletTemp + k * d2);
    RoundTenthMonotone(rack.threshold - ProjectedInlet(rack, d2), rack.threshold - ProjectedInlet(rack, d1));
  }

  /** The same, for whole simulations: raising the requested delta never
      lowers any rack's projected inlet nor raises its projected margin. */
  lemma SimulationMonotone(base: Snapshot, x1: real, x2: real, i: nat)
    requires x1 <= x2 && i < |base.racks|
    ensures SimulateChange(base, x1).postRacks[i].rack.inletTemp <= SimulateChange(base, x2).postRacks[i].rack.inletTemp
    ensures SimulateChange(base, x1).postRacks[i].rack.thermalMargin >= SimulateChange(base, x2).postRacks[i].rack.thermalMargin
  {
    ClampMonotone(x1, x2, MinDelta, MaxDelta);
    ProjectionMonotone(base.racks[i], Clamp(x1, MinDelta, MaxDelta), Clamp(x2, MinDelta, MaxDelta));
  }

  /** Raising the requested delta never improves any rack's projected
      category. */
  lemma SimulationCategoryMonotone(base: Snapshot, x1: real, x2: real, i: nat)
    requires x1 <= x2 && i < |base.racks|
    ensures Rank(SimulateChange(base, x1).postRacks[i].rack.category) <= Rank(SimulateChange(base, x2).postRacks[i].rack.category)
  {
    SimulationMonotone(base, x1, x2, i);
    var p1 := SimulateChange(base, x1).postRacks[i].rack;
    var p2 := SimulateChange(base, x2).postRacks[i].rack;
    MarginMonotone(p2.thermalMargin, p2.inletTemp, p2.threshold, p1.thermalMargin, p1.inletTemp, p1.threshold);
  }

  /** The projected counts are ordered: Critical within Fragile-or-Critical
      within all racks. */
  lemma SimulationCountsBounded(base: Snapshot, setpointDelta: real)
    ensures var r := SimulateChange(base, setpointDelta);
      r.postCriticalCount <= r.postFragileOrCriticalCount <= |base.racks|
  {
    CriticalCountBounded(Projected(SimulateChange(base, setpointDelta).postRacks));
  }

  /** With a whole-tenths threshold, a projected rack's stored margin is
      exactly its threshold minus its stored inlet. */
  lemma ProjectedMarginExact(rack: Rack, delta: real)
    requires OnTenths(rack.threshold)
    ensures ProjectedMargin(rack, delta) == rack.threshold - ProjectedInlet(rack, delta)
  {
    TenthsDifference(rack.threshold, ProjectedInlet(rack, delta));
    RoundTenthFixesTenths(rack.threshold - ProjectedInlet(rack, delta));
  }

  /** `topAffected` lists min(3, n) projected racks in ranking order, and no
      rack left out ranks above any rack listed. */
  lemma TopAffectedRanking(post: seq<PostRack>)
    ensures |TopAffected(post)| == Min(TopCount, |post|)
    ensures forall k :: 0 <= k < |TopAffected(post)| ==>
      AffectedOrder(post)[k] < |post| && TopAffected(post)[k] == Summary(post[AffectedOrder(post)[k]])
    ensures forall a, b :: 0 <= a < b < |TopAffected(post)| ==>
      RanksAbove(post[AffectedOrder(post)[a]].rack, post[AffectedOrder(post)[b]].rack)
    ensures forall k, j :: 0 <= k < |TopAffected(post)| && 0 <= j < |post| && j !in AffectedOrder(post)[..|TopAffected(post)|] ==>
      RanksAbove(post[AffectedOrder(post)[k]].rack, post[j].rack)
  {
    var keys := AffectedKeys(post);
    var order := AffectedOrder(post);
    var m := |TopAffected(post)|;
    forall k, j | 0 <= k < m && 0 <= j < |post| && j !in order[..m]
      ensures RanksAbove(post[order[k]].rack, post[j].rack)
    {
      PrefixComesFirst(keys, m, k, j);
    }
  }

  /** The two temperature flags say exactly whether some projected rack is
      over its threshold, or below the 1.8 margin; the cooling flag says
      exactly that the clamped delta exceeds 1.6 and the Fragile-or-Critical
      count grew. */
  lemma FlagsMeaning(base: Snapshot, setpointDelta: real)
    ensures var r := SimulateChange(base, setpointDelta);
      && (r.failureFlags.inletSafeThresholdBreached <==>
            exists i :: 0 <= i < |r.postRacks| && r.postRacks[i].rack.inletTemp > r.postRacks[i].rack.threshold)
      && (r.failureFlags.headroomMarginBreached <==>
            exists i :: 0 <= i < |r.postRacks| && r.postRacks[i].rack.thermalMargin < CriticalMargin)
      && (r.failureFlags.coolingSafeRangeBreached <==>
            Clamp(setpointDelta, MinDelta, MaxDelta) > CoolingDeltaLimit
            && r.postFragileOrCriticalCount > base.fragileOrCriticalCount)
  {
    var delta := Clamp(setpointDelta, MinDelta, MaxDelta);
    var r := SimulateChange(base, setpointDelta);
    assert r == SimulateDelta(base, delta);
    var projected := Projected(r.postRacks);
    assert r.failureFlags == FailureFlags(
      AnyOverThreshold(projected),
      AnyMarginBelow(projected, CriticalMargin),
      delta > CoolingDeltaLimit && r.postFragileOrCriticalCount > base.fragileOrCriticalCount);
    if r.failureFlags.inletSafeThresholdBreached {
      var i :| 0 <= i < |projected| && projected[i].inletTemp > projected[i].threshold;
      assert r.postRacks[i].rack == projected[i];
    }
    if r.failureFlags.headroomMarginBreached {
      var i :| 0 <= i < |projected| && projected[i].thermalMargin < CriticalMargin;
      assert r.postRacks[i].rack == projected[i];
    }
  }

  /** Every rack's category is the classifier's verdict on its own stored
      inlet, margin and threshold. */
  predicate Classified(racks: seq<Rack>) {
    forall i :: 0 <= i < |racks| ==>
      racks[i].category == DetermineCategory(racks[i].thermalMargin, racks[i].inletTemp, racks[i].threshold)
  }

  /** Over classified racks, the hall is Critical exactly when some rack is
      over its threshold or below the Critical margin. */
  lemma ClassifiedCriticalIff(racks: seq<Rack>)
    requires Classified(racks)
    ensures OverallHeadroom(racks) == Critical <==>
      AnyOverThreshold(racks) || AnyMarginBelow(racks, CriticalMargin)
  {
    if OverallHeadroom(racks) == Critical {
      var i :| 0 <= i < |racks| && racks[i].category == Critical;
      assert racks[i].inletTemp > racks[i].threshold || racks[i].thermalMargin < CriticalMargin;
    }
    if AnyOverThreshold(racks) {
      var i :| 0 <= i < |racks| && racks[i].inletTemp > racks[i].threshold;
      assert racks[i].category == Critical;
    } else if AnyMarginBelow(racks, CriticalMargin) {
      var i :| 0 <= i < |racks| && racks[i].thermalMargin < CriticalMargin;
      assert racks[i].category == Critical;
    }
  }

  /** The hall is projected Critical exactly when one of the two
      temperature flags is raised. */
  lemma CriticalIffBreached(base: Snapshot, setpointDelta: real)
    ensures var r := SimulateChange(base, setpointDelta);
      r.postHeadroom == Critical <==>
        r.failureFlags.inletSafeThresholdBreached || r.failureFlags.headroomMarginBreached
  {
    var r := SimulateChange(base, setpointDelta);
    var projected := Projected(r.postRacks);
    forall i | 0 <= i < |projected|
      ensures projected[i].category == DetermineCategory(projected[i].thermalMargin, projected[i].inletTemp, projected[i].threshold)
    {
      assert projected[i] == r.postRacks[i].rack;
    }
    ClassifiedCriticalIff(projected);
  }

  /** A worked case: threshold 33.0, inlet 29.0 (Tight), zone A, Nominal load.
      Then k = 0.75; delta 1.0 gives inlet 29.8 and margin 3.2, still Tight;
      delta 2.0 gives inlet 30.5 and margin 2.5, Fragile. */
  lemma WorkedExample()
    ensures var rack := Rack("RA01", "Zone-A", 'A', 1, 33.0, 29.0, 4.0, Tight, Nominal);
      var p := Project(rack, 1.0);
      var q := Project(rack, 2.0);
      && Coefficient(rack) == 0.75
      && p.rack.inletTemp == 29.8 && p.rack.thermalMargin == 3.2
      && p.rack.category == Tight && !p.changed
      && q.rack.inletTemp == 30.5 && q.rack.thermalMargin == 2.5
      && q.rack.category == Fragile && q.prevCategory == Tight && q.changed
  {
    var rack := Rack("RA01", "Zone-A", 'A', 1, 33.0, 29.0, 4.0, Tight, Nominal);
    assert Coefficient(rack) == 0.75;
    assert (29.75 * 10.0 + 0.5).Floor == 298;
    assert ProjectedInlet(rack, 1.0) == 29.8;
    assert ((33.0 - 29.8) * 10.0 + 0.5).Floor == 32;
    assert (30.5 * 10.0 + 0.5).Floor == 305;
    assert ProjectedInlet(rack, 2.0) == 30.5;
    assert ((33.0 - 30.5) * 10.0 + 0.5).Floor == 25;
  }
}
