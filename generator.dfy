/** The rack telemetry generator: a 4 x 6 grid of racks from random draws,
    then the four lowest-margin racks are pushed into the risk band.
    The draws `Math.random` would supply are parameters here. */
module Generator {
  import opened Numeric
  import opened Categories
  import opened Hall
  import opened Ordering
  import opened Aggregator

  const Rows: seq<char> := ['A', 'B', 'C', 'D']
  const Cols: seq<nat> := [1, 2, 3, 4, 5, 6]
  const RackCount: nat := 24
  /** How many of the lowest-margin racks are forced into the risk band. */
  const RiskCount: nat := 4

  /** The values `randomFrom` returns while one snapshot is built, in the
      order they are consumed. */
  datatype Draws = Draws(
    setpoint: real,           // randomFrom(21.0, 22.7)
    thresholds: seq<real>,    // randomFrom(32.5, 34.5), one per rack
    inlets: seq<real>,        // randomFrom(27.0, 33.8), one per rack
    offsets: seq<real>)       // randomFrom(1.6, 2.7), one per rewritten rack

  predicate ValidDraws(d: Draws) {
    && 21.0 <= d.setpoint < 22.7
    && |d.thresholds| == RackCount && |d.inlets| == RackCount && |d.offsets| == RiskCount
    && (forall i :: 0 <= i < RackCount ==> 32.5 <= d.thresholds[i] < 34.5)
    && (forall i :: 0 <= i < RackCount ==> 27.0 <= d.inlets[i] < 33.8)
    && (forall i :: 0 <= i < RiskCount ==> 1.6 <= d.offsets[i] < 2.7)
  }

  // ---------------------------------------------------------------- identity

  function Digit(d: nat): (c: char)
    requires d < 10
  {
    (48 + d) as char
  }

  /** `String(n)` for a natural number. */
  function DecimalString(n: nat): (s: string)
    ensures 1 <= |s|
    ensures n < 10 ==> s == [Digit(n)]
    ensures 10 <= n < 100 ==> s == [Digit(n / 10), Digit(n % 10)]
  {
    if n < 10 then [Digit(n)] else DecimalString(n / 10) + [Digit(n % 10)]
  }

  /** `s.padStart(width, fill)`. */
  function PadStart(s: string, width: nat, fill: char): (r: string)
    ensures |r| == if |s| < width then width else |s|
    ensures r[|r| - |s|..] == s
    ensures forall i :: 0 <= i < |r| - |s| ==> r[i] == fill
  {
    if |s| >= width then s else seq(width - |s|, _ => fill) + s
  }

  /** `R${row}${String(col).padStart(2, '0')}`. */
  function RackId(row: char, col: nat): string {
    "R" + [row] + PadStart(DecimalString(col), 2, '0')
  }

  /** Below column 100 an id is 'R', the row letter and two column digits. */
  lemma RackIdDigits(row: char, col: nat)
    requires col < 100
    ensures RackId(row, col) == ['R', row, Digit(col / 10), Digit(col % 10)]
  {
    assert PadStart(DecimalString(col), 2, '0') == [Digit(col / 10), Digit(col % 10)];
  }

  /** `Zone-${row}`. */
  function ZoneName(row: char): (zone: string)
    ensures EndsWith(zone, row) && |zone| == 6
  {
    "Zone-" + [row]
  }

  /** Ids below column 100 are two-digit padded, so distinct slots get
      distinct ids. */
  lemma RackIdsDistinct(row1: char, col1: nat, row2: char, col2: nat)
    requires col1 < 100 && col2 < 100
    requires row1 != row2 || col1 != col2
    ensures RackId(row1, col1) != RackId(row2, col2)
  {
    var id1, id2 := RackId(row1, col1), RackId(row2, col2);
    RackIdDigits(row1, col1);
    RackIdDigits(row2, col2);
    if row1 == row2 {
      TwoDigitsDistinct(col1, col2);
      assert id1[2] != id2[2] || id1[3] != id2[3];
    } else {
      assert id1[1] != id2[1];
    }
  }

  /** Distinct numbers below 100 differ in their tens or their units digit. */
  lemma TwoDigitsDistinct(a: nat, b: nat)
    requires a < 100 && b < 100 && a != b
    ensures Digit(a / 10) != Digit(b / 10) || Digit(a % 10) != Digit(b % 10)
  {
    assert a == 10 * (a / 10) + a % 10 && b == 10 * (b / 10) + b % 10;
    assert a / 10 != b / 10 || a % 10 != b % 10;
  }

  /** Column numbers are 1-based positions. */
  lemma ColumnNumbers()
    ensures forall c :: 0 <= c < |Cols| ==> Cols[c] == c + 1
  {
  }

  /** Position i of the row-major population is row i / 6, column i % 6. */
  lemma SlotOfPosition(rIdx: nat, cIdx: nat)
    requires rIdx < |Rows| && cIdx < |Cols|
    ensures (rIdx * 6 + cIdx) / 6 == rIdx && (rIdx * 6 + cIdx) % 6 == cIdx
    ensures rIdx * 6 + cIdx < RackCount
  {
  }

  /** Distinct positions are distinct grid slots. */
  lemma DistinctSlots(i: nat, j: nat)
    requires i < j < RackCount
    ensures Rows[i / 6] != Rows[j / 6] || Cols[i % 6] != Cols[j % 6]
  {
    assert i / 6 != j / 6 || i % 6 != j % 6;
  }

  /** The rack at position i of a generated population sits in row i / 6 and
      column i % 6 of the grid, and carries that slot's id and zone. */
  predicate InSlot(rack: Rack, i: nat)
    requires i < RackCount
  {
    && rack.row == Rows[i / 6]
    && rack.col == Cols[i % 6]
    && rack.id == RackId(rack.row, Cols[i % 6])
    && rack.zone == ZoneName(rack.row)
  }

  predicate GridLayout(racks: seq<Rack>) {
    |racks| == RackCount && forall i :: 0 <= i < RackCount ==> InSlot(racks[i], i)
  }

  /** No two racks of a generated population share an id. */
  lemma GridIdsUnique(racks: seq<Rack>, i: nat, j: nat)
    requires GridLayout(racks)
    requires i < j < RackCount
    ensures racks[i].id != racks[j].id
  {
    assert InSlot(racks[i], i);
    assert InSlot(racks[j], j);
    assert racks[i].row == Rows[i / 6] && racks[j].row == Rows[j / 6];
    assert racks[i].col == Cols[i % 6] && racks[j].col == Cols[j % 6];
    DistinctSlots(i, j);
    var col1, col2 := Cols[i % 6], Cols[j % 6];
    ColumnNumbers();
    RackIdsDistinct(racks[i].row, col1, racks[j].row, col2);
  }

  // ------------------------------------------------------------ generation

  /** `baselineInlet > 31.5 ? 'Peak' : baselineInlet > 29.0 ? 'Elevated' : 'Nominal'`. */
  function LoadBandOf(inletTemp: real): (band: LoadBand)
    ensures band == Peak <==> inletTemp > 31.5
    ensures band == Nominal <==> inletTemp <= 29.0
  {
    if inletTemp > 31.5 then Peak else if inletTemp > 29.0 then Elevated else Nominal
  }

  /** All three stored temperatures are whole tenths. */
  predicate StoredOnTenths(rack: Rack) {
    OnTenths(rack.threshold) && OnTenths(rack.inletTemp) && OnTenths(rack.thermalMargin)
  }

  /** The rack built for grid slot (rIdx, cIdx) from its two draws. The inlet
      drifts upward by 0.2 per row and 0.08 per column. Category and load
      band come from the unrounded values; the stored temperatures are
      rounded to tenths. */
  function BaseRack(rIdx: nat, cIdx: nat, thresholdDraw: real, inletDraw: real): Rack
    requires rIdx < |Rows| && cIdx < |Cols|
  {
    var baselineInlet := inletDraw + rIdx as real * 0.2 + cIdx as real * 0.08;
    var thermalMargin := thresholdDraw - baselineInlet;
    var row, col := Rows[rIdx], Cols[cIdx];
    Rack(
      RackId(row, col),
      ZoneName(row),
      row,
      col,
      RoundTenth(thresholdDraw),
      RoundTenth(baselineInlet),
      RoundTenth(thermalMargin),
      DetermineCategory(thermalMargin, baselineInlet, thresholdDraw),
      LoadBandOf(baselineInlet))
  }

  /** A base rack stores its threshold and its drifted inlet rounded to the
      nearest tenth, and takes its category and load band from the unrounded
      values. */
  lemma BaseRackFromDraws(rIdx: nat, cIdx: nat, thresholdDraw: real, inletDraw: real)
    requires rIdx < |Rows| && cIdx < |Cols|
    ensures var r := BaseRack(rIdx, cIdx, thresholdDraw, inletDraw);
      var baselineInlet := inletDraw + rIdx as real * 0.2 + cIdx as real * 0.08;
      && thresholdDraw - 0.05 < r.threshold <= thresholdDraw + 0.05
      && baselineInlet - 0.05 < r.inletTemp <= baselineInlet + 0.05
      && (thresholdDraw - baselineInlet) - 0.05 < r.thermalMargin <= (thresholdDraw - baselineInlet) + 0.05
      && r.category == DetermineCategory(thresholdDraw - baselineInlet, baselineInlet, thresholdDraw)
      && r.loadBand == LoadBandOf(baselineInlet)
  {
  }

  /** A base rack stores whole tenths and sits in its grid slot. */
  lemma BaseRackInSlot(rIdx: nat, cIdx: nat, thresholdDraw: real, inletDraw: real)
    requires rIdx < |Rows| && cIdx < |Cols|
    ensures rIdx * 6 + cIdx < RackCount
    ensures StoredOnTenths(BaseRack(rIdx, cIdx, thresholdDraw, inletDraw))
    ensures InSlot(BaseRack(rIdx, cIdx, thresholdDraw, inletDraw), rIdx * 6 + cIdx)
  {
    SlotOfPosition(rIdx, cIdx);
  }

  /** A base rack's category is taken before rounding, so it need not be the
      classifier's verdict on the values the rack stores: threshold draw
      33.46 and inlet draw 29.0 in slot A01 store threshold 33.5, inlet 29.0
      and margin 4.5, which classify Stable, while the rack says Tight. */
  lemma BaseRackCategoryFromUnrounded()
    ensures var r := BaseRack(0, 0, 33.46, 29.0);
      && r.threshold == 33.5 && r.inletTemp == 29.0 && r.thermalMargin == 4.5
      && r.category == Tight
      && DetermineCategory(r.thermalMargin, r.inletTemp, r.threshold) == Stable
  {
    assert (33.46 * 10.0 + 0.5).Floor == 335;
    assert (29.0 * 10.0 + 0.5).Floor == 290;
    assert ((33.46 - 29.0) * 10.0 + 0.5).Floor == 45;
  }

  /** The rack at position i of the row-major population. */
  function RackAt(i: nat, thresholdDraws: seq<real>, inletDraws: seq<real>): Rack
    requires i < RackCount && i < |thresholdDraws| && i < |inletDraws|
  {
    BaseRack(i / 6, i % 6, thresholdDraws[i], inletDraws[i])
  }

  /** Position n = rIdx * 6 + cIdx holds the rack of slot (rIdx, cIdx). */
  lemma RackAtSlot(n: nat, rIdx: nat, cIdx: nat, thresholdDraws: seq<real>, inletDraws: seq<real>)
    requires rIdx < |Rows| && cIdx < |Cols| && n == rIdx * 6 + cIdx
    requires |thresholdDraws| == RackCount && |inletDraws| == RackCount
    ensures n < RackCount
    ensures RackAt(n, thresholdDraws, inletDraws) == BaseRack(rIdx, cIdx, thresholdDraws[n], inletDraws[n])
  {
    SlotOfPosition(rIdx, cIdx);
  }

  /** The first n racks of the row-major population. */
  function BaseRacks(n: nat, thresholdDraws: seq<real>, inletDraws: seq<real>): (racks: seq<Rack>)
    requires n <= RackCount && |thresholdDraws| == RackCount && |inletDraws| == RackCount
    ensures |racks| == n
  {
    if n == 0 then [] else BaseRacks(n - 1, thresholdDraws, inletDraws) + [RackAt(n - 1, thresholdDraws, inletDraws)]
  }

  /** Appending the rack of position n extends the first n racks to n + 1. */
  lemma BaseRacksGrow(n: nat, thresholdDraws: seq<real>, inletDraws: seq<real>, racks: seq<Rack>, rack: Rack)
    requires n < RackCount && |thresholdDraws| == RackCount && |inletDraws| == RackCount
    requires racks == BaseRacks(n, thresholdDraws, inletDraws)
    requires rack == RackAt(n, thresholdDraws, inletDraws)
    ensures racks + [rack] == BaseRacks(n + 1, thresholdDraws, inletDraws)
  {
  }

  lemma {:induction false} BaseRacksAt(n: nat, thresholdDraws: seq<real>, inletDraws: seq<real>, i: nat)
    requires n <= RackCount && |thresholdDraws| == RackCount && |inletDraws| == RackCount
    requires i < n
    ensures BaseRacks(n, thresholdDraws, inletDraws)[i] == RackAt(i, thresholdDraws, inletDraws)
  {
    if i < n - 1 {
      BaseRacksAt(n - 1, thresholdDraws, inletDraws, i);
    }
  }

  /** Nested `rows.forEach(cols.forEach(push))`: the racks in row-major order,
      the i-th consuming the i-th threshold and inlet draw. */
  method BuildBaseRacks(thresholdDraws: seq<real>, inletDraws: seq<real>) returns (racks: seq<Rack>)
    requires |thresholdDraws| == RackCount && |inletDraws| == RackCount
    ensures racks == BaseRacks(RackCount, thresholdDraws, inletDraws)
  {
    racks := [];
    var rIdx := 0;
    while rIdx < |Rows|
      invariant 0 <= rIdx <= |Rows|
      invariant |racks| == rIdx * 6 <= RackCount
      invariant racks == BaseRacks(|racks|, thresholdDraws, inletDraws)
    {
      var cIdx := 0;
      while cIdx < |Cols|
        invariant 0 <= cIdx <= |Cols|
        invariant |racks| == rIdx * 6 + cIdx <= RackCount
        invariant racks == BaseRacks(|racks|, thresholdDraws, inletDraws)
      {
        var n := |racks|;
        RackAtSlot(n, rIdx, cIdx, thresholdDraws, inletDraws);
        var rack := BaseRack(rIdx, cIdx, thresholdDraws[n], inletDraws[n]);
        BaseRacksGrow(n, thresholdDraws, inletDraws, racks, rack);
        racks := racks + [rack];
        cIdx := cIdx + 1;
      }
      rIdx := rIdx + 1;
    }
  }

  /** Base racks are stored in tenths and laid out on the grid. */
  lemma BaseRacksLaidOut(racks: seq<Rack>, thresholdDraws: seq<real>, inletDraws: seq<real>)
    requires |thresholdDraws| == RackCount && |inletDraws| == RackCount
    requires racks == BaseRacks(RackCount, thresholdDraws, inletDraws)
    ensures GridLayout(racks)
    ensures forall i :: 0 <= i < RackCount ==> StoredOnTenths(racks[i])
  {
    forall i | 0 <= i < RackCount
      ensures InSlot(racks[i], i) && StoredOnTenths(racks[i])
    {
      BaseRacksAt(RackCount, thresholdDraws, inletDraws, i);
      SlotOfPosition(i / 6, i % 6);
      assert (i / 6) * 6 + i % 6 == i;
      BaseRackInSlot(i / 6, i % 6, thresholdDraws[i], inletDraws[i]);
    }
  }

  // -------------------------------------------------------- risk injection

  /** The overwrite of one rack: inlet set to `threshold - offset` rounded to
      tenths, margin recomputed from the stored values and rounded, category
      reclassified from them. Nothing else about the rack changes. */
  function RiskRack(rack: Rack, offset: real): (r: Rack)
    ensures r.(inletTemp := rack.inletTemp, thermalMargin := rack.thermalMargin, category := rack.category) == rack
    ensures r.category == DetermineCategory(r.thermalMargin, r.inletTemp, r.threshold)
    ensures OnTenths(r.inletTemp) && OnTenths(r.thermalMargin)
    ensures rack.threshold - offset - 0.05 < r.inletTemp <= rack.threshold - offset + 0.05
    ensures rack.threshold - r.inletTemp - 0.05 < r.thermalMargin <= rack.threshold - r.inletTemp + 0.05
  {
    var inletTemp := RoundTenth(rack.threshold - offset);
    var thermalMargin := RoundTenth(rack.threshold - inletTemp);
    rack.(inletTemp := inletTemp,
          thermalMargin := thermalMargin,
          category := DetermineCategory(thermalMargin, inletTemp, rack.threshold))
  }

  /** With an offset drawn from [1.6, 2.7) the rewritten rack stays below its
      threshold with a margin in [1.6, 2.7], so it is Fragile or Critical. */
  lemma RiskRackAtRisk(rack: Rack, offset: real)
    requires 1.6 <= offset < 2.7
    ensures 1.6 <= RiskRack(rack, offset).thermalMargin <= 2.7
    ensures RiskRack(rack, offset).inletTemp < rack.threshold
    ensures IsFragileOrCritical(RiskRack(rack, offset).category)
  {
    var inletTemp := RoundTenth(rack.threshold - offset);
    var z := rack.threshold - inletTemp;
    assert offset - 0.05 <= z < offset + 0.05;
    var f := (z * 10.0 + 0.5).Floor;
    assert 16 <= f <= 27;
  }

  /** When the threshold is whole tenths the stored margin of a rewritten
      rack is exactly threshold minus inlet. */
  lemma RiskRackMarginExact(rack: Rack, offset: real)
    requires OnTenths(rack.threshold)
    ensures RiskRack(rack, offset).thermalMargin == rack.threshold - RiskRack(rack, offset).inletTemp
  {
    var inletTemp := RoundTenth(rack.threshold - offset);
    TenthsDifference(rack.threshold, inletTemp);
    RoundTenthFixesTenths(rack.threshold - inletTemp);
  }

  /** The population after the first n overwrites: the k-th rack of the
      sorted copy is rewritten with the k-th offset. */
  function Injected(base: seq<Rack>, order: seq<nat>, offsets: seq<real>, n: nat): (racks: seq<Rack>)
    requires n <= |order| && n <= |offsets|
    requires forall k :: 0 <= k < n ==> order[k] < |base|
    ensures |racks| == |base|
  {
    if n == 0 then base
    else
      var prev := Injected(base, order, offsets, n - 1);
      prev[order[n - 1] := RiskRack(prev[order[n - 1]], offsets[n - 1])]
  }

  /** Because the sorted copy never lists a rack twice, each of its first n
      racks is rewritten once from its original value, and every other rack
      is left as it was. */
  lemma {:induction false} InjectedRewritesPrefix(base: seq<Rack>, order: seq<nat>, offsets: seq<real>, n: nat)
    requires n <= |order| && n <= |offsets|
    requires forall k :: 0 <= k < n ==> order[k] < |base|
    requires forall a, b :: 0 <= a < b < n ==> order[a] != order[b]
    ensures forall k :: 0 <= k < n ==>
      Injected(base, order, offsets, n)[order[k]] == RiskRack(base[order[k]], offsets[k])
    ensures forall j :: 0 <= j < |base| && j !in order[..n] ==>
      Injected(base, order, offsets, n)[j] == base[j]
  {
    if n > 0 {
      InjectedRewritesPrefix(base, order, offsets, n - 1);
      assert order[..n] == order[..n - 1] + [order[n - 1]];
      assert order[n - 1] !in order[..n - 1];
    }
  }

  /** What the risk injection does to a population of at least four racks:
      the four racks first in margin order, which have no more margin than
      any rack left out, are rewritten into the band [1.6, 2.7] below their
      thresholds and become Fragile or Critical; every other rack is left as
      it was; so at least four racks end Fragile or Critical. */
  lemma RiskMomentOutcome(base: seq<Rack>, offsets: seq<real>)
    requires |base| >= RiskCount && |offsets| >= RiskCount
    requires forall k :: 0 <= k < RiskCount ==> 1.6 <= offsets[k] < 2.7
    ensures var order := MarginOrder(base);
      var racks := Injected(base, order, offsets, RiskCount);
      && |racks| == |base|
      && (forall k :: 0 <= k < RiskCount ==>
            && racks[order[k]] == RiskRack(base[order[k]], offsets[k])
            && 1.6 <= racks[order[k]].thermalMargin <= 2.7
            && racks[order[k]].inletTemp < racks[order[k]].threshold
            && IsFragileOrCritical(racks[order[k]].category))
      && (forall j :: 0 <= j < |base| && j !in order[..RiskCount] ==> racks[j] == base[j])
      && (forall k, j :: 0 <= k < RiskCount && 0 <= j < |base| && j !in order[..RiskCount] ==>
            base[order[k]].thermalMargin <= base[j].thermalMargin)
      && CountFragileOrCritical(racks) >= RiskCount
  {
    var keys := MarginKeys(base);
    var order := MarginOrder(base);
    SortedDistinct(keys, order);
    InjectedRewritesPrefix(base, order, offsets, RiskCount);
    var racks := Injected(base, order, offsets, RiskCount);
    forall k | 0 <= k < RiskCount
      ensures 1.6 <= racks[order[k]].thermalMargin <= 2.7
      ensures racks[order[k]].inletTemp < racks[order[k]].threshold
      ensures IsFragileOrCritical(racks[order[k]].category)
    {
      RiskRackAtRisk(base[order[k]], offsets[k]);
    }
    forall k, j | 0 <= k < RiskCount && 0 <= j < |base| && j !in order[..RiskCount]
      ensures base[order[k]].thermalMargin <= base[j].thermalMargin
    {
      PrefixComesFirst(keys, RiskCount, k, j);
    }
    FourAtRiskCounted(racks, order[0], order[1], order[2], order[3]);
  }

  /** `enforceRiskMoment`: sorts a copy of the population by margin (the copy
      shares the rack objects; here it holds positions) and overwrites the
      first four in place. */
  method EnforceRiskMoment(racks: array<Rack>, offsets: seq<real>)
    requires racks.Length >= RiskCount && |offsets| >= RiskCount
    modifies racks
    ensures racks[..] == Injected(old(racks[..]), MarginOrder(old(racks[..])), offsets, RiskCount)
  {
    var sorted := MarginOrder(racks[..]);
    var i := 0;
    while i < RiskCount
      invariant 0 <= i <= RiskCount
      invariant racks[..] == Injected(old(racks[..]), sorted, offsets, i)
    {
      var p := sorted[i];
      racks[p] := RiskRack(racks[p], offsets[i]);
      i := i + 1;
    }
  }

  // --------------------------------------------------------------- snapshot

  /** What every generated snapshot satisfies. */
  predicate Consistent(s: Snapshot) {
    && GridLayout(s.racks)
    && (forall i :: 0 <= i < |s.racks| ==> StoredOnTenths(s.racks[i]))
    && OnTenths(s.currentSetpoint)
    && s.overallHeadroom == OverallHeadroom(s.racks)
    && s.fragileOrCriticalCount == CountFragileOrCritical(s.racks)
    && s.criticalCount == CountCritical(s.racks)
    && s.stressRack == StressRack(s.racks)
    && s.allowedDeltaRange == ReferenceDeltaRange
    && s.fragileOrCriticalCount >= RiskCount
  }

  /** `buildInitialState`: setpoint, base racks, risk injection, then the
      hall-level indicators over the final population. */
  method BuildInitialState(draws: Draws) returns (s: Snapshot)
    requires ValidDraws(draws)
    ensures Consistent(s)
    ensures s.currentSetpoint == RoundTenth(draws.setpoint) && 21.0 <= s.currentSetpoint <= 22.7
    ensures var base := BaseRacks(RackCount, draws.thresholds, draws.inlets);
      s.racks == Injected(base, MarginOrder(base), draws.offsets, RiskCount)
  {
    var currentSetpoint := RoundTenth(draws.setpoint);
    RoundTenthWithin(draws.setpoint, 21.0, 22.7);
    var base := BuildBaseRacks(draws.thresholds, draws.inlets);
    BaseRacksLaidOut(base, draws.thresholds, draws.inlets);
    var population := new Rack[|base|](i requires 0 <= i < |base| => base[i]);
    assert population[..] == base;
    EnforceRiskMoment(population, draws.offsets);
    var racks := population[..];
    InjectedRacksConsistent(base, draws.offsets);
    RiskMomentOutcome(base, draws.offsets);
    s := Snapshot(
      currentSetpoint,
      OverallHeadroom(racks),
      CountFragileOrCritical(racks),
      CountCritical(racks),
      racks,
      StressRack(racks),
      ReferenceDeltaRange);
  }

  /** After the risk injection the population keeps its layout and its
      tenths. */
  lemma InjectedRacksConsistent(base: seq<Rack>, offsets: seq<real>)
    requires GridLayout(base) && (forall i :: 0 <= i < |base| ==> StoredOnTenths(base[i]))
    requires |offsets| >= RiskCount
    ensures var racks := Injected(base, MarginOrder(base), offsets, RiskCount);
      && GridLayout(racks)
      && forall i :: 0 <= i < |racks| ==> StoredOnTenths(racks[i])
  {
    var order := MarginOrder(base);
    SortedDistinct(MarginKeys(base), order);
    InjectedRewritesPrefix(base, order, offsets, RiskCount);
    var racks := Injected(base, order, offsets, RiskCount);
    forall i | 0 <= i < |racks|
      ensures InSlot(racks[i], i) && StoredOnTenths(racks[i])
    {
      assert InSlot(base[i], i) && StoredOnTenths(base[i]);
      if i in order[..RiskCount] {
        var k :| 0 <= k < RiskCount && order[k] == i;
        assert racks[i] == RiskRack(base[i], offsets[k]);
      }
    }
  }

  /** Four distinct Fragile-or-Critical racks make the count at least four. */
  lemma FourAtRiskCounted(racks: seq<Rack>, p0: nat, p1: nat, p2: nat, p3: nat)
    requires p0 < |racks| && p1 < |racks| && p2 < |racks| && p3 < |racks|
    requires p0 != p1 && p0 != p2 && p0 != p3 && p1 != p2 && p1 != p3 && p2 != p3
    requires IsFragileOrCritical(racks[p0].category) && IsFragileOrCritical(racks[p1].category)
    requires IsFragileOrCritical(racks[p2].category) && IsFragileOrCritical(racks[p3].category)
    ensures CountFragileOrCritical(racks) >= RiskCount
  {
    var at := {p0, p1, p2, p3};
    assert |at| == RiskCount;
    CountFragileOrCriticalAtLeast(racks, at);
  }
}
