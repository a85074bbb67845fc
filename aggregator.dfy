/** Reductions of a rack population to hall-level indicators. */
module Aggregator {
  import opened Categories
  import opened Hall
  import opened Ordering

  function Max(a: nat, b: nat): nat {
    if a < b then b else a
  }

  /** `racks.reduce((maxIdx, rack) => Math.max(maxIdx, indexOf(rack.category)), 0)`. */
  function WorstRank(racks: seq<Rack>): (r: nat)
    ensures r < |CategoryOrder|
    ensures forall i :: 0 <= i < |racks| ==> Rank(racks[i].category) <= r
    ensures racks == [] ==> r == 0
    ensures racks != [] ==> exists i :: 0 <= i < |racks| && Rank(racks[i].category) == r
  {
    if racks == [] then 0
    else
      var init := racks[..|racks| - 1];
      var w := WorstRank(init);
      assert forall i :: 0 <= i < |init| ==> init[i] == racks[i];
      Max(w, Rank(racks[|racks| - 1].category))
  }

  /** The worst category present; Stable for an empty hall. */
  function OverallHeadroom(racks: seq<Rack>): (r: Category)
    ensures forall i :: 0 <= i < |racks| ==> Rank(racks[i].category) <= Rank(r)
    ensures racks == [] ==> r == Stable
    ensures racks != [] ==> exists i :: 0 <= i < |racks| && racks[i].category == r
    ensures (exists i :: 0 <= i < |racks| && racks[i].category == Critical) ==> r == Critical
  {
    CategoryOrder[WorstRank(racks)]
  }

  /** `racks.filter(Fragile or Critical).length`. */
  function CountFragileOrCritical(racks: seq<Rack>): (r: nat)
    ensures r <= |racks|
    ensures r == 0 <==> forall i :: 0 <= i < |racks| ==> !IsFragileOrCritical(racks[i].category)
  {
    if racks == [] then 0
    else
      var init := racks[..|racks| - 1];
      assert forall i :: 0 <= i < |init| ==> init[i] == racks[i];
      CountFragileOrCritical(init) + (if IsFragileOrCritical(racks[|racks| - 1].category) then 1 else 0)
  }

  /** `racks.filter(Critical).length`. */
  function CountCritical(racks: seq<Rack>): (r: nat)
    ensures r <= |racks|
    ensures r == 0 <==> forall i :: 0 <= i < |racks| ==> racks[i].category != Critical
  {
    if racks == [] then 0
    else
      var init := racks[..|racks| - 1];
      assert forall i :: 0 <= i < |init| ==> init[i] == racks[i];
      CountCritical(init) + (if racks[|racks| - 1].category == Critical then 1 else 0)
  }

  /** The Fragile-or-Critical count is exactly the number of positions
      holding a Fragile or Critical rack. */
  lemma {:induction false} CountFragileOrCriticalExact(racks: seq<Rack>)
    ensures CountFragileOrCritical(racks)
         == |set i | 0 <= i < |racks| && IsFragileOrCritical(racks[i].category)|
  {
    if racks != [] {
      var last := |racks| - 1;
      var init := racks[..last];
      CountFragileOrCriticalExact(init);
      var before := set i | 0 <= i < |init| && IsFragileOrCritical(init[i].category);
      var after := set i | 0 <= i < |racks| && IsFragileOrCritical(racks[i].category);
      assert forall i :: 0 <= i < last ==> init[i] == racks[i];
      if IsFragileOrCritical(racks[last].category) {
        assert after == before + {last};
      } else {
        assert after == before;
      }
    }
  }

  /** The Critical count is exactly the number of positions holding a
      Critical rack. */
  lemma {:induction false} CountCriticalExact(racks: seq<Rack>)
    ensures CountCritical(racks) == |set i | 0 <= i < |racks| && racks[i].category == Critical|
  {
    if racks != [] {
      var last := |racks| - 1;
      var init := racks[..last];
      CountCriticalExact(init);
      var before := set i | 0 <= i < |init| && init[i].category == Critical;
      var after := set i | 0 <= i < |racks| && racks[i].category == Critical;
      assert forall i :: 0 <= i < last ==> init[i] == racks[i];
      if racks[last].category == Critical {
        assert after == before + {last};
      } else {
        assert after == before;
      }
    }
  }

  lemma {:induction false} CriticalCountBounded(racks: seq<Rack>)
    ensures CountCritical(racks) <= CountFragileOrCritical(racks) <= |racks|
  {
    if racks != [] {
      CriticalCountBounded(racks[..|racks| - 1]);
    }
  }

  /** Any set of positions holding Fragile or Critical racks is a lower bound
      on the Fragile-or-Critical count. */
  lemma {:induction false} CountFragileOrCriticalAtLeast(racks: seq<Rack>, at: set<nat>)
    requires forall i :: i in at ==> i < |racks| && IsFragileOrCritical(racks[i].category)
    ensures CountFragileOrCritical(racks) >= |at|
  {
    if racks == [] {
      assert at == {};
    } else {
      var last := |racks| - 1;
      var init := racks[..last];
      var rest := at - {last};
      assert forall i :: i in rest ==> init[i] == racks[i];
      CountFragileOrCriticalAtLeast(init, rest);
      if last in at {
        assert |rest| == |at| - 1;
      } else {
        assert rest == at;
      }
    }
  }

  /** Sort keys for `sort((a, b) => a.thermalMargin - b.thermalMargin)`. */
  function MarginKeys(racks: seq<Rack>): (keys: seq<Key>)
    ensures |keys| == |racks|
    ensures forall i :: 0 <= i < |racks| ==> keys[i] == Key(0, racks[i].thermalMargin)
  {
    seq(|racks|, i requires 0 <= i < |racks| => Key(0, racks[i].thermalMargin))
  }

  /** The sorted copy of the population by ascending margin, as positions:
      every position once, margins non-decreasing, ties in original order. */
  function MarginOrder(racks: seq<Rack>): (order: seq<nat>)
    ensures |order| == |racks|
    ensures forall j: nat :: j in order <==> j < |racks|
    ensures forall a :: 0 <= a < |order| ==> order[a] < |racks|
    ensures forall a, b :: 0 <= a < b < |order| ==>
      || racks[order[a]].thermalMargin < racks[order[b]].thermalMargin
      || (racks[order[a]].thermalMargin == racks[order[b]].thermalMargin && order[a] < order[b])
  {
    var keys := MarginKeys(racks);
    var order := StableSort(keys);
    assert forall a, b :: 0 <= a < b < |order| ==> Before(keys, order[a], order[b]);
    order
  }

  /** Position of the first element of the sorted copy: a rack with the least
      margin, and the earliest such rack. */
  function StressIndex(racks: seq<Rack>): (k: nat)
    requires racks != []
    ensures k < |racks|
    ensures forall j :: 0 <= j < |racks| ==> racks[k].thermalMargin <= racks[j].thermalMargin
    ensures forall j :: 0 <= j < k ==> racks[k].thermalMargin < racks[j].thermalMargin
  {
    FirstIsEarliestLeast(racks);
    MarginOrder(racks)[0]
  }

  /** The first position of the margin order holds the least margin and no
      earlier position holds as little. */
  lemma FirstIsEarliestLeast(racks: seq<Rack>)
    requires racks != []
    ensures forall j :: 0 <= j < |racks| ==> racks[MarginOrder(racks)[0]].thermalMargin <= racks[j].thermalMargin
    ensures forall j :: 0 <= j < MarginOrder(racks)[0] ==> racks[MarginOrder(racks)[0]].thermalMargin < racks[j].thermalMargin
  {
    var order := MarginOrder(racks);
    forall j | 0 <= j < |racks|
      ensures racks[order[0]].thermalMargin <= racks[j].thermalMargin
      ensures j < order[0] ==> racks[order[0]].thermalMargin < racks[j].thermalMargin
    {
      assert j in order;
      var b :| 0 <= b < |order| && order[b] == j;
    }
  }

  /** `[...racks].sort(byMargin)[0]`: one of the racks, with the least margin. */
  function StressRack(racks: seq<Rack>): (r: Rack)
    requires racks != []
    ensures r in racks
    ensures forall j :: 0 <= j < |racks| ==> r.thermalMargin <= racks[j].thermalMargin
  {
    racks[StressIndex(racks)]
  }
}
