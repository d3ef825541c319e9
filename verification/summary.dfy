/** Per-stop aggregation (preprocess.py:66-103): the matched barriers are
    filtered, deduplicated by `attribute_id`, and summarised into one
    StopRecord; plus the stop-to-routes lookup built at preprocess.py:33-35. */
module Summary {
  import opened Common
  import opened Records
  import Strings
  import Histogram
  import Vote

  /** A barrier the loop does not skip for its own sake: not temporary
      (`is_temporary == "true"`) and with a non-empty severity. */
  predicate Eligible(b: Barrier) {
    b.isTemporary != "true" && b.severity.Some?
  }

  /** The attribute ids of `bs`. */
  function Ids(bs: seq<Barrier>): set<string> {
    if |bs| == 0 then {} else {bs[0].attributeId} + Ids(bs[1..])
  }

  /** The attribute ids of the eligible barriers of `bs`. */
  function EligibleIds(bs: seq<Barrier>): set<string> {
    if |bs| == 0 then {}
    else (if Eligible(bs[0]) then {bs[0].attributeId} else {}) + EligibleIds(bs[1..])
  }

  predicate DistinctIds(bs: seq<Barrier>) {
    forall i, j :: 0 <= i < j < |bs| ==> bs[i].attributeId != bs[j].attributeId
  }

  /** The barriers the loop at preprocess.py:72-87 counts, in order, when
      the ids in `seen` are already in `barrier_ids`. A temporary barrier
      is skipped; then one whose id is already recorded; then one with an
      empty severity. The id is recorded only once all three checks pass,
      so a record with an empty severity does not block a later record
      with the same id. */
  function CountedFrom(bs: seq<Barrier>, seen: set<string>): seq<Barrier>
  {
    if |bs| == 0 then []
    else
      var b := bs[0];
      if b.isTemporary == "true" then CountedFrom(bs[1..], seen)
      else if b.attributeId in seen then CountedFrom(bs[1..], seen)
      else if b.severity.None? then CountedFrom(bs[1..], seen)
      else [b] + CountedFrom(bs[1..], seen + {b.attributeId})
  }

  /** What the loop counts: only eligible barriers whose id was not yet
      recorded, each id at most once, every eligible id of the input that
      was not yet recorded, and nothing that was not in the input. */
  lemma {:induction false} CountedFromSpec(bs: seq<Barrier>, seen: set<string>)
    ensures var r := CountedFrom(bs, seen);
            && (forall i :: 0 <= i < |r| ==> Eligible(r[i]) && r[i].attributeId !in seen)
            && DistinctIds(r)
            && Ids(r) == EligibleIds(bs) - seen
            && multiset(r) <= multiset(bs)
  {
    if |bs| > 0 {
      var b := bs[0];
      assert bs == [b] + bs[1..];
      if Eligible(b) && b.attributeId !in seen {
        CountedFromSpec(bs[1..], seen + {b.attributeId});
        var rest := CountedFrom(bs[1..], seen + {b.attributeId});
        assert CountedFrom(bs, seen) == [b] + rest;
        assert ([b] + rest)[1..] == rest;
      } else {
        CountedFromSpec(bs[1..], seen);
      }
    }
  }

  /** `bs[j]` is eligible and no earlier barrier of `bs` is an eligible
      one with the same id: the record the loop counts for that id. */
  predicate FirstEligibleAt(bs: seq<Barrier>, j: nat) {
    && j < |bs|
    && Eligible(bs[j])
    && forall k :: 0 <= k < j ==> !(Eligible(bs[k]) && bs[k].attributeId == bs[j].attributeId)
  }

  /** Which record of a repeated id is counted, and in what order: each
      counted barrier is, at its first occurrence, the first eligible
      barrier of its id, and the counted barriers keep the input order. */
  lemma {:induction false} CountedFromFirst(bs: seq<Barrier>, seen: set<string>)
    ensures var r := CountedFrom(bs, seen);
            && (forall i :: 0 <= i < |r| ==> r[i] in bs && FirstEligibleAt(bs, FirstIndex(bs, r[i])))
            && (forall i, j :: 0 <= i < j < |r| ==> FirstIndex(bs, r[i]) < FirstIndex(bs, r[j]))
  {
    if |bs| > 0 {
      var b, t := bs[0], bs[1..];
      var counted := Eligible(b) && b.attributeId !in seen;
      var seen' := if counted then seen + {b.attributeId} else seen;
      CountedFromFirst(t, seen');
      CountedFromSpec(t, seen');
      var rest := CountedFrom(t, seen');
      forall i | 0 <= i < |rest|
        ensures rest[i] in bs && FirstIndex(bs, rest[i]) == 1 + FirstIndex(t, rest[i])
        ensures FirstEligibleAt(bs, FirstIndex(bs, rest[i]))
      {
        FirstEligibleCons(bs, rest[i]);
      }
      if counted {
        assert CountedFrom(bs, seen) == [b] + rest;
        ConsFirst(bs, rest);
      } else {
        assert CountedFrom(bs, seen) == rest;
      }
    }
  }

  /** One step of `CountedFromFirst`: a barrier that is first eligible for
      its id in the tail, and not preceded by an eligible head of the same
      id, is first eligible in the whole sequence. */
  lemma FirstEligibleCons(bs: seq<Barrier>, x: Barrier)
    requires |bs| > 0 && x in bs[1..] && Eligible(x)
    requires !(Eligible(bs[0]) && bs[0].attributeId == x.attributeId)
    requires FirstEligibleAt(bs[1..], FirstIndex(bs[1..], x))
    ensures x in bs && FirstIndex(bs, x) == 1 + FirstIndex(bs[1..], x)
    ensures FirstEligibleAt(bs, FirstIndex(bs, x))
  {
    var t := bs[1..];
    FirstIndexTail(bs, x);
    var j := FirstIndex(t, x);
    forall k | 0 <= k < j + 1
      ensures !(Eligible(bs[k]) && bs[k].attributeId == bs[j + 1].attributeId)
    {
      if k > 0 {
        assert bs[k] == t[k - 1];
      }
    }
  }

  /** Putting the head in front of barriers that first occur later keeps
      the order clause of `CountedFromFirst`. */
  lemma ConsFirst(bs: seq<Barrier>, rest: seq<Barrier>)
    requires |bs| > 0
    requires forall i :: 0 <= i < |rest| ==> rest[i] in bs[1..] && rest[i] in bs && FirstIndex(bs, rest[i]) == 1 + FirstIndex(bs[1..], rest[i])
    requires forall i, j :: 0 <= i < j < |rest| ==> FirstIndex(bs[1..], rest[i]) < FirstIndex(bs[1..], rest[j])
    requires forall i :: 0 <= i < |rest| ==> FirstEligibleAt(bs, FirstIndex(bs, rest[i]))
    requires Eligible(bs[0])
    ensures var r := [bs[0]] + rest;
            && (forall i :: 0 <= i < |r| ==> r[i] in bs && FirstEligibleAt(bs, FirstIndex(bs, r[i])))
            && (forall i, j :: 0 <= i < j < |r| ==> FirstIndex(bs, r[i]) < FirstIndex(bs, r[j]))
  {
    var r := [bs[0]] + rest;
    assert FirstIndex(bs, bs[0]) == 0;
    forall i | 0 < i < |r| ensures r[i] == rest[i - 1] { }
  }

  /** The barriers counted for one stop. */
  function Counted(nearby: seq<Barrier>): seq<Barrier> {
    CountedFrom(nearby, {})
  }

  /** The severity levels of `bs`, in order (barriers without one add
      nothing; no counted barrier lacks one). */
  function Levels(bs: seq<Barrier>): seq<int> {
    if |bs| == 0 then []
    else
      match bs[0].severity
      case Some(v) => [v] + Levels(bs[1..])
      case None => Levels(bs[1..])
  }

  lemma {:induction false} LevelsLength(bs: seq<Barrier>)
    requires forall i :: 0 <= i < |bs| ==> Eligible(bs[i])
    ensures |Levels(bs)| == |bs|
  {
    if |bs| > 0 {
      assert Eligible(bs[0]);
      LevelsLength(bs[1..]);
    }
  }

  /** The `label_type`s of `bs`, in order. */
  function LabelTypes(bs: seq<Barrier>): (r: seq<string>)
    ensures forall x :: x in r <==> exists i :: 0 <= i < |bs| && bs[i].labelType == x
  {
    if |bs| == 0 then []
    else
      assert forall i :: 0 < i < |bs| ==> bs[i] == bs[1..][i - 1];
      [bs[0].labelType] + LabelTypes(bs[1..])
  }

  /** The non-empty neighbourhood labels of `bs`, in order (`if nbh:`). */
  function NeighborhoodLabels(bs: seq<Barrier>): (r: seq<string>)
    ensures forall x :: x in r <==> x != "" && exists i :: 0 <= i < |bs| && bs[i].neighborhood == x
  {
    if |bs| == 0 then []
    else
      assert forall i :: 0 < i < |bs| ==> bs[i] == bs[1..][i - 1];
      (if bs[0].neighborhood != "" then [bs[0].neighborhood] else []) + NeighborhoodLabels(bs[1..])
  }

  /** Labels are collected barrier by barrier: the labels of a
      concatenation are the labels of each part, in order. */
  lemma {:induction false} NeighborhoodLabelsAppend(a: seq<Barrier>, b: seq<Barrier>)
    ensures NeighborhoodLabels(a + b) == NeighborhoodLabels(a) + NeighborhoodLabels(b)
  {
    if |a| == 0 {
      assert a + b == b;
    } else {
      assert (a + b)[0] == a[0] && (a + b)[1..] == a[1..] + b;
      NeighborhoodLabelsAppend(a[1..], b);
    }
  }

  /** The positions of the barriers of `bs` labelled `x`. */
  function LabelledAt(bs: seq<Barrier>, x: string): set<nat> {
    set i: nat | i < |bs| && bs[i].neighborhood == x
  }

  /** `neighborhoods[nbh] += 1` once per barrier: a non-empty label gets
      one vote for every barrier carrying it, the empty label none. */
  lemma {:induction false} NeighborhoodLabelsCount(bs: seq<Barrier>, x: string)
    ensures multiset(NeighborhoodLabels(bs))[x] == if x == "" then 0 else |LabelledAt(bs, x)|
  {
    if |bs| > 0 {
      var init, last := bs[..|bs| - 1], bs[|bs| - 1];
      NeighborhoodLabelsCount(init, x);
      assert bs == init + [last];
      NeighborhoodLabelsAppend(init, [last]);
      var one := if last.neighborhood != "" then [last.neighborhood] else [];
      assert NeighborhoodLabels([last]) == one;
      assert multiset(NeighborhoodLabels(bs)) == multiset(NeighborhoodLabels(init)) + multiset(one);
      LabelledAtSnoc(init, last, x);
    } else {
      assert LabelledAt(bs, x) == {};
    }
  }

  lemma LabelledAtSnoc(init: seq<Barrier>, last: Barrier, x: string)
    ensures |LabelledAt(init + [last], x)| == |LabelledAt(init, x)| + (if last.neighborhood == x then 1 else 0)
  {
    var bs := init + [last];
    assert |init| !in LabelledAt(init, x);
    forall i: nat ensures i in LabelledAt(bs, x) <==> i in LabelledAt(init, x) || (i == |init| && last.neighborhood == x) {
      if i < |init| {
        assert bs[i] == init[i];
      }
    }
    if last.neighborhood == x {
      assert LabelledAt(bs, x) == LabelledAt(init, x) + {|init|};
    } else {
      assert LabelledAt(bs, x) == LabelledAt(init, x);
    }
  }

  /** `route_map`: stop id to the route numbers of its membership rows, in
      row order (duplicates are harmless, the record sorts a set of them). */
  function RouteMap(rows: seq<RouteRow>): (m: map<string, seq<string>>)
    ensures forall id, x :: x in RoutesOf(m, id) <==> RouteRow(id, x) in rows
  {
    if |rows| == 0 then map[]
    else
      var init := rows[..|rows| - 1];
      var row := rows[|rows| - 1];
      assert rows == init + [row];
      var m := RouteMap(init);
      m[row.stopId := RoutesOf(m, row.stopId) + [row.routeNum]]
  }

  /** `route_map.get(stop_id, [])`. */
  function RoutesOf(m: map<string, seq<string>>, id: string): seq<string> {
    if id in m then m[id] else []
  }

  /** The StopRecord built for `stop` from its scan result `nearby`. */
  function Summarize(stop: Stop, nearby: seq<Barrier>, routeMap: map<string, seq<string>>): StopRecord {
    var c := Counted(nearby);
    StopRecord(
      stop.id,
      stop.name,
      stop.lat,
      stop.lon,
      Strings.SortedSet(RoutesOf(routeMap, stop.id)),
      Vote.Plurality(NeighborhoodLabels(c)),
      Strings.SortedSet(LabelTypes(c)),
      Histogram.Build(Levels(c)),
      |Ids(c)|)
  }

  /** The stop's own fields (`id`, `name`, `lat`, `lon`, `routes`) come
      from the stop and the route map alone: no scan result changes them. */
  lemma StopFieldsIgnoreScan(stop: Stop, x: seq<Barrier>, y: seq<Barrier>, routeMap: map<string, seq<string>>)
    ensures var r, q := Summarize(stop, x, routeMap), Summarize(stop, y, routeMap);
            r.id == q.id && r.name == q.name && r.lat == q.lat && r.lon == q.lon && r.routes == q.routes
  {
  }

  /** What the record says about the stop's counted barriers `c`: its
      routes are the stop's routes, sorted; its barrier types are the
      types in `c`, sorted; its histogram counts each level as often as it
      occurs in `c`; `total_barriers` is the number of distinct eligible
      ids the scan met, which is also the sum of the histogram; and its
      neighbourhood is the plurality label of `c`, `None` when no counted
      barrier has one. */
  lemma SummarizeSpec(stop: Stop, nearby: seq<Barrier>, routeMap: map<string, seq<string>>)
    ensures var r := Summarize(stop, nearby, routeMap);
            r.id == stop.id && r.name == stop.name && r.lat == stop.lat && r.lon == stop.lon
    ensures var r := Summarize(stop, nearby, routeMap);
            && Strings.StrictlySorted(r.routes)
            && (forall x :: x in r.routes <==> x in RoutesOf(routeMap, stop.id))
    ensures var r := Summarize(stop, nearby, routeMap);
            var c := Counted(nearby);
            && Strings.StrictlySorted(r.barrierTypes)
            && (forall x :: x in r.barrierTypes <==> exists i :: 0 <= i < |c| && c[i].labelType == x)
    ensures var r := Summarize(stop, nearby, routeMap);
            var c := Counted(nearby);
            && Histogram.Ascending(r.severity)
            && Histogram.Positive(r.severity)
            && (forall lv :: Histogram.CountOf(r.severity, lv) == multiset(Levels(c))[lv])
    ensures var r := Summarize(stop, nearby, routeMap);
            && r.totalBarriers == |Counted(nearby)| == |EligibleIds(nearby)|
            && Histogram.Total(r.severity) == r.totalBarriers
    ensures var r := Summarize(stop, nearby, routeMap);
            var names := NeighborhoodLabels(Counted(nearby));
            && (r.neighborhood.None? <==> |names| == 0)
            && (r.neighborhood.Some? ==> Vote.IsPlurality(names, r.neighborhood.value))
  {
    var c := Counted(nearby);
    CountedFromSpec(nearby, {});
    DistinctIdsCard(c);
    LevelsLength(c);
    Histogram.BuildTotals(Levels(c), 0);
  }

  /** With distinct ids, the id set is as large as the sequence. */
  lemma {:induction false} DistinctIdsCard(bs: seq<Barrier>)
    requires DistinctIds(bs)
    ensures |Ids(bs)| == |bs|
  {
    if |bs| > 0 {
      DistinctIdsCard(bs[1..]);
      IdsMembers(bs[1..], bs[0].attributeId);
    }
  }

  lemma {:induction false} IdsMembers(bs: seq<Barrier>, id: string)
    ensures id in Ids(bs) <==> exists i :: 0 <= i < |bs| && bs[i].attributeId == id
  {
    if |bs| > 0 {
      IdsMembers(bs[1..], id);
      if id in Ids(bs[1..]) {
        var i :| 0 <= i < |bs[1..]| && bs[1..][i].attributeId == id;
        assert bs[i + 1].attributeId == id;
      }
      if exists i :: 0 <= i < |bs| && bs[i].attributeId == id {
        var i :| 0 <= i < |bs| && bs[i].attributeId == id;
        if i > 0 {
          assert bs[1..][i - 1].attributeId == id;
        }
      }
    }
  }

  /** The eligible barriers of `bs`, in order. */
  function EligibleOnly(bs: seq<Barrier>): seq<Barrier> {
    if |bs| == 0 then []
    else (if Eligible(bs[0]) then [bs[0]] else []) + EligibleOnly(bs[1..])
  }

  lemma {:induction false} CountedFromIgnoresIneligible(bs: seq<Barrier>, seen: set<string>)
    ensures CountedFrom(bs, seen) == CountedFrom(EligibleOnly(bs), seen)
  {
    if |bs| > 0 {
      var b := bs[0];
      var seen' := if Eligible(b) && b.attributeId !in seen then seen + {b.attributeId} else seen;
      CountedFromIgnoresIneligible(bs[1..], seen');
      if Eligible(b) {
        var e := [b] + EligibleOnly(bs[1..]);
        assert EligibleOnly(bs) == e;
        assert e[0] == b && e[1..] == EligibleOnly(bs[1..]);
        if b.attributeId in seen {
          assert CountedFrom(e, seen) == CountedFrom(e[1..], seen);
          assert CountedFrom(bs, seen) == CountedFrom(bs[1..], seen);
        } else {
          assert CountedFrom(e, seen) == [b] + CountedFrom(e[1..], seen');
          assert CountedFrom(bs, seen) == [b] + CountedFrom(bs[1..], seen');
        }
      } else {
        assert EligibleOnly(bs) == EligibleOnly(bs[1..]);
        assert CountedFrom(bs, seen) == CountedFrom(bs[1..], seen);
      }
    }
  }

  /** Filter soundness: a temporary barrier or one with an empty severity
      never contributes to any field of the record. Dropping every such
      barrier from the scan result leaves the record unchanged. */
  lemma SummarizeIgnoresIneligible(stop: Stop, nearby: seq<Barrier>, routeMap: map<string, seq<string>>)
    ensures Summarize(stop, nearby, routeMap) == Summarize(stop, EligibleOnly(nearby), routeMap)
  {
    CountedFromIgnoresIneligible(nearby, {});
  }

  /** Counting a concatenation counts the first part, then the second part
      with the first part's ids recorded. */
  lemma {:induction false} CountedFromAppend(a: seq<Barrier>, b: seq<Barrier>, seen: set<string>)
    ensures CountedFrom(a + b, seen) == CountedFrom(a, seen) + CountedFrom(b, seen + Ids(CountedFrom(a, seen)))
  {
    if |a| > 0 {
      var x := a[0];
      assert (a + b)[0] == x && (a + b)[1..] == a[1..] + b;
      var seen' := if Eligible(x) && x.attributeId !in seen then seen + {x.attributeId} else seen;
      CountedFromAppend(a[1..], b, seen');
      if Eligible(x) && x.attributeId !in seen {
        var rest := CountedFrom(a[1..], seen');
        assert Ids([x] + rest) == {x.attributeId} + Ids(rest) by {
          assert ([x] + rest)[1..] == rest;
        }
        assert seen + Ids([x] + rest) == seen' + Ids(rest);
      }
    } else {
      assert a + b == b;
      assert CountedFrom(a, seen) == [];
      assert Ids(CountedFrom(a, seen)) == {};
      assert seen + {} == seen;
    }
  }

  /** Nothing is counted once every eligible id is already recorded. */
  lemma {:induction false} CountedFromAllSeen(bs: seq<Barrier>, seen: set<string>)
    requires EligibleIds(bs) <= seen
    ensures CountedFrom(bs, seen) == []
  {
    if |bs| > 0 {
      CountedFromAllSeen(bs[1..], seen);
    }
  }

  /** Deduplication: feeding the same scan result twice gives the same
      record as feeding it once, since every id is counted at most once. */
  lemma SummarizeDuplicatedInput(stop: Stop, nearby: seq<Barrier>, routeMap: map<string, seq<string>>)
    ensures Summarize(stop, nearby + nearby, routeMap) == Summarize(stop, nearby, routeMap)
  {
    CountedFromAppend(nearby, nearby, {});
    CountedFromSpec(nearby, {});
    CountedFromAllSeen(nearby, Ids(Counted(nearby)));
    assert Counted(nearby) + [] == Counted(nearby);
  }

  /** An id is eligible exactly when some eligible barrier carries it. */
  lemma {:induction false} EligibleIdsMembers(bs: seq<Barrier>, id: string)
    ensures id in EligibleIds(bs) <==> exists b :: b in bs && Eligible(b) && b.attributeId == id
  {
    if |bs| > 0 {
      EligibleIdsMembers(bs[1..], id);
      assert bs == [bs[0]] + bs[1..];
    }
  }

  /** `total_barriers` depends only on which barriers were matched, not on
      the order or multiplicity of the scan. */
  lemma TotalDependsOnlyOnMembers(stop: Stop, a: seq<Barrier>, b: seq<Barrier>, routeMap: map<string, seq<string>>)
    requires forall x :: x in a <==> x in b
    ensures Summarize(stop, a, routeMap).totalBarriers == Summarize(stop, b, routeMap).totalBarriers
  {
    forall id ensures id in EligibleIds(a) <==> id in EligibleIds(b) {
      EligibleIdsMembers(a, id);
      EligibleIdsMembers(b, id);
    }
    assert EligibleIds(a) == EligibleIds(b);
    SummarizeSpec(stop, a, routeMap);
    SummarizeSpec(stop, b, routeMap);
  }
}
