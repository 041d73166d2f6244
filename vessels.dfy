/**
 * The vessel visit statistics and the "vessels without circular voyages"
 * selection (app.py lines 188-201): arrival rows are grouped by the base name
 * `analyze_circular_voyages` gives their vessel, each group counts its
 * distinct arrival dates and takes its largest voyage number, and a base name
 * is selected when it has one arrival date and voyage number 0.
 */
module Vessels {
  import opened Common
  import opened Strings
  import opened Cells
  import opened Status
  import opened Voyages

  /** `базовое_название` of a row: the base name of its (cleaned) vessel text. */
  function BaseOf(r: Record): string {
    AnalyzeCircularVoyages(Str(r.vessel)).base.s
  }

  /** `номер_кругорейса` of a row. */
  function VoyageOf(r: Record): nat {
    AnalyzeCircularVoyages(Str(r.vessel)).number
  }

  /**
   * One row of `arrival_data` with the two columns lines 188-190 add: its base
   * name, its arrival date and its voyage number.
   */
  datatype Visit = Visit(base: string, arrival: Date, voyage: nat)

  /**
   * `arrival_data`: the rows with an arrival date, in order, each with its
   * base name and voyage number.
   */
  function ArrivalVisits(rs: seq<Record>): (vs: seq<Visit>)
    ensures |vs| <= |rs|
    ensures forall v :: v in vs <==> exists r :: r in rs && r.arrival.Some? && v == Visit(BaseOf(r), r.arrival.value, VoyageOf(r))
    decreases |rs|
  {
    if rs == [] then []
    else
      var before := ArrivalVisits(rs[..|rs| - 1]);
      var r := rs[|rs| - 1];
      assert forall x :: x in rs <==> x in rs[..|rs| - 1] || x == r by {
        assert rs == rs[..|rs| - 1] + [r];
      }
      if r.arrival.Some? then before + [Visit(BaseOf(r), r.arrival.value, VoyageOf(r))] else before
  }

  /** Visit `i` belongs to the group of base name `b`. */
  predicate InGroup(vs: seq<Visit>, b: string, i: int) {
    0 <= i < |vs| && vs[i].base == b
  }

  /** One row of `vessel_visit_stats`: the distinct arrival dates and the largest voyage number. */
  datatype VisitStats = VisitStats(arrivals: set<Date>, maxVoyage: nat)

  /** One visit added to the statistics gathered so far. */
  function AddVisit(m: map<string, VisitStats>, v: Visit): map<string, VisitStats> {
    if v.base in m then
      var st := m[v.base];
      m[v.base := VisitStats(st.arrivals + {v.arrival}, if v.voyage > st.maxVoyage then v.voyage else st.maxVoyage)]
    else
      m[v.base := VisitStats({v.arrival}, v.voyage)]
  }

  /**
   * `arrival_data.groupby('базовое_название').agg(...)`, keyed by base name:
   * each visit adds its date to its group's set of dates (`nunique` counts
   * that set) and may raise its group's maximum voyage number.
   */
  function VisitStatsOf(vs: seq<Visit>): map<string, VisitStats>
    decreases |vs|
  {
    if vs == [] then map[] else AddVisit(VisitStatsOf(vs[..|vs| - 1]), vs[|vs| - 1])
  }

  /**
   * `vessels_without_circular`: the base names whose group has exactly one
   * distinct arrival date (`количество_заходов == 1`) and largest voyage number
   * 0 (`максимальный_кругорейс == 0`).
   */
  function WithoutCircular(stats: map<string, VisitStats>): set<string> {
    set b | b in stats && |stats[b].arrivals| == 1 && stats[b].maxVoyage == 0
  }

  function VesselsWithoutCircular(rs: seq<Record>): set<string> {
    WithoutCircular(VisitStatsOf(ArrivalVisits(rs)))
  }

  lemma InGroupPrefix(vs: seq<Visit>, b: string, i: int)
    requires vs != []
    ensures InGroup(vs[..|vs| - 1], b, i) <==> InGroup(vs, b, i) && i < |vs| - 1
  {
    if 0 <= i < |vs| - 1 {
      assert vs[..|vs| - 1][i] == vs[i];
    }
  }

  /** A base name has a group exactly when some visit carries it. */
  lemma {:induction false} VisitStatsKeys(vs: seq<Visit>, b: string)
    ensures b in VisitStatsOf(vs) <==> exists i :: InGroup(vs, b, i)
    decreases |vs|
  {
    if vs != [] {
      var p := vs[..|vs| - 1];
      VisitStatsKeys(p, b);
      if b in VisitStatsOf(p) {
        var i :| InGroup(p, b, i);
        InGroupPrefix(vs, b, i);
      } else if exists i :: InGroup(vs, b, i) {
        var i :| InGroup(vs, b, i);
        InGroupPrefix(vs, b, i);
        assert !InGroup(p, b, i);
      } else {
        assert !InGroup(vs, b, |vs| - 1);
      }
    }
  }

  /** A group's date set holds exactly the arrival dates of its visits. */
  lemma {:induction false} VisitStatsArrivals(vs: seq<Visit>, b: string, d: Date)
    requires b in VisitStatsOf(vs)
    ensures d in VisitStatsOf(vs)[b].arrivals <==> exists i :: InGroup(vs, b, i) && vs[i].arrival == d
    decreases |vs|
  {
    var p := vs[..|vs| - 1];
    var last := |vs| - 1;
    if b in VisitStatsOf(p) {
      VisitStatsArrivals(p, b, d);
      if d in VisitStatsOf(p)[b].arrivals {
        var i :| InGroup(p, b, i) && p[i].arrival == d;
        InGroupPrefix(vs, b, i);
      }
    } else {
      VisitStatsKeys(p, b);
    }
    if exists i :: InGroup(vs, b, i) && vs[i].arrival == d {
      var i :| InGroup(vs, b, i) && vs[i].arrival == d;
      InGroupPrefix(vs, b, i);
      if i < last {
        assert InGroup(p, b, i) && p[i].arrival == d;
        VisitStatsKeys(p, b);
      }
    }
  }

  /** A group's maximum bounds the voyage number of each of its visits and is one of them. */
  lemma {:induction false} VisitStatsMax(vs: seq<Visit>, b: string)
    requires b in VisitStatsOf(vs)
    ensures forall i :: InGroup(vs, b, i) ==> vs[i].voyage <= VisitStatsOf(vs)[b].maxVoyage
    ensures exists i :: InGroup(vs, b, i) && vs[i].voyage == VisitStatsOf(vs)[b].maxVoyage
    decreases |vs|
  {
    var p := vs[..|vs| - 1];
    var last := |vs| - 1;
    var top := VisitStatsOf(vs)[b].maxVoyage;
    if b in VisitStatsOf(p) {
      VisitStatsMax(p, b);
      var j :| InGroup(p, b, j) && p[j].voyage == VisitStatsOf(p)[b].maxVoyage;
      InGroupPrefix(vs, b, j);
      forall i | InGroup(vs, b, i) ensures vs[i].voyage <= top {
        InGroupPrefix(vs, b, i);
        if i < last {
          assert p[i] == vs[i];
        }
      }
      if !(InGroup(vs, b, last) && vs[last].voyage == top) {
        assert p[j] == vs[j];
      }
    } else {
      VisitStatsKeys(p, b);
      forall i | InGroup(vs, b, i) ensures i == last {
        InGroupPrefix(vs, b, i);
      }
      assert InGroup(vs, b, last);
    }
  }

  /** A set has one element exactly when it is non-empty and any two of its elements are equal. */
  lemma SingletonSet<T>(s: set<T>)
    ensures |s| == 1 <==> s != {} && forall x, y :: x in s && y in s ==> x == y
  {
    if |s| == 1 {
      var x :| x in s;
      assert |s - {x}| == 0;
      forall y | y in s ensures y == x {
        assert y !in s - {x};
      }
    }
    if s != {} && forall x, y :: x in s && y in s ==> x == y {
      var x :| x in s;
      assert s == {x};
    }
  }

  /**
   * A base name is selected exactly when some visit carries it, all its visits
   * share one arrival date, and every one of them has voyage number 0.
   */
  lemma WithoutCircularExactly(vs: seq<Visit>, b: string)
    ensures b in WithoutCircular(VisitStatsOf(vs)) <==>
      && (exists i :: InGroup(vs, b, i))
      && (forall i, j :: InGroup(vs, b, i) && InGroup(vs, b, j) ==> vs[i].arrival == vs[j].arrival)
      && (forall i :: InGroup(vs, b, i) ==> vs[i].voyage == 0)
  {
    VisitStatsKeys(vs, b);
    if b in VisitStatsOf(vs) {
      var st := VisitStatsOf(vs)[b];
      forall d ensures d in st.arrivals <==> exists i :: InGroup(vs, b, i) && vs[i].arrival == d {
        VisitStatsArrivals(vs, b, d);
      }
      VisitStatsMax(vs, b);
      SingletonSet(st.arrivals);
      var k :| InGroup(vs, b, k);
      assert vs[k].arrival in st.arrivals;
      if b in WithoutCircular(VisitStatsOf(vs)) {
        forall i, j | InGroup(vs, b, i) && InGroup(vs, b, j) ensures vs[i].arrival == vs[j].arrival {
          assert vs[i].arrival in st.arrivals && vs[j].arrival in st.arrivals;
        }
      }
      if forall i, j :: InGroup(vs, b, i) && InGroup(vs, b, j) ==> vs[i].arrival == vs[j].arrival {
        forall d | d in st.arrivals ensures d == vs[k].arrival {
          var i :| InGroup(vs, b, i) && vs[i].arrival == d;
        }
        assert st.arrivals == {vs[k].arrival};
      }
    }
  }

  /** The same for the sheet's rows: the visits are the rows of `arrival_data`. */
  lemma VesselsWithoutCircularExactly(rs: seq<Record>, b: string)
    ensures var vs := ArrivalVisits(rs);
      b in VesselsWithoutCircular(rs) <==>
      && (exists i :: InGroup(vs, b, i))
      && (forall i, j :: InGroup(vs, b, i) && InGroup(vs, b, j) ==> vs[i].arrival == vs[j].arrival)
      && (forall i :: InGroup(vs, b, i) ==> vs[i].voyage == 0)
  {
    WithoutCircularExactly(ArrivalVisits(rs), b);
  }

  /**
   * A base name that arrived even once under a numbered voyage, or on two
   * different dates, is not among the vessels without circular voyages.
   */
  lemma RepeatVisitorsNotSelected(rs: seq<Record>, i: nat, j: nat)
    requires i < |rs| && j < |rs| && rs[i].arrival.Some? && rs[j].arrival.Some?
    requires BaseOf(rs[i]) == BaseOf(rs[j])
    requires VoyageOf(rs[i]) > 0 || rs[i].arrival != rs[j].arrival
    ensures BaseOf(rs[i]) !in VesselsWithoutCircular(rs)
  {
    var vs := ArrivalVisits(rs);
    var b := BaseOf(rs[i]);
    var vi := Visit(b, rs[i].arrival.value, VoyageOf(rs[i]));
    var vj := Visit(b, rs[j].arrival.value, VoyageOf(rs[j]));
    assert vi in vs && vj in vs;
    var k :| 0 <= k < |vs| && vs[k] == vi;
    var l :| 0 <= l < |vs| && vs[l] == vj;
    assert InGroup(vs, b, k) && InGroup(vs, b, l);
    WithoutCircularExactly(vs, b);
  }
}
