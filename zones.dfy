/** Training zones in LTHREstimate.py: the five bands derived from LTHR
    (`calculate_heart_rate_zones`), the first-match classifier used for the
    `hr_zone` export column (`classify_zone` in `main`), and the elapsed-time
    export columns. */
module Zones {
  import opened Wrappers
  import opened Telemetry
  import opened PyNum

  /** One zone: identifier, label, closed range [low, high] and its description. */
  datatype Band = Band(id: string, name: string, low: int, high: int, percentage: string)

  /** The band edges as fractions of LTHR: Zk spans Edges[k-1]..Edges[k]. */
  const Edges: seq<real> := [0.62, 0.77, 0.86, 0.91, 0.95, 1.03]

  const ZoneIds: seq<string> := ["Z1", "Z2", "Z3", "Z4", "Z5"]

  /** `calculate_heart_rate_zones`: five bands Z1..Z5 in that order, each bound
      `int(lthr * pct)` computed on its own from the same LTHR. */
  function HeartRateZones(lthr: real): (z: seq<Band>)
    ensures |z| == 5
    ensures forall k :: 0 <= k < 5 ==> z[k].id == ZoneIds[k]
    ensures forall k :: 0 <= k < 5 ==>
      z[k].low == Trunc(lthr * Edges[k]) && z[k].high == Trunc(lthr * Edges[k + 1])
  {
    [ Band("Z1", "Zone 1 (Active Recovery)", Trunc(lthr * 0.62), Trunc(lthr * 0.77), "62-77% of LTHR"),
      Band("Z2", "Zone 2 (Aerobic Base)", Trunc(lthr * 0.77), Trunc(lthr * 0.86), "77-86% of LTHR"),
      Band("Z3", "Zone 3 (Tempo)", Trunc(lthr * 0.86), Trunc(lthr * 0.91), "86-91% of LTHR"),
      Band("Z4", "Zone 4 (Lactate Threshold)", Trunc(lthr * 0.91), Trunc(lthr * 0.95), "91-95% of LTHR"),
      Band("Z5", "Zone 5 (VO2 Max)", Trunc(lthr * 0.95), Trunc(lthr * 1.03), "95-103% of LTHR") ]
  }

  /** Adjacent bands share their edge exactly (both are `int(lthr * pct)` of the
      same pct), and for a non-negative LTHR every band is non-empty and the
      bands climb. */
  lemma ZonesContiguous(lthr: real)
    ensures var z := HeartRateZones(lthr);
      forall k :: 0 <= k < 4 ==> z[k].high == z[k + 1].low
    ensures var z := HeartRateZones(lthr);
      0.0 <= lthr ==> forall k :: 0 <= k < 5 ==> 0 <= z[k].low <= z[k].high
  {
    var z := HeartRateZones(lthr);
    if 0.0 <= lthr {
      forall k | 0 <= k < 5 ensures 0 <= z[k].low <= z[k].high {
        assert 0.0 <= lthr * Edges[k] <= lthr * Edges[k + 1];
      }
    }
  }

  /** Worked example: an LTHR of 150 gives Z1 = [93, 115], Z2 = [115, 129],
      Z3 = [129, 136], Z4 = [136, 142], Z5 = [142, 154]. */
  lemma ZonesFor150()
    ensures var z := HeartRateZones(150.0);
      && z[0].low == 93 && z[0].high == 115 && z[1].low == 115 && z[1].high == 129
      && z[2].low == 129 && z[2].high == 136 && z[3].low == 136 && z[3].high == 142
      && z[4].low == 142 && z[4].high == 154
  {
  }

  /** `low <= hr <= high` for a band. */
  predicate InBand(v: real, b: Band) {
    b.low as real <= v <= b.high as real
  }

  /** The scan of `classify_zone`: the index of the first band containing `v`. */
  function FirstBand(v: real, bands: seq<Band>): (r: Option<nat>)
    ensures r.Some? ==> r.value < |bands| && InBand(v, bands[r.value]) &&
                        forall j :: 0 <= j < r.value ==> !InBand(v, bands[j])
    ensures r.None? ==> forall j :: 0 <= j < |bands| ==> !InBand(v, bands[j])
  {
    if bands == [] then None
    else if InBand(v, bands[0]) then Some(0)
    else match FirstBand(v, bands[1..])
      case None => None
      case Some(k) => Some(k + 1)
  }

  /** `classify_zone`: "No Data" for a missing value; otherwise the first band
      whose closed range holds the value; failing that "Above Z5" when the value
      exceeds Z5's upper bound, else "Below Z1". */
  function ClassifyZone(hr: Option<real>, lthr: real): (r: string)
    ensures hr.None? ==> r == "No Data"
    ensures forall k :: 0 <= k < 5 ==>
      (r == ZoneIds[k] <==> hr.Some? && InBand(hr.value, HeartRateZones(lthr)[k]) &&
                            forall j :: 0 <= j < k ==> !InBand(hr.value, HeartRateZones(lthr)[j]))
  {
    match hr
    case None => "No Data"
    case Some(v) =>
      var zones := HeartRateZones(lthr);
      match FirstBand(v, zones)
      case Some(k) => zones[k].id
      case None => if v > zones[4].high as real then "Above Z5" else "Below Z1"
  }

  /** For a non-negative LTHR the bands tile [Z1 low, Z5 high] without gaps:
      a value in that range lies in some band, a value outside it in none. */
  lemma {:induction false} ZonesCover(v: real, lthr: real)
    requires 0.0 <= lthr
    ensures var z := HeartRateZones(lthr);
      (z[0].low as real <= v <= z[4].high as real) <==> exists k :: 0 <= k < 5 && InBand(v, z[k])
  {
    var z := HeartRateZones(lthr);
    ZonesContiguous(lthr);
    assert z[0].low <= z[0].high == z[1].low <= z[1].high == z[2].low <= z[2].high
        == z[3].low <= z[3].high == z[4].low <= z[4].high;
    if z[0].low as real <= v <= z[4].high as real {
      if v <= z[0].high as real { assert InBand(v, z[0]); }
      else if v <= z[1].high as real { assert InBand(v, z[1]); }
      else if v <= z[2].high as real { assert InBand(v, z[2]); }
      else if v <= z[3].high as real { assert InBand(v, z[3]); }
      else { assert InBand(v, z[4]); }
    }
  }

  /** For a non-negative LTHR a present value is "Below Z1" exactly when it is
      under Z1's lower bound and "Above Z5" exactly when it is over Z5's upper
      bound; every other value gets a band. */
  lemma OutOfRange(v: real, lthr: real)
    requires 0.0 <= lthr
    ensures var z := HeartRateZones(lthr);
      && (ClassifyZone(Some(v), lthr) == "Below Z1" <==> v < z[0].low as real)
      && (ClassifyZone(Some(v), lthr) == "Above Z5" <==> v > z[4].high as real)
  {
    var z := HeartRateZones(lthr);
    ZonesCover(v, lthr);
    ZonesContiguous(lthr);
    var r := ClassifyZone(Some(v), lthr);
    if z[0].low as real <= v <= z[4].high as real {
      var k :| 0 <= k < 5 && InBand(v, z[k]);
      var first := FirstBand(v, z).value;
      assert r == ZoneIds[first];
      assert r != "Below Z1" && r != "Above Z5";
    } else {
      assert FirstBand(v, z).None?;
    }
  }

  /** Worked example: with an LTHR of 150, 115 bpm sits on the shared edge of
      Z1 and Z2 and is classified Z1, the lower band. */
  lemma SharedEdgeGoesLow()
    ensures ClassifyZone(Some(115.0), 150.0) == "Z1"
  {
    ZonesFor150();
    assert InBand(115.0, HeartRateZones(150.0)[0]);
  }

  /** `time_elapsed_seconds`: each row's timestamp minus the first row's. */
  function ElapsedSeconds(session: seq<Record>): (r: seq<int>)
    requires |session| > 0
    ensures |r| == |session| && r[0] == 0
    ensures forall i :: 0 <= i < |session| ==> Stamp(session[0]) + r[i] == Stamp(session[i])
  {
    seq(|session|, i requires 0 <= i < |session| => Stamp(session[i]) - Stamp(session[0]))
  }

  /** `time_elapsed_minutes`: the elapsed seconds divided by 60. */
  function ElapsedMinutes(session: seq<Record>): (r: seq<real>)
    requires |session| > 0
    ensures |r| == |session|
    ensures forall i :: 0 <= i < |session| ==> r[i] * 60.0 == ElapsedSeconds(session)[i] as real
  {
    var secs := ElapsedSeconds(session);
    seq(|session|, i requires 0 <= i < |session| => secs[i] as real / 60.0)
  }

  /** On a time-ordered session the elapsed columns start at zero, never go
      negative and never decrease. */
  lemma ElapsedMonotone(session: seq<Record>)
    requires |session| > 0
    requires TimeOrdered(session)
    ensures var secs := ElapsedSeconds(session);
      forall i, j :: 0 <= i <= j < |session| ==> 0 <= secs[i] <= secs[j]
    ensures var mins := ElapsedMinutes(session);
      forall i, j :: 0 <= i <= j < |session| ==> 0.0 <= mins[i] <= mins[j]
  {
    var secs := ElapsedSeconds(session);
    var mins := ElapsedMinutes(session);
    forall i, j | 0 <= i <= j < |session| ensures 0 <= secs[i] <= secs[j] {
      assert i == 0 || Stamp(session[0]) <= Stamp(session[i]);
      assert i == j || Stamp(session[i]) <= Stamp(session[j]);
    }
  }
}
