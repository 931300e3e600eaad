/** Record admission in LTHREstimate.py (`parse_fit_file`): decoded FIT `record`
    messages are reduced to an allow-list of fields, those without a timestamp are
    dropped, the rest are ordered by time and their coordinates are converted from
    semicircles to degrees. The FIT decoding itself (fitparse) is outside the model:
    its output, a sequence of (field name, value) lists, is the input here. */
module Telemetry {
  import opened Wrappers
  import Sorting

  /* The 58 field names the normaliser keeps, in the source's order, in groups
     of at most ten. */
  const CoreFields: seq<string> := [
    "timestamp", "heart_rate", "cadence", "speed", "distance", "power",
    "altitude", "temperature", "position_lat", "position_long"
  ]
  const DeviceFields: seq<string> := [
    "enhanced_speed", "enhanced_altitude", "grade", "calories", "accumulated_power",
    "left_right_balance", "gps_accuracy", "vertical_oscillation", "stance_time_percent",
    "stance_time"
  ]
  const PedalFields: seq<string> := [
    "activity_type", "left_torque_effectiveness", "right_torque_effectiveness",
    "left_pedal_smoothness", "right_pedal_smoothness", "combined_pedal_smoothness",
    "time_from_course", "cycle_length", "total_cycles", "compressed_speed_distance"
  ]
  const ZoneFields: seq<string> := [
    "resistance", "time_in_hr_zone", "time_in_speed_zone", "time_in_cadence_zone",
    "time_in_power_zone", "repetition_num", "min_heart_rate", "max_heart_rate",
    "avg_heart_rate", "max_speed"
  ]
  const SummaryFields: seq<string> := [
    "avg_speed", "total_calories", "fat_calories", "avg_cadence", "max_cadence",
    "avg_power", "max_power", "total_ascent", "total_descent", "training_stress_score"
  ]
  const TrainingFields: seq<string> := [
    "intensity_factor", "normalized_power", "left_right_balance_100",
    "step_length", "avg_vertical_oscillation", "avg_stance_time_percent",
    "avg_stance_time", "fractional_cadence"
  ]

  /** `name` is one of `names` (a recursive search, so that the verifier looks
      the name up only as far as a proof needs). */
  predicate Listed(name: string, names: seq<string>) {
    |names| > 0 && (names[0] == name || Listed(name, names[1..]))
  }

  /** `name` is on the allow-list. */
  predicate Allowed(name: string) {
    Listed(name, CoreFields) || Listed(name, DeviceFields) || Listed(name, PedalFields) ||
    Listed(name, ZoneFields) || Listed(name, SummaryFields) || Listed(name, TrainingFields)
  }

  const TimestampField := "timestamp"
  const LatField := "position_lat"
  const LongField := "position_long"

  /** A decoded field value: a date-time (whole seconds), a number, or None. */
  datatype Value = Time(seconds: int) | Num(x: real) | Null

  /** One field of a decoded FIT message, under the name the decoder gives it. */
  datatype RawField = RawField(name: string, value: Value)

  /** One decoded `record` message. */
  type Message = seq<RawField>

  /** A normalised sample: a sparse map from field names to values (a missing
      key is a missing value, never zero). Every record the normaliser builds has
      allowed names only (`BuildRecord`). */
  type Record = map<string, Value>

  /** No later field of the message has the same name as field `i`. */
  predicate IsLast(fields: Message, i: int)
    requires 0 <= i < |fields|
  {
    forall j :: i < j < |fields| ==> fields[j].name != fields[i].name
  }

  /** The record built from one message: each allowed field is stored under its
      name, a later field of the same name replacing an earlier one. */
  function BuildRecord(fields: Message): (r: Record)
    ensures forall k :: k in r ==> Allowed(k)
  {
    if fields == [] then map[]
    else
      var n := |fields| - 1;
      var f := fields[n];
      var r := BuildRecord(fields[..n]);
      if Allowed(f.name) then r[f.name := f.value] else r
  }

  /** Every key of a record is the name of some field of its message. */
  lemma {:induction false} RecordKeysFromFields(fields: Message)
    ensures forall k :: k in BuildRecord(fields) ==>
                          exists i :: 0 <= i < |fields| && fields[i].name == k
  {
    if fields != [] {
      var n := |fields| - 1;
      var prefix := fields[..n];
      RecordKeysFromFields(prefix);
      forall k | k in BuildRecord(fields)
        ensures exists i :: 0 <= i < |fields| && fields[i].name == k
      {
        if k != fields[n].name {
          assert k in BuildRecord(prefix);
          var i :| 0 <= i < n && prefix[i].name == k;
          assert fields[i].name == k;
        }
      }
    }
  }

  /** Every allowed field of the message has a key in its record. */
  lemma {:induction false} RecordKeepsAllowed(fields: Message)
    ensures forall i :: 0 <= i < |fields| && Allowed(fields[i].name) ==>
                          fields[i].name in BuildRecord(fields)
  {
    if fields != [] {
      var n := |fields| - 1;
      var prefix := fields[..n];
      RecordKeepsAllowed(prefix);
      forall i | 0 <= i < |fields| && Allowed(fields[i].name)
        ensures fields[i].name in BuildRecord(fields)
      {
        if i < n {
          assert prefix[i] == fields[i];
        }
      }
    }
  }

  /** Under each allowed name the record holds the value of the last field of
      that name: a later field replaces an earlier one. */
  lemma {:induction false} RecordLastValue(fields: Message, i: int)
    requires 0 <= i < |fields| && Allowed(fields[i].name) && IsLast(fields, i)
    ensures var r := BuildRecord(fields);
      fields[i].name in r && r[fields[i].name] == fields[i].value
  {
    var n := |fields| - 1;
    var prefix := fields[..n];
    var f := fields[n];
    var r := BuildRecord(prefix);
    if i < n {
      assert prefix[i] == fields[i];
      assert fields[i].name != f.name;
      assert IsLast(prefix, i) by {
        forall j | i < j < n ensures prefix[j].name != prefix[i].name {
          assert prefix[j] == fields[j];
        }
      }
      RecordLastValue(prefix, i);
      if Allowed(f.name) {
        assert BuildRecord(fields) == r[f.name := f.value];
      } else {
        assert BuildRecord(fields) == r;
      }
    } else {
      assert BuildRecord(fields) == r[f.name := f.value];
    }
  }

  /** The source's admission criterion: the record has a `timestamp` entry. */
  predicate HasTimestamp(r: Record) {
    TimestampField in r
  }

  /** The message carries a field named `timestamp`. */
  predicate MessageHasTimestamp(m: Message) {
    exists i :: 0 <= i < |m| && m[i].name == "timestamp"
  }

  /** The record built from each message, in message order. */
  function Records(msgs: seq<Message>): (r: seq<Record>)
    ensures |r| == |msgs|
    ensures forall i :: 0 <= i < |msgs| ==> r[i] == BuildRecord(msgs[i])
  {
    seq(|msgs|, i requires 0 <= i < |msgs| => BuildRecord(msgs[i]))
  }

  /** The records that have a timestamp, in order. */
  function Admitted(recs: seq<Record>): (r: seq<Record>)
    ensures |r| <= |recs|
    ensures forall x :: x in r ==> HasTimestamp(x)
    ensures forall x :: multiset(r)[x] == if HasTimestamp(x) then multiset(recs)[x] else 0
  {
    if recs == [] then []
    else
      var n := |recs| - 1;
      var rest := Admitted(recs[..n]);
      assert recs == recs[..n] + [recs[n]];
      if HasTimestamp(recs[n]) then rest + [recs[n]] else rest
  }

  /** The records of the admitted messages, in message order. */
  function Admit(msgs: seq<Message>): (r: seq<Record>)
    ensures |r| <= |msgs|
    ensures forall x :: x in r ==> HasTimestamp(x)
    ensures forall x :: multiset(r)[x] == if HasTimestamp(x) then multiset(Records(msgs))[x] else 0
  {
    Admitted(Records(msgs))
  }

  /** Every admitted record is one of the records. */
  lemma {:induction false} AdmittedFrom(recs: seq<Record>)
    ensures forall x :: x in Admitted(recs) ==> x in recs
  {
    if recs != [] {
      var n := |recs| - 1;
      AdmittedFrom(recs[..n]);
      assert recs == recs[..n] + [recs[n]];
    }
  }

  /** Every record with a timestamp is admitted. */
  lemma {:induction false} AdmittedKeeps(recs: seq<Record>, i: int)
    requires 0 <= i < |recs| && HasTimestamp(recs[i])
    ensures recs[i] in Admitted(recs)
  {
    var n := |recs| - 1;
    var prefix := recs[..n];
    var rest := Admitted(prefix);
    if i < n {
      assert prefix[i] == recs[i];
      AdmittedKeeps(prefix, i);
      var k :| 0 <= k < |rest| && rest[k] == recs[i];
      assert (rest + [recs[n]])[k] == recs[i];
    } else {
      assert (rest + [recs[n]])[|rest|] == recs[n];
    }
  }

  /** Every admitted record is the record of some message. */
  lemma AdmitFrom(msgs: seq<Message>)
    ensures forall x :: x in Admit(msgs) ==>
                          exists i :: 0 <= i < |msgs| && x == BuildRecord(msgs[i])
  {
    var recs := Records(msgs);
    AdmittedFrom(recs);
    forall x | x in Admit(msgs)
      ensures exists i :: 0 <= i < |msgs| && x == BuildRecord(msgs[i])
    {
      var i :| 0 <= i < |recs| && recs[i] == x;
      assert x == BuildRecord(msgs[i]);
    }
  }

  /** The record of every message with a timestamp is admitted. */
  lemma AdmitKeeps(msgs: seq<Message>, i: int)
    requires 0 <= i < |msgs| && HasTimestamp(BuildRecord(msgs[i]))
    ensures BuildRecord(msgs[i]) in Admit(msgs)
  {
    AdmittedKeeps(Records(msgs), i);
  }

  /** The timestamp of a record in whole seconds. A timestamp value that is not
      a date-time (pandas' NaT) reads as 0. */
  function Stamp(r: Record): int {
    if TimestampField in r && r[TimestampField].Time? then r[TimestampField].seconds else 0
  }

  /** The rows are in non-decreasing timestamp order. */
  predicate TimeOrdered(rows: seq<Record>) {
    forall i, j :: 0 <= i < j < |rows| ==> Stamp(rows[i]) <= Stamp(rows[j])
  }

  /** `Stamp` as the sort key. */
  function StampKey(r: Record): real {
    Stamp(r) as real
  }

  /** `180 / 2**31`: degrees per semicircle. */
  const DegreesPerSemicircle: real := 180.0 / 2147483648.0

  /** Converts one coordinate value; a missing value stays missing. */
  function ToDegrees(v: Value): Value {
    if v.Num? then Num(v.x * DegreesPerSemicircle) else v
  }

  /** The column rewrite `position_lat`/`position_long` *= 180 / 2**31 applied
      to one row; every other entry is untouched. */
  function ScaleCoordinates(r: Record): (s: Record)
    ensures s.Keys == r.Keys
    ensures forall k :: k in r && k != LatField && k != LongField ==> s[k] == r[k]
    ensures LatField in r ==> s[LatField] == ToDegrees(r[LatField])
    ensures LongField in r ==> s[LongField] == ToDegrees(r[LongField])
  {
    var r1 := if LatField in r then r[LatField := ToDegrees(r[LatField])] else r;
    if LongField in r1 then r1[LongField := ToDegrees(r1[LongField])] else r1
  }

  /** The coordinate rewrite applied to every row. */
  function ScaleAll(rs: seq<Record>): seq<Record> {
    Sorting.MapSeq(ScaleCoordinates, rs)
  }

  /** The table `parse_fit_file` returns: None when no message is admitted,
      otherwise the admitted records ordered by timestamp, with degrees. */
  function Normalized(msgs: seq<Message>): Option<seq<Record>> {
    var admitted := Admit(msgs);
    if admitted == [] then None
    else Some(ScaleAll(Sorting.Sort(admitted, StampKey)))
  }

  /** The inner loop of `parse_fit_file`: one message's allowed fields copied
      into a fresh record. */
  method FillPoint(fields: Message) returns (point: Record)
    ensures point == BuildRecord(fields)
  {
    point := map[];
    for j := 0 to |fields|
      invariant point == BuildRecord(fields[..j])
    {
      var f := fields[j];
      if Allowed(f.name) {
        point := point[f.name := f.value];
      }
      assert fields[..j + 1][..j] == fields[..j];
    }
    assert fields[..|fields|] == fields;
  }

  /** `parse_fit_file` from the decoded messages on: nested loops fill one
      record per message and collect the admitted ones, then the table is
      sorted by timestamp and its coordinate columns are rescaled. */
  method ParseRecords(msgs: seq<Message>) returns (table: Option<seq<Record>>)
    ensures table == Normalized(msgs)
  {
    ghost var recs := Records(msgs);
    var all: seq<Record> := [];
    for i := 0 to |msgs|
      invariant all == Admitted(recs[..i])
    {
      var point := FillPoint(msgs[i]);
      assert point == recs[i];
      if TimestampField in point {
        all := all + [point];
      }
      assert recs[..i + 1][..i] == recs[..i];
    }
    assert recs[..|msgs|] == recs;
    if all == [] {
      return None;
    }
    var sorted := Sorting.Sort(all, StampKey);
    table := Some(ScaleAll(sorted));
  }

  /** `timestamp` is on the allow-list. */
  lemma TimestampAllowed()
    ensures Allowed(TimestampField)
  {
    assert CoreFields[0] == TimestampField;
  }

  /** A message is admitted iff it carries a `timestamp` field, whatever else it
      holds: a message with only a timestamp is admitted too. */
  lemma AdmittedIff(m: Message)
    ensures HasTimestamp(BuildRecord(m)) <==> MessageHasTimestamp(m)
  {
    RecordKeysFromFields(m);
    RecordKeepsAllowed(m);
    TimestampAllowed();
  }

  /** The normaliser reports "no data" exactly when no message has a timestamp. */
  lemma NoDataIff(msgs: seq<Message>)
    ensures Normalized(msgs).None? <==>
              forall i :: 0 <= i < |msgs| ==> !MessageHasTimestamp(msgs[i])
  {
    var admitted := Admit(msgs);
    AdmitFrom(msgs);
    forall i | 0 <= i < |msgs| ensures MessageHasTimestamp(msgs[i]) ==> admitted != [] {
      AdmittedIff(msgs[i]);
      if MessageHasTimestamp(msgs[i]) {
        AdmitKeeps(msgs, i);
      }
    }
    if admitted != [] {
      assert admitted[0] in admitted;
      var i :| 0 <= i < |msgs| && admitted[0] == BuildRecord(msgs[i]);
      AdmittedIff(msgs[i]);
    }
  }

  /** The normalised table is a permutation of the admitted records, each with
      its coordinates rescaled (stability is not claimed). */
  lemma NormalizedPermutation(msgs: seq<Message>)
    requires Normalized(msgs).Some?
    ensures multiset(Normalized(msgs).value) == multiset(ScaleAll(Admit(msgs)))
  {
    var admitted := Admit(msgs);
    var sorted := Sorting.Sort(admitted, StampKey);
    Sorting.MapSeqPermutation(ScaleCoordinates, sorted, admitted);
  }

  /** The normalised table is ordered by non-decreasing timestamp. */
  lemma NormalizedSorted(msgs: seq<Message>)
    requires Normalized(msgs).Some?
    ensures TimeOrdered(Normalized(msgs).value)
  {
    var sorted := Sorting.Sort(Admit(msgs), StampKey);
    var table := ScaleAll(sorted);
    forall i, j | 0 <= i < j < |table| ensures Stamp(table[i]) <= Stamp(table[j]) {
      assert StampKey(sorted[i]) <= StampKey(sorted[j]);
      assert table[i] == ScaleCoordinates(sorted[i]);
      assert table[j] == ScaleCoordinates(sorted[j]);
    }
  }

  /** Every row of the normalised table has a timestamp and allowed fields only. */
  lemma NormalizedRows(msgs: seq<Message>)
    requires Normalized(msgs).Some?
    ensures var table := Normalized(msgs).value;
      forall i :: 0 <= i < |table| ==>
        HasTimestamp(table[i]) && forall k :: k in table[i] ==> Allowed(k)
  {
    var admitted := Admit(msgs);
    var sorted := Sorting.Sort(admitted, StampKey);
    var table := ScaleAll(sorted);
    Sorting.PermutationMembers(sorted, admitted);
    forall i | 0 <= i < |table|
      ensures HasTimestamp(table[i]) && forall k :: k in table[i] ==> Allowed(k)
    {
      assert sorted[i] in admitted;
      assert table[i] == ScaleCoordinates(sorted[i]);
      AdmitFrom(msgs);
      var m :| 0 <= m < |msgs| && sorted[i] == BuildRecord(msgs[m]);
    }
  }

  /** A latitude or longitude within the semicircle range of a 32-bit FIT
      coordinate converts to a value within [-180, 180] degrees. */
  lemma DegreesInRange(semicircles: real)
    requires -2147483648.0 <= semicircles <= 2147483648.0
    ensures -180.0 <= ToDegrees(Num(semicircles)).x <= 180.0
  {
  }
}
