/** The trailing-window threshold estimator of LTHREstimate.py
    (`calculate_lthr_from_last_20_minutes`): the mean heart rate over the samples
    of the last 20 minutes, and 95% of it as the lactate threshold heart rate. */
module Threshold {
  import opened Wrappers
  import opened Telemetry
  import Stats

  /** `timedelta(minutes=20)` in seconds. */
  const WindowSeconds: int := 20 * 60

  /** LTHR is 95% of the window's average heart rate. */
  const LthrFactor: real := 0.95

  /** The estimator's result: (average heart rate over the window, LTHR, total
      duration in minutes). The source's three-way `None` is `Option.None`. */
  datatype Estimate = Estimate(avgHr: real, lthr: real, durationMinutes: real)

  /** The `heart_rate` cell of a row; NaN (None) when absent or not a number. */
  function HeartRate(r: Record): Option<real> {
    if "heart_rate" in r && r["heart_rate"].Num? then Some(r["heart_rate"].x) else None
  }

  /** The `heart_rate` column. */
  function HeartRates(session: seq<Record>): (col: seq<Option<real>>)
    ensures |col| == |session|
    ensures forall i :: 0 <= i < |session| ==> col[i] == HeartRate(session[i])
  {
    if session == [] then [] else [HeartRate(session[0])] + HeartRates(session[1..])
  }

  /** `df[df['timestamp'] >= start]`: the rows at or after `start`, in order. */
  function Window(session: seq<Record>, start: int): (w: seq<Record>)
    ensures |w| <= |session|
    ensures forall i :: 0 <= i < |w| ==> Stamp(w[i]) >= start
  {
    if session == [] then []
    else
      var rest := Window(session[1..], start);
      if Stamp(session[0]) >= start then [session[0]] + rest else rest
  }

  /** The window holds exactly the rows of the session at or after `start`. */
  lemma {:induction false} WindowMembers(session: seq<Record>, start: int, x: Record)
    ensures x in Window(session, start) <==> x in session && Stamp(x) >= start
  {
    if session != [] {
      WindowMembers(session[1..], start, x);
      assert session == [session[0]] + session[1..];
    }
  }

  /** The window keeps each row at or after `start` exactly as often as the
      session holds it, and no other row. */
  lemma {:induction false} WindowCounts(session: seq<Record>, start: int)
    ensures forall x :: multiset(Window(session, start))[x] ==
                          if Stamp(x) >= start then multiset(session)[x] else 0
  {
    if session != [] {
      WindowCounts(session[1..], start);
      assert session == [session[0]] + session[1..];
    }
  }

  /** A window whose session ends at or after `start` is not empty. */
  lemma {:induction false} WindowHoldsLast(session: seq<Record>, start: int)
    requires |session| > 0 && Stamp(session[|session| - 1]) >= start
    ensures |Window(session, start)| > 0
  {
    if Stamp(session[0]) < start {
      assert |session| > 1;
      assert session[1..][|session| - 2] == session[|session| - 1];
      WindowHoldsLast(session[1..], start);
    }
  }

  /** The window start: 20 minutes before the last row's timestamp. */
  function WindowStart(session: seq<Record>): int
    requires |session| > 0
  {
    Stamp(session[|session| - 1]) - WindowSeconds
  }

  /** The span from the first to the last row, in minutes. */
  function DurationMinutes(session: seq<Record>): real
    requires |session| > 0
  {
    (Stamp(session[|session| - 1]) - Stamp(session[0])) as real / 60.0
  }

  /** The present heart rates of the last 20 minutes. */
  function WindowRates(session: seq<Record>): seq<real>
    requires |session| > 0
  {
    Stats.Present(HeartRates(Window(session, WindowStart(session))))
  }

  /** `calculate_lthr_from_last_20_minutes`, branch for branch. The three-way
      `None` is returned exactly when the session is empty or the window has no
      heart-rate value (which covers "no heart rate at all"); otherwise the
      average is the mean of the window's heart rates, LTHR is 95% of it, and
      the duration is the span from the first to the last row in minutes. */
  function EstimateLthr(session: seq<Record>): (r: Option<Estimate>)
    ensures r.None? <==> |session| == 0 || WindowRates(session) == []
    ensures |session| > 0 && r.Some? ==>
      && Stats.Mean(WindowRates(session)) == Some(r.value.avgHr)
      && r.value.lthr == r.value.avgHr * 0.95
      && r.value.durationMinutes * 60.0 == (Stamp(session[|session| - 1]) - Stamp(session[0])) as real
  {
    if |session| == 0 then None
    else
      var window := Window(session, WindowStart(session));
      WindowNonEmpty(session);
      WindowPresent(session, WindowStart(session));
      if |Stats.Present(HeartRates(session))| == 0 then None
      else
        var data := if |window| == 0 then session else window;
        match Stats.Mean(Stats.Present(HeartRates(data)))
        case None => None
        case Some(avg) => Some(Estimate(avg, avg * LthrFactor, DurationMinutes(session)))
  }

  /** The window always holds the last row, so the source's "use all data"
      fallback for an empty window can never be taken. */
  lemma WindowNonEmpty(session: seq<Record>)
    requires |session| > 0
    ensures session[|session| - 1] in Window(session, WindowStart(session))
    ensures |Window(session, WindowStart(session))| > 0
  {
    WindowMembers(session, WindowStart(session), session[|session| - 1]);
    WindowHoldsLast(session, WindowStart(session));
  }

  /** A heart-rate value in the window is a heart-rate value of the session. */
  lemma {:induction false} WindowPresent(session: seq<Record>, start: int)
    ensures Stats.Present(HeartRates(Window(session, start))) != [] ==> Stats.Present(HeartRates(session)) != []
  {
    if session == [] {
      return;
    }
    var hrs := HeartRates(session);
    if hrs[0].Some? {
      assert Stats.Present(hrs) == [hrs[0].value] + Stats.Present(hrs[1..]);
    } else {
      var rest := Window(session[1..], start);
      assert HeartRates(session[1..]) == hrs[1..];
      if Stamp(session[0]) >= start {
        var col := HeartRates([session[0]] + rest);
        assert col[1..] == HeartRates(rest);
        assert Stats.Present(col) == Stats.Present(col[1..]);
      }
      WindowPresent(session[1..], start);
      assert Stats.Present(hrs) == Stats.Present(hrs[1..]);
    }
  }

  /** A session in which no row has a heart rate yields no estimate. */
  lemma NoHeartRateNone(session: seq<Record>)
    requires forall i :: 0 <= i < |session| ==> HeartRate(session[i]).None?
    ensures EstimateLthr(session).None?
  {
    if |session| > 0 {
      Stats.PresentEmpty(HeartRates(session));
      WindowPresent(session, WindowStart(session));
    }
  }

  /** A defined estimate lies within the range of the window's heart rates. */
  lemma EstimateWithin(session: seq<Record>, lo: real, hi: real)
    requires EstimateLthr(session).Some?
    requires Stats.Within(WindowRates(session), lo, hi)
    ensures lo <= EstimateLthr(session).value.avgHr <= hi
  {
    Stats.MeanWithin(WindowRates(session), lo, hi);
  }

  /** On a session sorted by time the window is a suffix of the session:
      everything from the first row at or after the window start onwards. */
  lemma {:induction false} WindowIsSuffix(session: seq<Record>, start: int)
    requires TimeOrdered(session)
    ensures exists k :: 0 <= k <= |session| && Window(session, start) == session[k..]
  {
    if session == [] {
      assert Window(session, start) == session[0..];
    } else if Stamp(session[0]) >= start {
      AllInWindow(session, start);
      assert Window(session, start) == session[0..];
    } else {
      WindowIsSuffix(session[1..], start);
      var k :| 0 <= k <= |session| - 1 && Window(session[1..], start) == session[1..][k..];
      assert session[1..][k..] == session[k + 1..];
    }
  }

  /** When a sorted session starts at or after `start`, the window is all of it. */
  lemma {:induction false} AllInWindow(session: seq<Record>, start: int)
    requires TimeOrdered(session)
    requires |session| > 0 && Stamp(session[0]) >= start
    ensures Window(session, start) == session
  {
    if |session| > 1 {
      AllInWindow(session[1..], start);
    }
  }

  /** Three rows one minute apart with heart rates 100, 110 and 120 bpm. */
  function ExampleSession(): (s: seq<Record>)
    ensures |s| == 3
    ensures Stamp(s[0]) == 0 && Stamp(s[1]) == 60 && Stamp(s[2]) == 120
    ensures HeartRate(s[0]) == Some(100.0)
    ensures HeartRate(s[1]) == Some(110.0)
    ensures HeartRate(s[2]) == Some(120.0)
  {
    [ map["timestamp" := Time(0), "heart_rate" := Num(100.0)],
      map["timestamp" := Time(60), "heart_rate" := Num(110.0)],
      map["timestamp" := Time(120), "heart_rate" := Num(120.0)] ]
  }

  lemma ExampleWindow()
    ensures Window(ExampleSession(), WindowStart(ExampleSession())) == ExampleSession()
  {
    var s := ExampleSession();
    assert WindowStart(s) == -1080;
    assert Window(s[2..], -1080) == s[2..];
    assert Window(s[1..], -1080) == s[1..];
  }

  lemma ExampleHeartRates()
    ensures Stats.Present(HeartRates(ExampleSession())) == [100.0, 110.0, 120.0]
  {
    var hrs := HeartRates(ExampleSession());
    assert hrs == [Some(100.0), Some(110.0), Some(120.0)];
    assert Stats.Present(hrs[2..]) == [120.0];
    assert Stats.Present(hrs[1..]) == [110.0, 120.0];
  }

  lemma ExampleMean()
    ensures Stats.Mean([100.0, 110.0, 120.0]) == Some(110.0)
  {
    var v := [100.0, 110.0, 120.0];
    assert Stats.Sum([100.0]) == 100.0 by { assert [100.0][..0] == []; }
    assert Stats.Sum([100.0, 110.0]) == 210.0 by { assert [100.0, 110.0][..1] == [100.0]; }
    assert Stats.Sum(v) == 330.0 by { assert v[..2] == [100.0, 110.0]; }
  }

  /** The worked example: an average of 110 bpm, an LTHR of 104.5 bpm and a
      duration of 2 minutes. */
  lemma ExampleEstimate()
    ensures EstimateLthr(ExampleSession()) == Some(Estimate(110.0, 104.5, 2.0))
  {
    ExampleWindow();
    ExampleHeartRates();
    ExampleMean();
  }
}
