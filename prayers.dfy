/** The widget's prayer-time rules in src/prayertime-widget.js: the five-key
    time map (`normalizeTimes`), the choice of the next prayer
    (`nextPrayer`) and the countdown to it (`countdown`). */
module Prayers {
  import opened JsBuiltins
  import opened TimeFormat

  datatype Prayer = Fajr | Dhuhr | Asr | Maghrib | Isha

  /** The order in which the widget lists and scans the prayers. */
  const Order: seq<Prayer> := [Fajr, Dhuhr, Asr, Maghrib, Isha]

  /** The key a prayer has in a times object. */
  function Name(p: Prayer): string {
    match p
    case Fajr => "Fajr"
    case Dhuhr => "Dhuhr"
    case Asr => "Asr"
    case Maghrib => "Maghrib"
    case Isha => "Isha"
  }

  /** The position of a prayer in `Order`. */
  function Index(p: Prayer): (k: nat)
    ensures k < |Order| && Order[k] == p
  {
    match p
    case Fajr => 0
    case Dhuhr => 1
    case Asr => 2
    case Maghrib => 3
    case Isha => 4
  }


  // ---------------------------------------------------------------------
  // normalizeTimes

  /** The map `normalizeTimes` builds after visiting the prayers `keys` of a
      times object in turn: a visited prayer whose value is truthy (a
      non-empty string) is entered with that value in "HH:MM" form. */
  function Normalized(t: map<string, string>, keys: seq<Prayer>): map<Prayer, string> {
    if keys == [] then map[]
    else
      var out := Normalized(t, keys[..|keys| - 1]);
      var k := keys[|keys| - 1];
      if Name(k) in t && t[Name(k)] != "" then out[k := To24h(t[Name(k)])] else out
  }

  /** After all five keys, a prayer is present exactly when its value is
      truthy, and it holds the to24h form of that value; any other key of
      the input is dropped. */
  lemma {:induction false} NormalizedEntries(t: map<string, string>, keys: seq<Prayer>)
    ensures forall p :: p in Normalized(t, keys) <==> p in keys && Name(p) in t && t[Name(p)] != ""
    ensures forall p :: p in Normalized(t, keys) ==> Normalized(t, keys)[p] == To24h(t[Name(p)])
  {
    if keys != [] {
      NormalizedEntries(t, keys[..|keys| - 1]);
      assert keys == keys[..|keys| - 1] + [keys[|keys| - 1]];
    }
  }

  lemma NormalizedStep(t: map<string, string>, keys: seq<Prayer>, i: nat)
    requires i < |keys|
    ensures var k := keys[i]; var out := Normalized(t, keys[..i]);
            Normalized(t, keys[..i + 1])
              == if Name(k) in t && t[Name(k)] != "" then out[k := To24h(t[Name(k)])] else out
  {
    assert keys[..i + 1][..i] == keys[..i];
  }

  /** `normalizeTimes(times)`: null stays null; otherwise the five keys are
      visited in order and each truthy value is converted with to24h. */
  method NormalizeTimes(times: Option<map<string, string>>) returns (r: Option<map<Prayer, string>>)
    ensures times.None? <==> r.None?
    ensures times.Some? ==> r == Some(Normalized(times.value, Order))
  {
    if times.None? {
      return None;
    }
    var t := times.value;
    var out: map<Prayer, string> := map[];
    var i := 0;
    while i < |Order|
      invariant 0 <= i <= |Order|
      invariant out == Normalized(t, Order[..i])
    {
      var k := Order[i];
      NormalizedStep(t, Order, i);
      if Name(k) in t && t[Name(k)] != "" {
        out := out[k := To24h(t[Name(k)])];
      }
      i := i + 1;
    }
    assert Order[..i] == Order;
    return Some(out);
  }

  /** Times already in canonical "HH:MM" form come out of the normalization
      unchanged. */
  lemma NormalizedCanonical(t: map<string, string>, p: Prayer, h: nat, m: nat)
    requires h < 100 && m < 100
    requires Name(p) in t && t[Name(p)] == Clock(h, m)
    ensures p in Normalized(t, Order) && Normalized(t, Order)[p] == Clock(h, m)
  {
    NormalizedEntries(t, Order);
    assert p in Order by { assert Order[Index(p)] == p; }
    To24hOfClock(h, m);
  }

  // ---------------------------------------------------------------------
  // nextPrayer

  /** `minutesFromHHMM(times[name])`; a missing entry is undefined, which reads
      as "00:00". */
  function MinutesOf(times: map<Prayer, string>, p: Prayer): JsNumber {
    MinutesFromHHMM(if p in times then times[p] else "")
  }

  /** `t > nowMins`; a comparison with NaN is false. */
  predicate Later(t: JsNumber, nowMins: int) {
    t.Int? && t.i > nowMins
  }

  /** `minutes + 24 * 60`; NaN stays NaN. */
  function PlusDay(t: JsNumber): (r: JsNumber)
    ensures t.NaN? <==> r.NaN?
    ensures t.Int? ==> r.i == t.i + 1440
  {
    match t
    case NaN => NaN
    case Int(x) => Int(x + 1440)
  }

  /** The minutes of the five prayers, in `Order`. */
  function MinutesInOrder(times: map<Prayer, string>): (ts: seq<JsNumber>)
    ensures |ts| == |Order|
    ensures forall k :: 0 <= k < |Order| ==> ts[k] == MinutesOf(times, Order[k])
  {
    seq(|Order|, k requires 0 <= k < |Order| => MinutesOf(times, Order[k]))
  }

  /** The first position at or after `i` in `ts` whose time is later than
      `nowMins`, or `|ts|` when there is none. */
  function FirstLater(ts: seq<JsNumber>, nowMins: int, i: nat): (k: nat)
    requires i <= |ts|
    ensures i <= k <= |ts|
    ensures k < |ts| ==> Later(ts[k], nowMins)
    ensures forall j :: i <= j < k ==> !Later(ts[j], nowMins)
    decreases |ts| - i
  {
    if i == |ts| then i
    else if Later(ts[i], nowMins) then i
    else FirstLater(ts, nowMins, i + 1)
  }

  datatype Upcoming = Upcoming(name: Prayer, minutes: JsNumber)

  /** What `nextPrayer(nowMins, times)` returns: the first prayer in order whose
      time is strictly later than now, or else tomorrow's Fajr. */
  function Next(times: map<Prayer, string>, nowMins: int): (r: Upcoming)
    ensures (exists p :: Later(MinutesOf(times, p), nowMins)) ==>
              r.minutes == MinutesOf(times, r.name) && Later(r.minutes, nowMins)
              && forall q :: Index(q) < Index(r.name) ==> !Later(MinutesOf(times, q), nowMins)
    ensures (forall p :: !Later(MinutesOf(times, p), nowMins)) ==>
              r == Upcoming(Fajr, PlusDay(MinutesOf(times, Fajr)))
  {
    var ts := MinutesInOrder(times);
    var k := FirstLater(ts, nowMins, 0);
    if k < |Order| then
      assert Index(Order[k]) == k;
      assert forall q :: Index(q) < k ==> !Later(MinutesOf(times, q), nowMins) by {
        forall q | Index(q) < k ensures !Later(MinutesOf(times, q), nowMins) {
          assert ts[Index(q)] == MinutesOf(times, q);
        }
      }
      Upcoming(Order[k], MinutesOf(times, Order[k]))
    else
      assert forall p :: !Later(MinutesOf(times, p), nowMins) by {
        forall p ensures !Later(MinutesOf(times, p), nowMins) {
          assert ts[Index(p)] == MinutesOf(times, p);
        }
      }
      Upcoming(Fajr, PlusDay(MinutesOf(times, Fajr)))
  }

  /** `nextPrayer(nowMins, times)`: scans the five prayers in order and stops
      at the first one later than now; without one it wraps to tomorrow's Fajr. */
  method NextPrayer(nowMins: int, times: map<Prayer, string>) returns (r: Upcoming)
    ensures r == Next(times, nowMins)
  {
    ghost var ts := MinutesInOrder(times);
    var found := false;
    var next := NaN;
    var nextName := Fajr;
    var i := 0;
    while i < |Order|
      invariant 0 <= i <= |Order|
      invariant !found
      invariant FirstLater(ts, nowMins, 0) == FirstLater(ts, nowMins, i)
    {
      var name := Order[i];
      var t := MinutesOf(times, name);
      if Later(t, nowMins) {
        next := t;
        nextName := name;
        found := true;
        break;
      }
      i := i + 1;
    }
    assert found ==> i < |Order| && FirstLater(ts, nowMins, 0) == i
                     && nextName == Order[i] && next == MinutesOf(times, nextName);
    if !found {
      next := PlusDay(MinutesOf(times, Fajr));
      nextName := Fajr;
    }
    return Upcoming(nextName, next);
  }

  /** For a time of day `0 <= nowMins < 1440` the chosen prayer is always ahead
      of now, as long as Fajr's time reads as a non-negative number. */
  lemma NextIsAhead(times: map<Prayer, string>, nowMins: int)
    requires 0 <= nowMins < 1440
    requires MinutesOf(times, Fajr).Int? && MinutesOf(times, Fajr).i >= 0
    ensures Later(Next(times, nowMins).minutes, nowMins)
  {
  }

  /** An entry equal to now is not "next": the scan moves past it. */
  lemma EqualTimeSkipped(times: map<Prayer, string>, nowMins: int, p: Prayer)
    requires MinutesOf(times, p) == Int(nowMins)
    ensures Next(times, nowMins) != Upcoming(p, Int(nowMins))
  {
  }

  // ---------------------------------------------------------------------
  // countdown

  /** `minutesSinceMidnight(date)` from the clock's hours and minutes: a
      time of day is a minute of the day, from which the hour and the minute
      read back. */
  function MinutesSinceMidnight(hours: int, minutes: int): (r: int)
    ensures 0 <= hours < 24 && 0 <= minutes < 60 ==>
              0 <= r < 1440 && r / 60 == hours && Rem(r, 60) == minutes
  {
    hours * 60 + minutes
  }

  datatype Remaining = Remaining(h: JsNumber, m: JsNumber)

  /** `countdown(now, targetMins)`: the difference to the target, moved one day
      ahead when negative, as whole hours (`Math.floor`) and the truncating
      remainder in minutes. A NaN target gives NaN for both. */
  function Countdown(hours: int, minutes: int, target: JsNumber): (r: Remaining)
    ensures target.NaN? <==> r == Remaining(NaN, NaN)
    ensures target.Int? ==> r.h.Int? && r.m.Int?
  {
    match target
    case NaN => Remaining(NaN, NaN)
    case Int(t) =>
      var diff0 := t - MinutesSinceMidnight(hours, minutes);
      var diff := if diff0 < 0 then diff0 + 1440 else diff0;
      Remaining(Int(diff / 60), Int(Rem(diff, 60)))
  }

  /** For a target no more than a day behind now, the countdown is a proper
      hours-and-minutes split of the difference taken modulo one day. */
  lemma CountdownSplit(hours: int, minutes: int, t: int)
    requires t - MinutesSinceMidnight(hours, minutes) >= -1440
    ensures var r := Countdown(hours, minutes, Int(t));
            var d := t - MinutesSinceMidnight(hours, minutes);
            r.h.i >= 0 && 0 <= r.m.i < 60
            && r.h.i * 60 + r.m.i == (if d < 0 then d + 1440 else d)
  {
  }

  /** In the common range of one day either side, the countdown total is the
      difference modulo 1440. */
  lemma CountdownModDay(hours: int, minutes: int, t: int)
    requires -1440 <= t - MinutesSinceMidnight(hours, minutes) < 1440
    ensures var r := Countdown(hours, minutes, Int(t));
            r.h.i * 60 + r.m.i == (t - MinutesSinceMidnight(hours, minutes)) % 1440
  {
    CountdownSplit(hours, minutes, t);
  }

  /** Counting down to the prayer that nextPrayer picks: with every time a
      minute of the day (or unreadable, except Fajr), the countdown is
      positive and at most one day. */
  lemma CountdownToNext(times: map<Prayer, string>, hours: int, minutes: int)
    requires 0 <= hours < 24 && 0 <= minutes < 60
    requires MinutesOf(times, Fajr).Int?
    requires forall p :: MinutesOf(times, p).Int? ==> 0 <= MinutesOf(times, p).i < 1440
    ensures var nx := Next(times, MinutesSinceMidnight(hours, minutes));
            var r := Countdown(hours, minutes, nx.minutes);
            r.h.Int? && r.m.Int? && 0 < r.h.i * 60 + r.m.i <= 1440
  {
    var now := MinutesSinceMidnight(hours, minutes);
    var nx := Next(times, now);
    CountdownSplit(hours, minutes, nx.minutes.i);
  }
}
