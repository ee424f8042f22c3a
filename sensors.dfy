/** The summary sensors, as functions of the manager's snapshot
    (`get_all_alarms_data` / `get_next_alarm_time`):
    - `AllAlarmsSensor` of `custom_components/wake_up_alarm/all_alarms_sensor.py`,
      whose state is the earliest alarm time and whose attributes list every
      alarm time in ascending order with their count;
    - `AllAlarmsSensor` of `custom_components/integration_blueprint/sensor.py`,
      whose state is the number of alarms and whose attributes list the times. */
module Sensors {
  import opened Wrappers
  import opened Alarms
  import opened Sorting
  import opened Storage

  /** The description key `f"{DOMAIN}_all_alarms_summary"`. */
  const SummaryKey: string := "wake_up_alarm_all_alarms_summary"

  /** `_attr_unique_id = f"{entry_id}_{key}"`. */
  function SummaryUniqueId(entryId: string): string
  {
    entryId + "_" + SummaryKey
  }

  /** `alarm["datetime_obj"] for alarm in alarms_data`, in list order. */
  function Times(s: seq<Alarm>): (r: seq<int>)
    ensures |r| == |s| && forall i :: 0 <= i < |s| ==> r[i] == s[i].fireAt
  {
    seq(|s|, i requires 0 <= i < |s| => s[i].fireAt)
  }

  function Instant(t: int): int { t }

  /** `sorted(...)` of the alarm times. */
  function SortedTimes(s: seq<Alarm>): seq<int>
  {
    SortBy(Times(s), Instant)
  }

  /** `[dt.isoformat() for dt in sorted_alarm_times]`. */
  function Rendered(ts: seq<int>, format: Formatter): (r: seq<string>)
    ensures |r| == |ts| && forall i :: 0 <= i < |ts| ==> r[i] == format(ts[i])
  {
    seq(|ts|, i requires 0 <= i < |ts| => format(ts[i]))
  }

  /** The attribute dictionary `{"alarm_times": ..., "alarms_count": ...}`. */
  datatype SummaryAttributes = SummaryAttributes(alarmTimes: seq<string>, alarmsCount: int)

  /** `native_value` of the wake-up summary sensor: `get_next_alarm_time()`. */
  function NativeValue(s: seq<Alarm>): Option<int>
  {
    EarliestTime(s)
  }

  /** `extra_state_attributes` of the wake-up summary sensor. */
  function ExtraStateAttributes(s: seq<Alarm>, format: Formatter): SummaryAttributes
  {
    if s == [] then SummaryAttributes([], 0)
    else
      var sortedTimes := SortedTimes(s);
      SummaryAttributes(Rendered(sortedTimes, format), |sortedTimes|)
  }

  /** `native_value` of the blueprint summary sensor: the number of alarms. */
  function CountValue(s: seq<Alarm>): int
  {
    |s|
  }

  /** `extra_state_attributes` of the blueprint summary sensor: only the times. */
  function BlueprintAttributes(s: seq<Alarm>, format: Formatter): seq<string>
  {
    if s == [] then [] else Rendered(SortedTimes(s), format)
  }

  /** The sorted times are ascending and are a permutation of the alarm times. */
  lemma SortedTimesFacts(s: seq<Alarm>)
    ensures SortedBy(SortedTimes(s), Instant)
    ensures multiset(SortedTimes(s)) == multiset(Times(s))
    ensures |SortedTimes(s)| == |s|
  {
    SortByFacts(Times(s), Instant);
  }

  /** With no alarms the attributes are exactly an empty list and a zero count;
      otherwise the list is the ascending alarm times, rendered, and the count
      is both its length and the number of alarms. */
  lemma SummaryAttributesFacts(s: seq<Alarm>, format: Formatter)
    ensures s == [] ==> ExtraStateAttributes(s, format) == SummaryAttributes([], 0)
    ensures ExtraStateAttributes(s, format).alarmTimes == Rendered(SortedTimes(s), format)
    ensures ExtraStateAttributes(s, format).alarmsCount == |ExtraStateAttributes(s, format).alarmTimes| == |s|
  {
    SortedTimesFacts(s);
    if s == [] {
      assert Times(s) == [];
    }
  }

  /** The sensor's state is the first of the listed times: the earliest alarm,
      or None exactly when no alarm is set. */
  lemma {:induction false} NativeValueIsFirstTime(s: seq<Alarm>)
    ensures NativeValue(s) == if s == [] then None else Some(SortedTimes(s)[0])
  {
    if s != [] {
      SortedTimesFacts(s);
      var st := SortedTimes(s);
      var m := EarliestTime(s).value;
      assert st[0] in multiset(Times(s));
      var i :| 0 <= i < |s| && Times(s)[i] == st[0];
      assert s[i] in s;
      assert m <= st[0];
      var a :| a in s && a.fireAt == m;
      var j :| 0 <= j < |s| && s[j] == a;
      assert m in multiset(st) by { assert Times(s)[j] == m; }
      var k :| 0 <= k < |st| && st[k] == m;
      assert st[0] <= st[k];
    }
  }

  /** The blueprint sensor: with no alarms the list is empty; otherwise it is
      the ascending alarm times, rendered; its length is the sensor's state. */
  lemma BlueprintAttributesFacts(s: seq<Alarm>, format: Formatter)
    ensures s == [] ==> BlueprintAttributes(s, format) == []
    ensures BlueprintAttributes(s, format) == Rendered(SortedTimes(s), format)
    ensures |BlueprintAttributes(s, format)| == CountValue(s)
  {
    SortedTimesFacts(s);
    if s == [] {
      assert Times(s) == [];
    }
  }
}
