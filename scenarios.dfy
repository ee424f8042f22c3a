/** Short runs of the manager and the services from a fresh Home Assistant
    instance, with concrete numbers. */
module Scenarios {
  import opened Wrappers
  import opened Alarms
  import opened Manager
  import opened Services
  import Storage

  /** `create_alarm` on a manager whose used numbers are known: the new
      record carries the least unused number. */
  method CreateKnown(m: AlarmManager, at: int, now: int, ghost n: int) returns (created: Option<Alarm>)
    requires m.Valid() && m.Allocating()
    requires LeastUnused(n, Numbers(m.alarms))
    modifies m
    ensures created == Some(Alarm(n, at))
    ensures m.Valid() && m.Allocating()
    ensures m.alarms == old(m.alarms) + [Alarm(n, at)]
    ensures Numbers(m.alarms) == Numbers(old(m.alarms)) + {n}
  {
    created := m.CreateAlarm(at, now);
    LeastUnusedUnique(created.value.number, n, Numbers(old(m.alarms)));
    NumbersAppend(old(m.alarms), Alarm(n, at));
  }

  /** A fresh instance with alarms 1, 2 and 3 created in turn. */
  method CreateThree(now: int) returns (hass: HassData, m: AlarmManager)
    ensures fresh(hass) && fresh(m) && hass.alarmManager == m
    ensures m.Valid() && m.Allocating()
    ensures m.alarms == [Alarm(1, now + 1), Alarm(2, now + 2), Alarm(3, now + 3)]
  {
    hass := new HassData();
    var m' := AlarmManager.New(hass, "entry");
    m := m';
    var _ := CreateKnown(m, now + 1, now, 1);
    var _ := CreateKnown(m, now + 2, now, 2);
    var _ := CreateKnown(m, now + 3, now, 3);
  }

  /** Numbers are handed out lowest-free-first: after creating 1, 2 and 3 and
      deleting 2, the next alarm gets 2 again. A second manager cannot be
      registered beside the first. */
  method ReusesFreedNumber(now: int) returns (reused: Option<Alarm>, second: AlarmManager?)
    ensures reused == Some(Alarm(2, now + 4))
    ensures second == null
  {
    var hass, m := CreateThree(now);
    var deleted := m.DeleteAlarm(2);
    assert Numbers(m.alarms) == {1, 3} by {
      assert m.alarms == [Alarm(1, now + 1), Alarm(3, now + 3)];
    }
    reused := CreateKnown(m, now + 4, now, 2);
    second := AlarmManager.New(hass, "other entry");
  }

  /** Delete-by-number as written: the service sends the signal to the one
      entry, the entry's handler only refreshes the summary sensor, and the
      alarm is still there. */
  method DeleteByNumberAsWritten(now: int, format: Storage.Formatter)
    returns (kept: Option<Alarm>, dispatchedCount: int)
    ensures dispatchedCount == 1
    ensures kept == Some(Alarm(1, now + 10))
  {
    var hass := new HassData();
    var m := AlarmManager.New(hass, "entry");
    var created := m.CreateAlarm(now + 10, now);
    assert m.alarms == [Alarm(1, now + 10)];
    var signals, _, count := HandleDeleteAlarmByNumberService(["entry"], 1);
    var _ := HandleDeleteSignal(m, signals[0], format);
    kept := m.GetAlarm(1);
    dispatchedCount := count;
  }

  /** The same call with the intended handler removes the alarm. */
  method DeleteByNumberCorrected(now: int) returns (kept: Option<Alarm>, dispatchedCount: int)
    ensures dispatchedCount == 1
    ensures kept == None
  {
    var hass := new HassData();
    var m := AlarmManager.New(hass, "entry");
    var created := m.CreateAlarm(now + 10, now);
    assert m.alarms == [Alarm(1, now + 10)];
    dispatchedCount := DeleteAlarmByNumberAsIntended(hass, ["entry"], 1);
    assert "entry" in ["entry"];
    kept := m.GetAlarm(1);
  }

  /** An alarm created at or before `now` gets no timer: its fire callback
      is queued, and running the queue emits the event once and removes the
      record; a second run finds nothing left to do. */
  method PastDueFiresOnce(now: int) returns (events: seq<Event>, remaining: seq<Alarm>, armed: bool)
    ensures events == [AlarmTriggered("entry", 1, now - 1)]
    ensures remaining == []
    ensures !armed
  {
    var hass := new HassData();
    var m := AlarmManager.New(hass, "entry");
    var created := m.CreateAlarm(now - 1, now);
    assert m.alarms == [Alarm(1, now - 1)] && m.pendingFires == [Timer(1, now - 1)];
    armed := 1 in m.triggers;
    m.RunPendingFire();
    assert m.pendingFires == [];
    m.RunPendingFire();
    events, remaining := m.events, m.alarms;
  }
}
