/** `AlarmManager` of `custom_components/wake_up_alarm/alarm_manager.py` (and
    its copy in `custom_components/integration_blueprint/alarm_manager.py`).

    The manager's own state is its record list, its free-number set and the
    map from alarm number to timer handle. Its collaborators are fields of the
    same object, updated only where the source calls into them:
    - `timers`: the timer service's live one-shot timers, by handle;
    - `pendingFires`: fire callbacks queued with `async_create_task` for alarms
      already due;
    - `pendingSaves`: save tasks queued with `async_create_task`;
    - `lastSaved`: what the most recent save wrote to the store;
    - `events`: the events fired on the bus.
    The event loop's own steps (running a queued fire or save, a timer
    elapsing) are methods too, so that every path the source takes is a call. */
module Manager {
  import opened Wrappers
  import opened Alarms
  import opened Storage

  const Domain: string := "wake_up_alarm"

  /** STORAGE_KEY_ALARMS_FORMAT, formatted with the entry id. */
  function StorageKey(entryId: string): string
  {
    Domain + "_alarms_" + entryId
  }

  /** A timer armed for an alarm: the callback it runs captures these two values. */
  datatype Timer = Timer(number: int, fireAt: int)

  /** EVENT_ALARM_TRIGGERED with its payload. */
  datatype Event = AlarmTriggered(configEntryId: string, alarmNumber: int, alarmDatetime: int)

  /** The timers left live after cancelling the handle stored for `n`, if any. */
  function AfterCancel(triggers: map<int, nat>, timers: map<nat, Timer>, n: int): map<nat, Timer>
  {
    if n in triggers then timers - {triggers[n]} else timers
  }

  /** Everything an `AlarmManager` can change, as one value. */
  datatype State = State(alarms: seq<Alarm>, freeNumbers: set<int>, triggers: map<int, nat>,
                         timers: map<nat, Timer>, nextHandle: nat, pendingFires: seq<Timer>,
                         pendingSaves: nat, lastSaved: Option<seq<RawItem>>, events: seq<Event>)

  /** The whole effect of `delete_alarm(n)`: every record numbered `n` is
      gone; when there was one, the number is freed, its handle cancelled and
      a save queued; the bus, the queued fires, the store and the handle
      counter are never touched. */
  function AfterDelete(s: State, n: int): State
  {
    if n !in Numbers(s.alarms) then s
    else s.(alarms := Without(s.alarms, n), freeNumbers := s.freeNumbers + {n},
            triggers := s.triggers - {n}, timers := AfterCancel(s.triggers, s.timers, n),
            pendingSaves := s.pendingSaves + 1)
  }

  /** Deleting a number a second time changes nothing. */
  lemma AfterDeleteTwice(s: State, n: int)
    ensures AfterDelete(AfterDelete(s, n), n) == AfterDelete(s, n)
  {
  }

  /** The handles stored for the numbers in `ks`. */
  function HandlesOf(triggers: map<int, nat>, ks: set<int>): set<nat>
  {
    set k | k in ks && k in triggers :: triggers[k]
  }

  /** Cancelling one more number after the numbers in `done`. */
  lemma CancelOneMore(triggers: map<int, nat>, timers: map<nat, Timer>, done: set<int>, n: int)
    requires n !in done
    ensures (triggers - done) - {n} == triggers - (done + {n})
    ensures AfterCancel(triggers - done, timers - HandlesOf(triggers, done), n)
         == timers - HandlesOf(triggers, done + {n})
  {
    var h := HandlesOf(triggers, done);
    if n in triggers {
      assert HandlesOf(triggers, done + {n}) == h + {triggers[n]};
      assert (timers - h) - {triggers[n]} == timers - (h + {triggers[n]});
    } else {
      assert HandlesOf(triggers, done + {n}) == h;
    }
  }

  /** Timers for the records already due at `now`, in list order. */
  function PastDue(s: seq<Alarm>, now: int): seq<Timer>
  {
    if s == [] then []
    else
      var last := s[|s| - 1];
      PastDue(s[..|s| - 1], now) + if last.fireAt <= now then [Timer(last.number, last.fireAt)] else []
  }

  /** Numbers of the records still in the future at `now`. */
  function FutureNumbers(s: seq<Alarm>, now: int): set<int>
  {
    if s == [] then {}
    else
      var last := s[|s| - 1];
      FutureNumbers(s[..|s| - 1], now) + if last.fireAt > now then {last.number} else {}
  }

  lemma FutureSnoc(s: seq<Alarm>, a: Alarm, now: int)
    ensures FutureNumbers(s + [a], now) == FutureNumbers(s, now) + if a.fireAt > now then {a.number} else {}
    ensures PastDue(s + [a], now) == PastDue(s, now) + if a.fireAt <= now then [Timer(a.number, a.fireAt)] else []
  {
    assert (s + [a])[..|s|] == s;
  }

  /** The numbers armed by scheduling are those of the records not yet due;
      the records already due are exactly those queued to fire. */
  lemma {:induction false} FutureAndPastDue(s: seq<Alarm>, now: int)
    ensures forall n :: n in FutureNumbers(s, now) <==> exists a :: a in s && a.fireAt > now && a.number == n
    ensures forall t :: t in PastDue(s, now) <==> exists a :: a in s && a.fireAt <= now && t == Timer(a.number, a.fireAt)
  {
    if s != [] {
      var init, last := s[..|s| - 1], s[|s| - 1];
      FutureAndPastDue(init, now);
      assert s == init + [last];
      forall a ensures a in s <==> a in init || a == last { }
    }
  }

  /** Every record before index `i` still in the future at `now` has a timer
      armed for its number and instant. */
  ghost predicate Armed(s: seq<Alarm>, i: int, now: int, triggers: map<int, nat>, timers: map<nat, Timer>)
    requires 0 <= i <= |s|
  {
    forall j :: 0 <= j < i && s[j].fireAt > now ==>
      s[j].number in triggers && triggers[s[j].number] in timers
      && timers[triggers[s[j].number]] == Timer(s[j].number, s[j].fireAt)
  }

  /** Arming the record at `i` under a fresh handle keeps the earlier records
      armed: their numbers differ and their handles are older. */
  lemma ArmedStep(s: seq<Alarm>, i: int, now: int, triggers: map<int, nat>, timers: map<nat, Timer>, h: nat)
    requires 0 <= i < |s| && UniqueNumbers(s) && h !in timers
    requires Armed(s, i, now, triggers, timers)
    ensures var a := s[i];
            if a.fireAt > now
            then Armed(s, i + 1, now, triggers[a.number := h], timers[h := Timer(a.number, a.fireAt)])
            else Armed(s, i + 1, now, triggers, timers)
  {
  }

  /** The handle bookkeeping that `_async_schedule_alarm_event_trigger`
      touches: the trigger map, the live timers and the next timer handle. */
  datatype Handles = Handles(triggers: map<int, nat>, timers: map<nat, Timer>, nextHandle: nat)

  /** Every live timer's handle was issued before `nextHandle`. */
  ghost predicate Issued(h: Handles)
  {
    forall k :: k in h.timers ==> k < h.nextHandle
  }

  /** One record's effect on the handles: a record already due leaves them
      alone (it is queued to fire instead); a future one gets a timer under a
      fresh handle, and that handle replaces any earlier one under its number. */
  function ArmOne(h: Handles, a: Alarm, now: int): Handles
  {
    if a.fireAt <= now then h
    else Handles(h.triggers[a.number := h.nextHandle], h.timers[h.nextHandle := Timer(a.number, a.fireAt)], h.nextHandle + 1)
  }

  /** The records scheduled one after the other, in list order. */
  function ArmAll(s: seq<Alarm>, now: int, h: Handles): Handles
  {
    if s == [] then h else ArmOne(ArmAll(s[..|s| - 1], now, h), s[|s| - 1], now)
  }

  lemma ArmAllSnoc(s: seq<Alarm>, a: Alarm, now: int, h: Handles)
    ensures ArmAll(s + [a], now, h) == ArmOne(ArmAll(s, now, h), a, now)
  {
    assert (s + [a])[..|s|] == s;
  }

  /** Scheduling a list is scheduling its two halves one after the other. */
  lemma {:induction false} ArmAllAppend(s: seq<Alarm>, t: seq<Alarm>, now: int, h: Handles)
    ensures ArmAll(s + t, now, h) == ArmAll(t, now, ArmAll(s, now, h))
  {
    if t == [] {
      assert s + t == s;
    } else {
      var init, last := t[..|t| - 1], t[|t| - 1];
      assert s + t == (s + init) + [last];
      ArmAllAppend(s, init, now, h);
      ArmAllSnoc(s + init, last, now, h);
    }
  }

  /** What scheduling a list does to the handles: exactly one new timer per
      record not yet due, under the handles issued in order; earlier timers
      stay live; the trigger map gains the future numbers and keeps every
      other entry; each new timer carries a future record's number and instant. */
  lemma {:induction false} ArmAllFacts(s: seq<Alarm>, now: int, h: Handles)
    requires Issued(h)
    ensures var r := ArmAll(s, now, h);
            && Issued(r)
            && h.nextHandle <= r.nextHandle == h.nextHandle + |s| - |PastDue(s, now)|
            && (forall k :: k in r.timers <==> k in h.timers || h.nextHandle <= k < r.nextHandle)
            && (forall k :: k in h.timers ==> r.timers[k] == h.timers[k])
            && (forall k :: k in r.timers && k !in h.timers ==>
                  exists a :: a in s && a.fireAt > now && r.timers[k] == Timer(a.number, a.fireAt))
            && r.triggers.Keys == h.triggers.Keys + FutureNumbers(s, now)
            && (forall n :: n in h.triggers && n !in FutureNumbers(s, now) ==> r.triggers[n] == h.triggers[n])
  {
    if s != [] {
      var init, last := s[..|s| - 1], s[|s| - 1];
      ArmAllFacts(init, now, h);
      assert s == init + [last];
      forall a | a in init ensures a in s { }
      var ri, r := ArmAll(init, now, h), ArmAll(s, now, h);
      forall k ensures k in r.timers <==> k in h.timers || h.nextHandle <= k < r.nextHandle {
        if last.fireAt > now {
          assert k in r.timers <==> k in ri.timers || k == ri.nextHandle;
        }
      }
    }
  }

  /** With unique numbers, every future record of the prefix `s[..i]` is
      armed for its own number and instant. */
  lemma {:induction false} ArmAllArmed(s: seq<Alarm>, i: int, now: int, h: Handles)
    requires 0 <= i <= |s| && UniqueNumbers(s) && Issued(h)
    ensures Armed(s, i, now, ArmAll(s[..i], now, h).triggers, ArmAll(s[..i], now, h).timers)
  {
    if i > 0 {
      ArmAllArmed(s, i - 1, now, h);
      var r := ArmAll(s[..i - 1], now, h);
      ArmAllFacts(s[..i - 1], now, h);
      assert s[..i] == s[..i - 1] + [s[i - 1]];
      ArmAllSnoc(s[..i - 1], s[i - 1], now, h);
      ArmedStep(s, i - 1, now, r.triggers, r.timers, r.nextHandle);
    }
  }

  /** Whether or not numbers repeat, every future record's own timer stays
      live to the end: a later record with the same number takes over the
      trigger entry but does not cancel the earlier timer. */
  lemma OwnTimerStaysLive(s: seq<Alarm>, i: int, now: int, h: Handles)
    requires 0 <= i < |s| && s[i].fireAt > now && Issued(h)
    ensures var k := ArmAll(s[..i], now, h).nextHandle;
            var r := ArmAll(s, now, h);
            k in r.timers && r.timers[k] == Timer(s[i].number, s[i].fireAt)
  {
    var before := ArmAll(s[..i], now, h);
    ArmAllFacts(s[..i], now, h);
    ArmAllSnoc(s[..i], s[i], now, h);
    var mid := ArmAll(s[..i + 1], now, h);
    assert s[..i + 1] == s[..i] + [s[i]];
    ArmAllAppend(s[..i + 1], s[i + 1..], now, h);
    assert s[..i + 1] + s[i + 1..] == s;
    ArmAllFacts(s[i + 1..], now, mid);
  }

  /** `hass.data`, reduced to the one slot under the fixed key
      HASS_DATA_ALARM_MANAGER. The key does not mention the entry, so the slot
      holds at most one manager per Home Assistant instance. */
  class HassData {
    var alarmManager: AlarmManager?

    constructor ()
      ensures alarmManager == null
    {
      alarmManager := null;
    }
  }

  /** `async_remove_entry`: empties the slot, whichever entry's manager is in it.
      It cancels nothing. */
  method RemoveEntry(hass: HassData)
    modifies hass
    ensures hass.alarmManager == null
  {
    if hass.alarmManager != null {
      hass.alarmManager := null;
    }
  }

  class AlarmManager {
    const hass: HassData
    const entryId: string
    const storageKey: string

    var alarms: seq<Alarm>
    var freeNumbers: set<int>
    var triggers: map<int, nat>

    var timers: map<nat, Timer>
    var nextHandle: nat
    var pendingFires: seq<Timer>
    var pendingSaves: nat
    var lastSaved: Option<seq<RawItem>>
    var events: seq<Event>

    /** Each stored handle names a live timer armed for that number, and
        handles are never reused. */
    ghost predicate Valid()
      reads this
    {
      && (forall n :: n in triggers ==> triggers[n] in timers && timers[triggers[n]].number == n)
      && (forall h :: h in timers ==> h < nextHandle)
    }

    /** The fields that change, as one value. */
    function Snapshot(): State
      reads this
    {
      State(alarms, freeNumbers, triggers, timers, nextHandle, pendingFires, pendingSaves, lastSaved, events)
    }

    /** The allocation invariant of `Alarms.Dense` on this manager's state. */
    ghost predicate Allocating()
      reads this`alarms, this`freeNumbers
    {
      Dense(alarms, freeNumbers)
    }

    constructor (hass: HassData, entryId: string)
      requires hass.alarmManager == null
      modifies hass
      ensures Valid() && Allocating()
      ensures hass.alarmManager == this && this.hass == hass
      ensures this.entryId == entryId && storageKey == StorageKey(entryId)
      ensures alarms == [] && freeNumbers == {} && triggers == map[]
      ensures timers == map[] && pendingFires == [] && pendingSaves == 0
      ensures lastSaved == None && events == []
    {
      this.hass := hass;
      this.entryId := entryId;
      storageKey := StorageKey(entryId);
      alarms := [];
      freeNumbers := {};
      triggers := map[];
      timers := map[];
      nextHandle := 0;
      pendingFires := [];
      pendingSaves := 0;
      lastSaved := None;
      events := [];
      new;
      assert Numbers(alarms) + freeNumbers == {} == Range(0);
      hass.alarmManager := this;
    }

    /** `__init__`: raises (here: returns null) and changes nothing when the
        slot is taken, whatever entry the registered manager belongs to;
        otherwise registers a fresh, empty manager. */
    static method New(hass: HassData, entryId: string) returns (m: AlarmManager?)
      modifies hass
      ensures old(hass.alarmManager) != null ==> m == null && hass.alarmManager == old(hass.alarmManager)
      ensures old(hass.alarmManager) == null ==>
                && m != null && fresh(m) && hass.alarmManager == m
                && m.Valid() && m.Allocating()
                && m.entryId == entryId && m.storageKey == StorageKey(entryId)
                && m.alarms == [] && m.freeNumbers == {} && m.triggers == map[]
                && m.timers == map[] && m.pendingFires == [] && m.pendingSaves == 0
                && m.lastSaved == None && m.events == []
    {
      if hass.alarmManager != null {
        return null;
      }
      m := new AlarmManager(hass, entryId);
    }

    /** `get_instance`. */
    static function GetInstance(hass: HassData): AlarmManager?
      reads hass
    {
      hass.alarmManager
    }

    /** `execute_on_instance_async` with the one callable the core passes to
        it, `delete_alarm(n)`: `(False, None)` when no manager is registered,
        otherwise `(True, result)`. */
    static method ExecuteDeleteOnInstance(hass: HassData, n: int) returns (found: bool, result: Option<bool>)
      requires hass.alarmManager != null ==> hass.alarmManager.Valid()
      modifies if hass.alarmManager != null then {hass.alarmManager} else {}
      ensures old(hass.alarmManager) == null ==> !found && result == None
      ensures old(hass.alarmManager) != null ==>
                var m := old(hass.alarmManager);
                && found && result == Some(n in Numbers(old(m.alarms)))
                && m.Valid() && m.Snapshot() == AfterDelete(old(m.Snapshot()), n)
                && (old(m.Allocating()) ==> m.Allocating())
                && (UniqueNumbers(old(m.alarms)) ==> UniqueNumbers(m.alarms))
    {
      var instance := GetInstance(hass);
      if instance == null {
        return false, None;
      }
      var deleted := instance.DeleteAlarm(n);
      return true, Some(deleted);
    }

    /** `recalculate_free_alarm_numbers`. */
    method RecalculateFreeAlarmNumbers()
      modifies this`freeNumbers
      ensures freeNumbers == FreeNumbers(alarms)
      ensures freeNumbers !! Numbers(alarms)
      ensures (forall a :: a in alarms ==> a.number >= 1) ==> Allocating()
    {
      freeNumbers := FreeNumbers(alarms);
      if forall a :: a in alarms ==> a.number >= 1 {
        RecalculatedIsDense(alarms);
      }
    }

    /** `get_next_alarm_time`. */
    function NextAlarmTime(): Option<int>
      reads this
    {
      EarliestTime(alarms)
    }

    /** `get_all_alarms_data`: the records as a value, so no caller can change
        the manager through it. */
    function AllAlarmsData(): seq<Alarm>
      reads this
    {
      alarms
    }

    /** `get_alarm`. */
    function GetAlarm(n: int): Option<Alarm>
      reads this
    {
      Find(alarms, n)
    }

    /** `get_next_alarm_number`. */
    function NextAlarmNumber(): int
      reads this
    {
      NextNumber(alarms, freeNumbers)
    }

    /** The loop of `async_load_alarms`: each item that is not a dict, lacks a
        key, has the wrong types or a time that does not parse is skipped. */
    static method DecodeStoredItems(items: seq<RawItem>, parse: Parser) returns (loaded: seq<Alarm>)
      ensures loaded == DecodeAll(items, parse)
    {
      loaded := [];
      var i := 0;
      while i < |items|
        invariant 0 <= i <= |items|
        invariant loaded == DecodeAll(items[..i], parse)
      {
        var item := items[i];
        assert items[..i + 1] == items[..i] + [item];
        DecodeAllSnoc(items[..i], item, parse);
        i := i + 1;
        if !item.Dict? || "number" !in item.fields || "datetime" !in item.fields {
          continue;  // malformed
        }
        var num, dt := AsInt(item.fields["number"]), item.fields["datetime"];
        if num.None? || !dt.StrValue? {
          continue;  // incorrect types
        }
        var parsed := parse(dt.s);
        if parsed.None? {
          continue;  // unparsable
        }
        loaded := loaded + [Alarm(num.value, ToUtc(parsed.value))];
      }
      assert items[..i] == items;
    }

    /** `async_load_alarms`, given what the store returned. */
    method LoadAlarms(stored: Option<seq<RawItem>>, parse: Parser)
      requires Valid()
      modifies this`alarms, this`freeNumbers
      ensures Valid()
      ensures stored == None || stored == Some([]) ==>
                alarms == old(alarms) && freeNumbers == old(freeNumbers)
      ensures stored.Some? && stored.value != [] ==>
                alarms == Loaded(stored.value, parse) && freeNumbers == FreeNumbers(alarms)
      ensures stored.Some? && stored.value != []
              && (forall a :: a in DecodeAll(stored.value, parse) ==> a.number >= 1)
              ==> Allocating()
    {
      if stored == None || stored.value == [] {
        return;
      }
      var loaded := DecodeStoredItems(stored.value, parse);
      LoadedKeepsRecords(stored.value, parse);
      alarms := Sorting.SortBy(loaded, ByNumber);
      RecalculateFreeAlarmNumbers();
    }

    /** `add_alarm_data`: refuses a number already in use and changes nothing;
        otherwise appends the record, takes the number out of the free set and
        queues a save. */
    method AddAlarmData(n: int, at: int) returns (ok: bool)
      requires Valid()
      modifies this`alarms, this`freeNumbers, this`pendingSaves
      ensures Valid()
      ensures ok <==> n !in Numbers(old(alarms))
      ensures ok ==> alarms == old(alarms) + [Alarm(n, at)]
                     && freeNumbers == old(freeNumbers) - {n}
                     && pendingSaves == old(pendingSaves) + 1
      ensures !ok ==> alarms == old(alarms) && freeNumbers == old(freeNumbers)
                      && pendingSaves == old(pendingSaves)
      ensures UniqueNumbers(old(alarms)) ==> UniqueNumbers(alarms)
    {
      if n in Numbers(alarms) {
        return false;
      }
      if UniqueNumbers(alarms) { AppendKeepsUnique(alarms, Alarm(n, at)); }
      NumbersAppend(alarms, Alarm(n, at));
      alarms := alarms + [Alarm(n, at)];
      if n in freeNumbers {
        freeNumbers := freeNumbers - {n};
      }
      pendingSaves := pendingSaves + 1;
      return true;
    }

    /** `_async_schedule_alarm_event_trigger`: an alarm already due gets its
        fire callback queued and no handle; a later one gets a timer whose
        handle is stored under its number (replacing any handle stored there). */
    method ScheduleAlarmEventTrigger(n: int, at: int, now: int)
      requires Valid()
      modifies this`triggers, this`timers, this`nextHandle, this`pendingFires
      ensures Valid()
      ensures at <= now ==> pendingFires == old(pendingFires) + [Timer(n, at)]
                            && triggers == old(triggers) && timers == old(timers)
                            && nextHandle == old(nextHandle)
      ensures at > now ==> pendingFires == old(pendingFires)
                           && triggers == old(triggers)[n := old(nextHandle)]
                           && timers == old(timers)[old(nextHandle) := Timer(n, at)]
                           && nextHandle == old(nextHandle) + 1
    {
      if at <= now {
        pendingFires := pendingFires + [Timer(n, at)];
        return;
      }
      var handle := nextHandle;
      timers := timers[handle := Timer(n, at)];
      nextHandle := nextHandle + 1;
      triggers := triggers[n := handle];
    }

    /** `create_alarm`: allocates `get_next_alarm_number`, adds the record and
        arms its trigger. Under the allocation invariant the new number is the
        least unused one and the invariant is kept. */
    method CreateAlarm(at: int, now: int) returns (created: Option<Alarm>)
      requires Valid()
      modifies this
      ensures Valid()
      ensures var n := NextNumber(old(alarms), old(freeNumbers));
              created == if n in Numbers(old(alarms)) then None else Some(Alarm(n, at))
      ensures created.None? ==>
                alarms == old(alarms) && freeNumbers == old(freeNumbers)
                && pendingSaves == old(pendingSaves) && pendingFires == old(pendingFires)
                && triggers == old(triggers) && timers == old(timers)
      ensures created.Some? ==>
                && alarms == old(alarms) + [created.value]
                && freeNumbers == old(freeNumbers) - {created.value.number}
                && pendingSaves == old(pendingSaves) + 1
      ensures created.Some? && at <= now ==>
                pendingFires == old(pendingFires) + [Timer(created.value.number, at)]
                && triggers == old(triggers) && timers == old(timers)
      ensures created.Some? && at > now ==>
                pendingFires == old(pendingFires)
                && triggers == old(triggers)[created.value.number := old(nextHandle)]
                && timers == old(timers)[old(nextHandle) := Timer(created.value.number, at)]
      ensures events == old(events) && lastSaved == old(lastSaved)
      ensures UniqueNumbers(old(alarms)) ==> UniqueNumbers(alarms)
      ensures old(Allocating()) ==>
                created.Some? && Allocating() && LeastUnused(created.value.number, Numbers(old(alarms)))
    {
      var n := NextAlarmNumber();
      if Allocating() {
        AllocatePreservesDense(alarms, freeNumbers, at);
        NextNumberIsLeastUnused(alarms, freeNumbers);
      }
      var ok := AddAlarmData(n, at);
      if !ok {
        return None;
      }
      ScheduleAlarmEventTrigger(n, at, now);
      created := Some(Alarm(n, at));
    }

    /** `_async_cancel_scheduled_alarm_trigger`: pops and cancels the handle
        stored for `n`; a no-op when there is none, so cancelling twice is the
        same as cancelling once. */
    method CancelScheduledAlarmTrigger(n: int)
      requires Valid()
      modifies this`triggers, this`timers
      ensures Valid()
      ensures triggers == old(triggers) - {n}
      ensures timers == AfterCancel(old(triggers), old(timers), n)
    {
      if n in triggers {
        var handle := triggers[n];
        triggers := triggers - {n};
        timers := timers - {handle};
      }
    }

    /** `delete_alarm`: removes every record numbered `n` and reports whether
        any was there, with the effect `AfterDelete` states. */
    method DeleteAlarm(n: int) returns (deleted: bool)
      requires Valid()
      modifies this`alarms, this`freeNumbers, this`triggers, this`timers, this`pendingSaves
      ensures Valid()
      ensures deleted <==> n in Numbers(old(alarms))
      ensures Snapshot() == AfterDelete(old(Snapshot()), n)
      ensures old(Allocating()) ==> Allocating()
      ensures UniqueNumbers(old(alarms)) ==> UniqueNumbers(alarms)
    {
      if Allocating() { DeletePreservesDense(alarms, freeNumbers, n); }
      if UniqueNumbers(alarms) { WithoutKeepsUnique(alarms, n); }
      var initialCount := |alarms|;
      alarms := Without(alarms, n);
      if |alarms| < initialCount {
        freeNumbers := freeNumbers + {n};
        CancelScheduledAlarmTrigger(n);
        pendingSaves := pendingSaves + 1;
        return true;
      }
      return false;
    }

    /** `delete_all_alarms`: deletes by number over a snapshot of the list and
        counts the successful deletes, which is the number of distinct numbers
        (the length of the list when numbers are unique). The list ends empty. */
    method DeleteAllAlarms() returns (count: nat)
      requires Valid()
      modifies this`alarms, this`freeNumbers, this`triggers, this`timers, this`pendingSaves
      ensures Valid()
      ensures alarms == []
      ensures count == DistinctCount(old(alarms))
      ensures UniqueNumbers(old(alarms)) ==> count == |old(alarms)|
      ensures freeNumbers == old(freeNumbers) + Numbers(old(alarms))
      ensures triggers == old(triggers) - Numbers(old(alarms))
      ensures timers == old(timers) - HandlesOf(old(triggers), Numbers(old(alarms)))
      ensures pendingSaves == old(pendingSaves) + count
      ensures old(Allocating()) ==> Allocating()
    {
      var snapshot := alarms;
      ghost var tr0, tm0, free0 := triggers, timers, freeNumbers;
      ghost var all, done: set<int> := Numbers(snapshot), {};
      count := 0;
      var i := 0;
      while i < |snapshot|
        invariant 0 <= i <= |snapshot|
        invariant Valid()
        invariant done == Numbers(snapshot[..i])
        invariant ClearedUpTo(all, done, free0, tr0, tm0)
        invariant count == DistinctCount(snapshot[..i])
        invariant pendingSaves == old(pendingSaves) + count
      {
        var a := snapshot[i];
        NumbersOfPrefix(snapshot, i);
        var deleted := DeleteAllStep(a.number, all, done, free0, tr0, tm0);
        if deleted {
          count := count + 1;
        }
        done := done + {a.number};
        i := i + 1;
      }
      assert snapshot[..i] == snapshot;
      assert ClearedUpTo(all, all, free0, tr0, tm0);
      NoNumbersIsEmpty(alarms);
      assert UniqueNumbers(snapshot) ==> count == |snapshot| by {
        if UniqueNumbers(snapshot) { DistinctCountOfUnique(snapshot); }
      }
    }

    /** The state once `delete_alarm` has run for every number in `done`,
        starting from the free set `free0` and the maps `tr0`, `tm0`. */
    ghost predicate ClearedUpTo(all: set<int>, done: set<int>, free0: set<int>,
                                tr0: map<int, nat>, tm0: map<nat, Timer>)
      reads this
    {
      && Numbers(alarms) == all - done
      && freeNumbers == free0 + done
      && triggers == tr0 - done
      && timers == tm0 - HandlesOf(tr0, done)
    }

    /** One iteration of `delete_all_alarms`: deleting the snapshot's next
        number once the numbers in `done` are gone. */
    method DeleteAllStep(n: int, ghost all: set<int>, ghost done: set<int>, ghost free0: set<int>,
                         ghost tr0: map<int, nat>, ghost tm0: map<nat, Timer>) returns (deleted: bool)
      requires Valid() && n in all
      requires ClearedUpTo(all, done, free0, tr0, tm0)
      modifies this`alarms, this`freeNumbers, this`triggers, this`timers, this`pendingSaves
      ensures Valid()
      ensures deleted <==> n !in done
      ensures ClearedUpTo(all, done + {n}, free0, tr0, tm0)
      ensures pendingSaves == old(pendingSaves) + if deleted then 1 else 0
    {
      if n !in done {
        CancelOneMore(tr0, tm0, done, n);
      } else {
        assert done + {n} == done;
      }
      deleted := DeleteAlarm(n);
    }

    /** `async_cancel_all_scheduled_triggers`: cancels every stored handle and
        leaves the map empty. */
    method CancelAllScheduledTriggers()
      requires Valid()
      modifies this`triggers, this`timers
      ensures Valid()
      ensures triggers == map[]
      ensures timers == old(timers) - HandlesOf(old(triggers), old(triggers).Keys)
    {
      var keys := triggers.Keys;
      while keys != {}
        invariant Valid()
        invariant keys <= old(triggers).Keys
        invariant triggers.Keys == keys
        invariant forall k :: k in keys ==> triggers[k] == old(triggers)[k]
        invariant timers == old(timers) - HandlesOf(old(triggers), old(triggers).Keys - keys)
        decreases keys
      {
        var k := Least(keys);
        ghost var cancelled := old(triggers).Keys - keys;
        CancelScheduledAlarmTrigger(k);
        assert HandlesOf(old(triggers), cancelled + {k})
            == HandlesOf(old(triggers), cancelled) + {old(triggers)[k]};
        assert old(triggers).Keys - (keys - {k}) == cancelled + {k};
        keys := keys - {k};
      }
    }

    /** `_async_save_alarms_to_store`: writes every record, in list order, as
        `{number, datetime}`, replacing what the store held. */
    method SaveAlarmsToStore(format: Formatter)
      modifies this`lastSaved
      ensures lastSaved == Some(Serialize(alarms, format))
    {
      var data := Serialize(alarms, format);
      lastSaved := Some(data);
    }

    /** The event loop runs one queued save task, if there is one. The task
        reads the list when it runs, not when it was queued. */
    method RunPendingSave(format: Formatter)
      modifies this`pendingSaves, this`lastSaved
      ensures old(pendingSaves) == 0 ==> pendingSaves == 0 && lastSaved == old(lastSaved)
      ensures old(pendingSaves) > 0 ==> pendingSaves == old(pendingSaves) - 1
                                        && lastSaved == Some(Serialize(alarms, format))
    {
      if pendingSaves > 0 {
        pendingSaves := pendingSaves - 1;
        SaveAlarmsToStore(format);
      }
    }

    /** What `_fire_alarm_event_callback` does for the timer `t`, apart from
        the timer map: one event, then a delete by number, then the handle for
        the number dropped whether or not the delete found anything. */
    twostate predicate CallbackRan(t: Timer)
      reads this
    {
      var n := t.number;
      var deleted := n in Numbers(old(alarms));
      && events == old(events) + [AlarmTriggered(entryId, n, t.fireAt)]
      && alarms == Without(old(alarms), n)
      && freeNumbers == (if deleted then old(freeNumbers) + {n} else old(freeNumbers))
      && triggers == old(triggers) - {n}
      && pendingSaves == (if deleted then old(pendingSaves) + 1 else old(pendingSaves))
    }

    /** `_fire_alarm_event_callback`. */
    method FireAlarmEventCallback(t: Timer)
      requires Valid()
      modifies this`events, this`alarms, this`freeNumbers, this`triggers, this`timers, this`pendingSaves
      ensures Valid()
      ensures CallbackRan(t)
      ensures timers == if t.number in Numbers(old(alarms))
                        then AfterCancel(old(triggers), old(timers), t.number) else old(timers)
      ensures old(Allocating()) ==> Allocating()
      ensures UniqueNumbers(old(alarms)) ==> UniqueNumbers(alarms)
    {
      events := events + [AlarmTriggered(entryId, t.number, t.fireAt)];
      ghost var tr0 := triggers;
      var _ := DeleteAlarm(t.number);
      if t.number in triggers {
        triggers := triggers - {t.number};
      }
      assert triggers == tr0 - {t.number};
    }

    /** The event loop runs the oldest queued fire callback, if there is one. */
    method RunPendingFire()
      requires Valid()
      modifies this`pendingFires, this`events, this`alarms, this`freeNumbers, this`triggers,
               this`timers, this`pendingSaves
      ensures Valid()
      ensures old(pendingFires) == [] ==>
                pendingFires == [] && events == old(events) && alarms == old(alarms)
                && freeNumbers == old(freeNumbers) && triggers == old(triggers)
                && timers == old(timers) && pendingSaves == old(pendingSaves)
      ensures old(pendingFires) != [] ==>
                var t := old(pendingFires)[0];
                && pendingFires == old(pendingFires)[1..]
                && CallbackRan(t)
                && timers == if t.number in Numbers(old(alarms))
                             then AfterCancel(old(triggers), old(timers), t.number) else old(timers)
      ensures old(Allocating()) ==> Allocating()
      ensures UniqueNumbers(old(alarms)) ==> UniqueNumbers(alarms)
    {
      if pendingFires != [] {
        var t := pendingFires[0];
        pendingFires := pendingFires[1..];
        FireAlarmEventCallback(t);
      }
    }

    /** The timer service runs the timer `handle` once `now` has reached its
        time; the fired timer is no longer live. */
    method TimerElapsed(handle: nat, now: int)
      requires Valid()
      modifies this`events, this`alarms, this`freeNumbers, this`triggers, this`timers, this`pendingSaves
      ensures Valid()
      ensures !(handle in old(timers) && old(timers)[handle].fireAt <= now) ==>
                events == old(events) && alarms == old(alarms)
                && freeNumbers == old(freeNumbers) && triggers == old(triggers)
                && timers == old(timers) && pendingSaves == old(pendingSaves)
      ensures handle in old(timers) && old(timers)[handle].fireAt <= now ==>
                var t := old(timers)[handle];
                && CallbackRan(t)
                && handle !in timers
                && timers == (if t.number in Numbers(old(alarms))
                              then AfterCancel(old(triggers), old(timers), t.number)
                              else old(timers)) - {handle}
      ensures old(Allocating()) ==> Allocating()
      ensures UniqueNumbers(old(alarms)) ==> UniqueNumbers(alarms)
    {
      if handle in timers && timers[handle].fireAt <= now {
        var t := timers[handle];
        FireAlarmEventCallback(t);
        timers := timers - {handle};
      }
    }

    /** The scheduling half of `create_entities_for_loaded_alarms_and_schedule`:
        arms a trigger for every record, in list order. The new handles are
        `ArmAll` of the old ones; the lemmas about `ArmAll` give their meaning. */
    method ScheduleLoadedAlarms(now: int)
      requires Valid()
      modifies this`triggers, this`timers, this`nextHandle, this`pendingFires
      ensures Valid()
      ensures pendingFires == old(pendingFires) + PastDue(alarms, now)
      ensures Handles(triggers, timers, nextHandle) == ArmAll(alarms, now, Handles(old(triggers), old(timers), old(nextHandle)))
      ensures triggers.Keys == old(triggers).Keys + FutureNumbers(alarms, now)
      ensures UniqueNumbers(alarms) ==> Armed(alarms, |alarms|, now, triggers, timers)
    {
      ghost var h0 := Handles(triggers, timers, nextHandle);
      var snapshot := AllAlarmsData();
      var i := 0;
      while i < |snapshot|
        invariant 0 <= i <= |snapshot|
        invariant Valid()
        invariant pendingFires == old(pendingFires) + PastDue(snapshot[..i], now)
        invariant Handles(triggers, timers, nextHandle) == ArmAll(snapshot[..i], now, h0)
      {
        var a := snapshot[i];
        assert snapshot[..i + 1] == snapshot[..i] + [a];
        FutureSnoc(snapshot[..i], a, now);
        ArmAllSnoc(snapshot[..i], a, now, h0);
        ScheduleAlarmEventTrigger(a.number, a.fireAt, now);
        i := i + 1;
      }
      assert snapshot[..i] == snapshot;
      ArmAllFacts(snapshot, now, h0);
      if UniqueNumbers(snapshot) {
        ArmAllArmed(snapshot, |snapshot|, now, h0);
      }
    }
  }
}
