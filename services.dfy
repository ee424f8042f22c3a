/** The decision logic of the two delete services registered by
    `async_setup` in `custom_components/wake_up_alarm/__init__.py`.

    The entity registry is a map from entity id to its registry entry; the
    dispatcher is reduced to the list of signals sent, and the log to the list
    of entity ids a warning was written for. */
module Services {
  import opened Wrappers
  import opened Alarms
  import opened PyInt
  import opened Manager
  import Sensors

  /** The fields of an entity registry entry the service inspects. */
  datatype RegistryEntry = RegistryEntry(platform: string, configEntryId: Option<string>, uniqueId: string)

  /** A dispatcher signal `SIGNAL_DELETE_ALARM_<entry id>` with payload
      `{alarm_number: n}`. */
  datatype Signal = DeleteSignal(name: string, alarmNumber: int)

  function DeleteSignalName(configEntryId: string): string
  {
    Domain + "_delete_alarm_" + configEntryId
  }

  /** The unique id of an alarm entity, `f"{entry_id}_alarm_{alarm_number}"`. */
  function AlarmUniqueId(entryId: string, n: int): string
  {
    entryId + "_alarm_" + ToDecimal(n)
  }

  predicate HasPrefix(s: string, prefix: string)
  {
    |prefix| <= |s| && s[..|prefix|] == prefix
  }

  /** What the service does with one target entity. */
  datatype Outcome =
    | NotFound            // not in the registry
    | OtherPlatform       // registered by another integration
    | NoConfigEntry       // no (or an empty) config entry id
    | FormatMismatch      // unique id without the "<entry>_alarm_" prefix
    | NotANumber          // the rest of the unique id fails `int()`
    | Delete(configEntryId: string, alarmNumber: int)

  function Classify(registry: map<string, RegistryEntry>, entityId: string): Outcome
  {
    if entityId !in registry then NotFound
    else
      var e := registry[entityId];
      if e.platform != Domain then OtherPlatform
      else if e.configEntryId.None? || e.configEntryId.value == "" then NoConfigEntry
      else
        var c := e.configEntryId.value;
        var prefix := c + "_alarm_";
        if e.uniqueId == "" || !HasPrefix(e.uniqueId, prefix) then FormatMismatch
        else
          match ParseInt(e.uniqueId[|prefix|..])
          case None => NotANumber
          case Some(n) => Delete(c, n)
  }

  /** The outcome for each target, in target order. */
  function Outcomes(registry: map<string, RegistryEntry>, targets: seq<string>): (r: seq<Outcome>)
    ensures |r| == |targets| && forall i :: 0 <= i < |targets| ==> r[i] == Classify(registry, targets[i])
  {
    seq(|targets|, i requires 0 <= i < |targets| => Classify(registry, targets[i]))
  }

  /** The deletes among `os`, in order. */
  function Deletes(os: seq<Outcome>): (r: seq<Outcome>)
    ensures forall i :: 0 <= i < |r| ==> r[i].Delete?
  {
    if os == [] then []
    else
      var o := os[|os| - 1];
      Deletes(os[..|os| - 1]) + if o.Delete? then [o] else []
  }

  /** The targets whose outcome is not a delete, in order. */
  function Skipped(targets: seq<string>, os: seq<Outcome>): seq<string>
    requires |os| == |targets|
  {
    if targets == [] then []
    else
      var t, o := targets[|targets| - 1], os[|os| - 1];
      Skipped(targets[..|targets| - 1], os[..|os| - 1]) + if o.Delete? then [] else [t]
  }

  function SignalsFor(requests: seq<Outcome>): (r: seq<Signal>)
    requires forall i :: 0 <= i < |requests| ==> requests[i].Delete?
    ensures |r| == |requests|
    ensures forall i :: 0 <= i < |requests| ==>
              r[i] == DeleteSignal(DeleteSignalName(requests[i].configEntryId), requests[i].alarmNumber)
  {
    seq(|requests|, i requires 0 <= i < |requests| =>
      DeleteSignal(DeleteSignalName(requests[i].configEntryId), requests[i].alarmNumber))
  }

  /** The numbers the deletes among `ds` name. */
  function DeletedNumbers(ds: seq<Outcome>): set<int>
  {
    if ds == [] then {}
    else
      var o := ds[|ds| - 1];
      DeletedNumbers(ds[..|ds| - 1]) + if o.Delete? then {o.alarmNumber} else {}
  }

  /** The records of `s` whose number is not in `ns`, in list order. */
  function KeepUnnamed(s: seq<Alarm>, ns: set<int>): seq<Alarm>
  {
    if s == [] then []
    else (if s[0].number in ns then [] else [s[0]]) + KeepUnnamed(s[1..], ns)
  }

  /** Deleting one more number from what is kept. */
  lemma {:induction false} KeepOneLess(s: seq<Alarm>, ns: set<int>, n: int)
    ensures Without(KeepUnnamed(s, ns), n) == KeepUnnamed(s, ns + {n})
  {
    if s != [] {
      KeepOneLess(s[1..], ns, n);
      var rest := KeepUnnamed(s[1..], ns);
      var rest' := KeepUnnamed(s[1..], ns + {n});
      assert Without(rest, n) == rest';
      if s[0].number in ns {
        assert KeepUnnamed(s, ns) == rest;
        assert KeepUnnamed(s, ns + {n}) == rest';
      } else {
        var k := [s[0]] + rest;
        assert KeepUnnamed(s, ns) == k;
        assert k[0] == s[0] && k[1..] == rest;
        if s[0].number == n {
          assert Without(k, n) == Without(rest, n);
          assert KeepUnnamed(s, ns + {n}) == rest';
        } else {
          assert Without(k, n) == [s[0]] + Without(rest, n);
          assert KeepUnnamed(s, ns + {n}) == [s[0]] + rest';
        }
      }
    }
  }

  /** A record is kept exactly when its number is not named. */
  lemma {:induction false} KeepUnnamedMeaning(s: seq<Alarm>, ns: set<int>)
    ensures forall a :: a in KeepUnnamed(s, ns) <==> a in s && a.number !in ns
  {
    if s != [] {
      KeepUnnamedMeaning(s[1..], ns);
      assert forall a :: a in s <==> a == s[0] || a in s[1..];
    }
  }

  lemma {:induction false} KeepNone(s: seq<Alarm>)
    ensures KeepUnnamed(s, {}) == s
  {
    if s != [] {
      KeepNone(s[1..]);
      assert s == [s[0]] + s[1..];
    }
  }

  /** What the service has sent, warned about and deleted after the first
      `i` targets. */
  ghost predicate Progress(registry: map<string, RegistryEntry>, targets: seq<string>, i: int,
                           signals: seq<Signal>, warnings: seq<string>, named: set<int>)
    requires 0 <= i <= |targets|
  {
    var ds := Deletes(Outcomes(registry, targets)[..i]);
    && signals == SignalsFor(ds)
    && warnings == Skipped(targets[..i], Outcomes(registry, targets)[..i])
    && named == DeletedNumbers(ds)
  }

  /** Handling target `i` extends each result by that target's share. */
  lemma ProgressStep(registry: map<string, RegistryEntry>, targets: seq<string>, i: int,
                     signals: seq<Signal>, warnings: seq<string>, named: set<int>, signal: Option<Signal>)
    requires 0 <= i < |targets|
    requires Progress(registry, targets, i, signals, warnings, named)
    requires var o := Classify(registry, targets[i]);
             signal == if o.Delete? then Some(DeleteSignal(DeleteSignalName(o.configEntryId), o.alarmNumber)) else None
    ensures if signal.Some? then
              Progress(registry, targets, i + 1, signals + [signal.value], warnings, named + {signal.value.alarmNumber})
            else
              Progress(registry, targets, i + 1, signals, warnings + [targets[i]], named)
  {
    var os := Outcomes(registry, targets);
    var o := os[i];
    var ds := Deletes(os[..i]);
    assert targets[..i + 1][..i] == targets[..i];
    assert os[..i + 1][..i] == os[..i];
    if o.Delete? {
      assert Deletes(os[..i + 1]) == ds + [o];
      DeletedSnoc(ds, o);
      SignalsSnoc(ds, o);
    } else {
      assert Deletes(os[..i + 1]) == ds;
    }
  }

  lemma ProgressStart(registry: map<string, RegistryEntry>, targets: seq<string>)
    ensures Progress(registry, targets, 0, [], [], {})
  {
    assert Outcomes(registry, targets)[..0] == [] && targets[..0] == [];
  }

  lemma ProgressEnd(registry: map<string, RegistryEntry>, targets: seq<string>,
                    signals: seq<Signal>, warnings: seq<string>, named: set<int>)
    requires Progress(registry, targets, |targets|, signals, warnings, named)
    ensures signals == SignalsFor(Deletes(Outcomes(registry, targets)))
    ensures warnings == Skipped(targets, Outcomes(registry, targets))
    ensures named == DeletedNumbers(Deletes(Outcomes(registry, targets)))
  {
    var os := Outcomes(registry, targets);
    assert targets[..|targets|] == targets && os[..|targets|] == os;
    assert Deletes(os[..|targets|]) == Deletes(os);
  }

  lemma SignalsSnoc(ds: seq<Outcome>, o: Outcome)
    requires forall i :: 0 <= i < |ds| ==> ds[i].Delete?
    requires o.Delete?
    ensures SignalsFor(ds + [o]) == SignalsFor(ds) + [DeleteSignal(DeleteSignalName(o.configEntryId), o.alarmNumber)]
  {
  }

  lemma DeletedSnoc(ds: seq<Outcome>, o: Outcome)
    ensures DeletedNumbers(ds + [o]) == DeletedNumbers(ds) + if o.Delete? then {o.alarmNumber} else {}
  {
    assert (ds + [o])[..|ds|] == ds;
  }

  /** The numbers among `named` that `s` uses: those whose delete finds a
      record. */
  function Found(s: seq<Alarm>, named: set<int>): set<int>
  {
    Numbers(s) * named
  }

  /** The state after `delete_alarm` has run once for each number in
      `named`, in any order: the records not named are kept in order, each
      number found is freed with its handle cancelled and one save queued for
      it, and the rest of the manager is as it was. */
  function AfterDeletes(s: State, named: set<int>): State
  {
    var found := Found(s.alarms, named);
    s.(alarms := KeepUnnamed(s.alarms, named), freeNumbers := s.freeNumbers + found,
       triggers := s.triggers - found, timers := s.timers - HandlesOf(s.triggers, found),
       pendingSaves := s.pendingSaves + |found|)
  }

  /** Deleting nothing changes nothing. */
  lemma AfterNoDeletes(s: State)
    ensures AfterDeletes(s, {}) == s
  {
    KeepNone(s.alarms);
    assert Found(s.alarms, {}) == {};
    assert s.triggers - {} == s.triggers;
    assert HandlesOf(s.triggers, {}) == {};
    assert s.timers - {} == s.timers;
  }

  /** One more `delete_alarm` extends the closed form by its number. */
  lemma AfterDeletesStep(s: State, named: set<int>, k: int)
    ensures AfterDelete(AfterDeletes(s, named), k) == AfterDeletes(s, named + {k})
  {
    var found := Found(s.alarms, named);
    var r, t := AfterDeletes(s, named), AfterDeletes(s, named + {k});
    var d := AfterDelete(r, k);
    FoundStep(s.alarms, named, k);
    KeepOneLess(s.alarms, named, k);
    if k in Numbers(r.alarms) {
      CancelOneMore(s.triggers, s.timers, found, k);
      assert Found(s.alarms, named + {k}) == found + {k};
      assert d.alarms == t.alarms && d.freeNumbers == t.freeNumbers;
      assert d.triggers == t.triggers && d.timers == t.timers;
      assert d.pendingSaves == t.pendingSaves;
    } else {
      assert Found(s.alarms, named + {k}) == found;
      assert d == r && r.alarms == t.alarms;
    }
  }

  /** Deleting `k` next finds a record exactly when `k` is in use and not yet
      named, and then adds `k` to what was found. */
  lemma FoundStep(s: seq<Alarm>, named: set<int>, k: int)
    ensures k in Numbers(KeepUnnamed(s, named)) <==> k in Numbers(s) && k !in named
    ensures Found(s, named + {k}) == if k in Numbers(KeepUnnamed(s, named)) then Found(s, named) + {k} else Found(s, named)
    ensures k in Numbers(KeepUnnamed(s, named)) ==> k !in Found(s, named)
  {
    KeepUnnamedMeaning(s, named);
    if k in Numbers(s) && k !in named {
      var a :| a in s && a.number == k;
      assert a in KeepUnnamed(s, named);
    }
  }

  /** `async_handle_delete_alarm_service`. Each target is looked up and skipped
      with a warning unless it is an alarm entity of this integration; for an
      alarm entity the number is read back from its unique id, the registered
      manager (whichever entry it serves) deletes it, and the delete signal
      for the entity's own entry is sent. */
  method HandleDeleteAlarmService(hass: HassData, registry: map<string, RegistryEntry>, targets: seq<string>)
    returns (signals: seq<Signal>, warnings: seq<string>)
    requires hass.alarmManager != null ==> hass.alarmManager.Valid()
    modifies if hass.alarmManager != null then {hass.alarmManager} else {}
    ensures signals == SignalsFor(Deletes(Outcomes(registry, targets)))
    ensures warnings == Skipped(targets, Outcomes(registry, targets))
    ensures hass.alarmManager == old(hass.alarmManager)
    ensures hass.alarmManager != null ==>
              var m := hass.alarmManager;
              var named := DeletedNumbers(Deletes(Outcomes(registry, targets)));
              && m.Valid()
              && m.Snapshot() == AfterDeletes(old(m.Snapshot()), named)
              && (old(m.Allocating()) ==> m.Allocating())
              && (UniqueNumbers(old(m.alarms)) ==> UniqueNumbers(m.alarms))
  {
    ghost var m := hass.alarmManager;
    ghost var initial := if m != null then m.alarms else [];
    ghost var s0 := if m != null then m.Snapshot() else State([], {}, map[], map[], 0, [], 0, None, []);
    ghost var named: set<int> := {};
    AfterNoDeletes(s0);
    ProgressStart(registry, targets);
    signals, warnings := [], [];
    var i := 0;
    while i < |targets|
      invariant 0 <= i <= |targets|
      invariant hass.alarmManager == m
      invariant Progress(registry, targets, i, signals, warnings, named)
      invariant m != null ==>
                  && m.Valid() && m.Snapshot() == AfterDeletes(s0, named)
                  && (old(m.Allocating()) ==> m.Allocating())
                  && (UniqueNumbers(initial) ==> UniqueNumbers(m.alarms))
    {
      var entityId := targets[i];
      ghost var o := Classify(registry, entityId);
      if o.Delete? {
        AfterDeletesStep(s0, named, o.alarmNumber);
      }
      var signal := HandleTarget(hass, registry, entityId);
      ProgressStep(registry, targets, i, signals, warnings, named, signal);
      if signal.Some? {
        signals := signals + [signal.value];
        named := named + {signal.value.alarmNumber};
      } else {
        warnings := warnings + [entityId];
      }
      i := i + 1;
    }
    ProgressEnd(registry, targets, signals, warnings, named);
  }

  /** One iteration of the service's loop: the delete and the signal for an
      alarm entity, or nothing (and a warning) for any other target. */
  method HandleTarget(hass: HassData, registry: map<string, RegistryEntry>, entityId: string)
    returns (signal: Option<Signal>)
    requires hass.alarmManager != null ==> hass.alarmManager.Valid()
    modifies if hass.alarmManager != null then {hass.alarmManager} else {}
    ensures var o := Classify(registry, entityId);
            signal == if o.Delete? then Some(DeleteSignal(DeleteSignalName(o.configEntryId), o.alarmNumber)) else None
    ensures hass.alarmManager == old(hass.alarmManager)
    ensures hass.alarmManager != null ==>
              var m := hass.alarmManager;
              var o := Classify(registry, entityId);
              && m.Valid()
              && (if o.Delete? then m.Snapshot() == AfterDelete(old(m.Snapshot()), o.alarmNumber) else unchanged(m))
              && (old(m.Allocating()) ==> m.Allocating())
              && (UniqueNumbers(old(m.alarms)) ==> UniqueNumbers(m.alarms))
  {
    if entityId !in registry {
      return None;
    }
    var entry := registry[entityId];
    if entry.platform != Domain {
      return None;
    }
    if entry.configEntryId.None? || entry.configEntryId.value == "" {
      return None;
    }
    var configEntryId := entry.configEntryId.value;
    var prefix := configEntryId + "_alarm_";
    if entry.uniqueId != "" && HasPrefix(entry.uniqueId, prefix) {
      var parsed := ParseInt(entry.uniqueId[|prefix|..]);
      if parsed.None? {
        return None;
      }
      var alarmNumber := parsed.value;
      var _, _ := AlarmManager.ExecuteDeleteOnInstance(hass, alarmNumber);
      return Some(DeleteSignal(DeleteSignalName(configEntryId), alarmNumber));
    }
    return None;
  }

  /** A target is deleted exactly when it is a registered entity of this
      integration with a non-empty config entry id `c`, and its unique id is
      `c + "_alarm_"` followed by text that `int()` reads as `n`. */
  lemma ClassifyDelete(registry: map<string, RegistryEntry>, entityId: string, c: string, n: int)
    ensures Classify(registry, entityId) == Delete(c, n) <==>
              && entityId in registry
              && registry[entityId].platform == Domain
              && registry[entityId].configEntryId == Some(c) && c != ""
              && HasPrefix(registry[entityId].uniqueId, c + "_alarm_")
              && ParseInt(registry[entityId].uniqueId[|c + "_alarm_"|..]) == Some(n)
  {
  }

  /** The id an alarm entity is created with reads back as its own entry and
      number. */
  lemma AlarmEntityRoundTrip(registry: map<string, RegistryEntry>, entityId: string, entryId: string, n: int)
    requires entityId in registry
    requires registry[entityId] == RegistryEntry(Domain, Some(entryId), AlarmUniqueId(entryId, n))
    ensures Classify(registry, entityId) == if entryId == "" then NoConfigEntry else Delete(entryId, n)
  {
    UniqueIdSuffix(entryId, n);
    ParseToDecimal(n);
  }

  lemma UniqueIdSuffix(entryId: string, n: int)
    ensures HasPrefix(AlarmUniqueId(entryId, n), entryId + "_alarm_")
    ensures AlarmUniqueId(entryId, n)[|entryId + "_alarm_"|..] == ToDecimal(n)
  {
    var u := AlarmUniqueId(entryId, n);
    var prefix := entryId + "_alarm_";
    assert u == prefix + ToDecimal(n);
    assert u[..|prefix|] == prefix;
    assert u[|prefix|..] == ToDecimal(n);
  }

  /** The summary sensor of the same entry is never taken for an alarm: its
      unique id continues `<entry>_w...`, not `<entry>_a...`. */
  lemma SummaryIsNotAnAlarm(registry: map<string, RegistryEntry>, entityId: string, entryId: string)
    requires entityId in registry
    requires registry[entityId] == RegistryEntry(Domain, Some(entryId), Sensors.SummaryUniqueId(entryId))
    ensures Classify(registry, entityId) == if entryId == "" then NoConfigEntry else FormatMismatch
  {
    var u := Sensors.SummaryUniqueId(entryId);
    var prefix := entryId + "_alarm_";
    var k := |entryId| + 1;
    assert u[k] == 'w' && prefix[k] == 'a';
  }

  /** Every target is either deleted or warned about, never both. */
  lemma {:induction false} DeletesAndSkipped(targets: seq<string>, os: seq<Outcome>)
    requires |os| == |targets|
    ensures |Deletes(os)| + |Skipped(targets, os)| == |targets|
  {
    if targets != [] {
      DeletesAndSkipped(targets[..|targets| - 1], os[..|os| - 1]);
    }
  }

  /** `async_handle_delete_alarm_by_number_service`: with no config entry of
      the domain only a warning is written; otherwise one delete signal
      carrying `n` is sent to each entry, and `dispatched_count` is the number
      of entries. The handler touches no manager itself. */
  method HandleDeleteAlarmByNumberService(entryIds: seq<string>, n: int)
    returns (signals: seq<Signal>, warned: bool, dispatchedCount: int)
    ensures warned <==> entryIds == []
    ensures |signals| == |entryIds| && dispatchedCount == |entryIds|
    ensures forall i :: 0 <= i < |entryIds| ==> signals[i] == DeleteSignal(DeleteSignalName(entryIds[i]), n)
  {
    signals := [];
    if entryIds == [] {
      return signals, true, 0;
    }
    warned := false;
    dispatchedCount := 0;
    for i := 0 to |entryIds|
      invariant dispatchedCount == i == |signals|
      invariant forall j :: 0 <= j < i ==> signals[j] == DeleteSignal(DeleteSignalName(entryIds[j]), n)
    {
      signals := signals + [DeleteSignal(DeleteSignalName(entryIds[i]), n)];
      dispatchedCount := dispatchedCount + 1;
    }
  }

  /** What a summary sensor shows: its state and its attributes. */
  datatype SummaryState = SummaryState(nextTime: Option<int>, attributes: Sensors.SummaryAttributes)

  /** `_async_handle_delete_alarm_signal` in the sensor platform of
      `wake_up_alarm/alarm_manager.py`: it only writes the summary sensor's
      state again, from the manager's current alarms. */
  method HandleDeleteSignal(m: AlarmManager, signal: Signal, format: Storage.Formatter) returns (shown: SummaryState)
    ensures shown.nextTime == EarliestTime(m.alarms)
    ensures shown.attributes.alarmTimes == Sensors.Rendered(Sensors.SortedTimes(m.alarms), format)
    ensures shown.attributes.alarmsCount == |m.alarms|
  {
    shown := SummaryState(Sensors.NativeValue(m.alarms), Sensors.ExtraStateAttributes(m.alarms, format));
    Sensors.SummaryAttributesFacts(m.alarms, format);
  }

  /** Signal names determine the entry they are for. */
  lemma DeleteSignalNameInjective(a: string, b: string)
    ensures DeleteSignalName(a) == DeleteSignalName(b) <==> a == b
  {
    var k := |Domain + "_delete_alarm_"|;
    if DeleteSignalName(a) == DeleteSignalName(b) {
      assert a == DeleteSignalName(a)[k..];
      assert b == DeleteSignalName(b)[k..];
    }
  }

  /** The signal handler as evidently intended: the manager listening on the
      signal's name deletes the alarm the signal names. Only the registered
      manager's entry has a listener, since a second entry's platform setup
      stops before connecting one. */
  method HandleDeleteSignalAsIntended(hass: HassData, signal: Signal)
    requires hass.alarmManager != null ==> hass.alarmManager.Valid()
    modifies if hass.alarmManager != null then {hass.alarmManager} else {}
    ensures hass.alarmManager == old(hass.alarmManager)
    ensures hass.alarmManager != null ==>
              var m := hass.alarmManager;
              && m.Valid()
              && (if signal.name == DeleteSignalName(m.entryId)
                  then m.Snapshot() == AfterDelete(old(m.Snapshot()), signal.alarmNumber) else unchanged(m))
              && (old(m.Allocating()) ==> m.Allocating())
              && (UniqueNumbers(old(m.alarms)) ==> UniqueNumbers(m.alarms))
  {
    var m := AlarmManager.GetInstance(hass);
    if m != null && signal.name == DeleteSignalName(m.entryId) {
      var _ := m.DeleteAlarm(signal.alarmNumber);
    }
  }

  /** Delete-by-number with the intended signal handler: the registered
      manager loses alarm `n` exactly when its own entry is among those the
      signals go to. */
  method DeleteAlarmByNumberAsIntended(hass: HassData, entryIds: seq<string>, n: int)
    returns (dispatchedCount: int)
    requires hass.alarmManager != null ==> hass.alarmManager.Valid()
    modifies if hass.alarmManager != null then {hass.alarmManager} else {}
    ensures dispatchedCount == |entryIds|
    ensures hass.alarmManager == old(hass.alarmManager)
    ensures hass.alarmManager != null ==>
              var m := hass.alarmManager;
              && m.Valid()
              && m.Snapshot() == (if m.entryId in entryIds then AfterDelete(old(m.Snapshot()), n) else old(m.Snapshot()))
              && (old(m.Allocating()) ==> m.Allocating())
              && (UniqueNumbers(old(m.alarms)) ==> UniqueNumbers(m.alarms))
  {
    var signals, _, count := HandleDeleteAlarmByNumberService(entryIds, n);
    ghost var m := hass.alarmManager;
    ghost var initial := if m != null then m.alarms else [];
    ghost var s0 := if m != null then m.Snapshot() else State([], {}, map[], map[], 0, [], 0, None, []);
    ghost var hit := false;
    for i := 0 to |signals|
      invariant hass.alarmManager == m
      invariant m != null ==> hit == (m.entryId in entryIds[..i])
      invariant m != null ==>
                  && m.Valid()
                  && m.Snapshot() == (if hit then AfterDelete(s0, n) else s0)
                  && (old(m.Allocating()) ==> m.Allocating())
                  && (UniqueNumbers(initial) ==> UniqueNumbers(m.alarms))
    {
      assert entryIds[..i + 1] == entryIds[..i] + [entryIds[i]];
      if m != null {
        DeleteSignalNameInjective(entryIds[i], m.entryId);
        AfterDeleteTwice(s0, n);
        hit := hit || entryIds[i] == m.entryId;
      }
      HandleDeleteSignalAsIntended(hass, signals[i]);
    }
    assert entryIds[..|signals|] == entryIds;
    dispatchedCount := count;
  }
}
