# Wake-up alarm manager: a Dafny model

This project models the core of the `wake_up_alarm` Home Assistant
integration (gurux13/hass-alarm) and proves properties of it:

- the `AlarmManager` class, which keeps the list of alarm records
  `(number, UTC instant)`, the set of reusable alarm numbers and the map from
  alarm number to timer handle, registers itself in a single slot of
  `hass.data`, loads and saves the records, and arms, fires and cancels a
  timer per alarm;
- the two summary sensors, which turn the manager's records into an earliest
  time (or a count) and an ascending list of rendered times;
- the two delete services of `async_setup`: delete by entity, which reads the
  alarm number back out of an entity's unique id, and delete by number,
  which fans a signal out to every config entry.

The manager appears twice in the repository, in
`custom_components/wake_up_alarm/alarm_manager.py` and in
`custom_components/integration_blueprint/alarm_manager.py`. The two copies
are the same code except that the blueprint copy has no
`get_next_alarm_time` and a constructor two lines longer, so one class
models both. The `## Model` table cites the `wake_up_alarm` copy. In the
blueprint copy, lines 1-186 are the same lines, the constructor is 187-209,
`recalculate_free_alarm_numbers` is 211-221, and every line L from
`async_load_alarms` on (L >= 228) is at L - 5.

## Files

- `wrappers.dfy`: `Option`.
- `alarms.dfy`: the record list as a value: delete by number, maximum,
  earliest time, lookup, the free-number set, the next number, and the
  allocation invariant with its preservation lemmas.
- `sorting.dfy`: Python's `sorted` with a key, as a stable insertion sort:
  ordered, a permutation, stable.
- `storage.dfy`: what loading accepts from the store and what saving writes,
  and the save/load round trip.
- `manager.dfy`: the registry slot (`HassData`) and the `AlarmManager` class,
  with its collaborators as fields.
- `sensors.dfy`: the two summary sensors.
- `pyint.dfy`: Python's `int(text)` in base 10 and `str(n)`.
- `services.dfy`: the two delete services and the delete signal handler.
- `scenarios.dfy`: short concrete runs from a fresh Home Assistant instance.

## How collaborators are modelled

- Instants are `int`. `dt_util.parse_datetime` and `isoformat` are function
  parameters (`Storage.Parser`, `Storage.Formatter`). The save/load round trip
  takes as hypothesis that parsing an isoformat string gives the instant back
  (`Storage.ParsesBack`).
- The clock is an explicit `now` parameter.
- The store lives in the field `lastSaved`. Each save task queued with
  `async_create_task` is counted in `pendingSaves`. Queued tasks are modelled
  as deferred: a later step, `RunPendingSave`, runs one and writes the list as
  it is at that moment. A host that starts tasks eagerly is not modelled.
- The timer service is `timers`, live one-shot timers by handle. The handle
  of a timer is what `scheduled_alarm_triggers` stores, and cancelling a
  handle removes the timer. An elapsing timer is the step `TimerElapsed`.
- A fire callback queued for an alarm already due sits in `pendingFires`
  until the event loop runs it (`RunPendingFire`).
- The event bus is the log `events`.
- The entity registry is a map from entity id to the entry's platform,
  config entry id and unique id. The dispatcher is reduced to the list of
  signals sent. The log is reduced to the list of targets a warning was
  written for.

## Behaviour modelled as the code has it

- The registry key `HASS_DATA_ALARM_MANAGER` is one constant, so at most one
  manager exists per Home Assistant instance, whichever entry created it.
  `AlarmManager.New` fails while the slot is taken, and `RemoveEntry` empties
  the slot for any entry.
- An alarm already due gets no timer and no handle. Scheduling queues its
  fire callback with `async_create_task`, which the model defers to a later
  step (`RunPendingFire`) like every queued task.
- With repeated numbers in the loaded list, a later record takes over the
  trigger entry, and the earlier record's timer stays live and still fires
  (`Manager.OwnTimerStaysLive`).
- Load checks neither that numbers are unique nor that they are positive.
  Because Python's `bool` is an `int`, a stored `true` is accepted as number 1.
  The allocation invariant therefore holds after a load only when every
  loaded number is positive (`LoadAlarms`).
- `create_entities_for_loaded_alarms_and_schedule`, not the load itself,
  arms the timers of loaded alarms (`ScheduleLoadedAlarms`).
- Delete by number never deletes anything. The finding below covers it.

## Model

| member | source | states |
|---|---|---|
| `Alarms.Without` | custom_components/wake_up_alarm/alarm_manager.py:476-481 | the records kept are exactly those not numbered n; n leaves the used numbers and no other number does; the list gets shorter iff n was in use, and is unchanged otherwise |
| `Alarms.WithoutAppend` | custom_components/wake_up_alarm/alarm_manager.py:476-481 | the filter distributes over concatenation and keeps a single record iff its number is not n, so the kept records stay in list order |
| `Alarms.WithoutCounts` | custom_components/wake_up_alarm/alarm_manager.py:476-481 | every record not numbered n occurs as often after the filter as before, and a record numbered n not at all |
| `Alarms.WithoutKeepsUnique` | custom_components/wake_up_alarm/alarm_manager.py:476-481 | removing records never makes numbers collide: unique numbers stay unique |
| `Alarms.MaxNumber` | custom_components/wake_up_alarm/alarm_manager.py:291-295 | the maximum is a number in use and bounds every record's number |
| `Alarms.EarliestTime` | custom_components/wake_up_alarm/alarm_manager.py:221-226 | None exactly when there are no alarms; otherwise the time of some alarm that no alarm precedes |
| `Alarms.Find` | custom_components/wake_up_alarm/alarm_manager.py:297-302 | `get_alarm(n)` finds a record exactly when n is in use, and then it is the first record carrying n |
| `Alarms.FreeNumbers` | custom_components/wake_up_alarm/alarm_manager.py:209-219 | k is free exactly when k is positive, unused and below some number in use (so the set is empty without alarms) |
| `Alarms.NextNumber` | custom_components/wake_up_alarm/alarm_manager.py:284-295 | with free numbers, the least free one; without free numbers and without alarms, 1; otherwise one more than a number in use that bounds every number, i.e. max + 1 |
| `Alarms.RecalculatedIsDense` | custom_components/wake_up_alarm/alarm_manager.py:209-219 | over positive numbers, the recalculated free set and the used numbers are disjoint and together are exactly {1..H} for some H |
| `Alarms.NextNumberIsLeastUnused` | custom_components/wake_up_alarm/alarm_manager.py:284-295 | under that invariant `get_next_alarm_number` is the least positive integer not in use |
| `Alarms.AllocatePreservesDense` | custom_components/wake_up_alarm/alarm_manager.py:313-315 | allocating the next number never picks a used one, and adding the record while taking the number out of the free set keeps the invariant |
| `Alarms.DeletePreservesDense` | custom_components/wake_up_alarm/alarm_manager.py:476-487 | deleting n, and freeing n only when a record was removed, keeps the invariant |
| `Alarms.ClearPreservesDense` | custom_components/wake_up_alarm/alarm_manager.py:460-471 | deleting every record, which frees every used number, keeps the invariant |
| `Alarms.LeastUnusedUnique` | custom_components/wake_up_alarm/alarm_manager.py:284-289 | at most one number is the least unused one |
| `Alarms.DistinctCountIsCard` | custom_components/wake_up_alarm/alarm_manager.py:465-467 | the successful deletes over a snapshot number as many as the distinct numbers in it |
| `Alarms.DistinctCountOfUnique` | custom_components/wake_up_alarm/alarm_manager.py:465-467 | with unique numbers every record of the snapshot is a successful delete |
| `Alarms.AppendKeepsUnique` | custom_components/wake_up_alarm/alarm_manager.py:420-429 | appending a record whose number is not in use keeps the numbers unique |
| `Sorting.SortByOrders` | custom_components/wake_up_alarm/alarm_manager.py:274 | `sorted(..., key=...)` orders its result by the key |
| `Sorting.SortByPermutes` | custom_components/wake_up_alarm/alarm_manager.py:274 | the sorted list is a permutation of its input |
| `Sorting.SortByFacts` | custom_components/wake_up_alarm/alarm_manager.py:274 | ordered by the key, a permutation, and of the same length |
| `Sorting.SortByStable` | custom_components/wake_up_alarm/alarm_manager.py:274 | the sort is stable: the records sharing a key keep their relative order |
| `Sorting.SortBySorted` | custom_components/wake_up_alarm/alarm_manager.py:274 | a list already ordered by the key comes back unchanged |
| `Storage.Serialize` | custom_components/wake_up_alarm/alarm_manager.py:527-530 | one stored item `{number, datetime: isoformat}` per record, in list order |
| `Storage.DecodeAllAppend` | custom_components/wake_up_alarm/alarm_manager.py:235-272 | loading handles items independently: the records of a concatenation are the concatenated records |
| `Storage.SkipsRejectedItem` | custom_components/wake_up_alarm/alarm_manager.py:237-256 | a malformed, mistyped or unparsable item is skipped and the items around it load as if it were absent |
| `Storage.DecodeAllLength` | custom_components/wake_up_alarm/alarm_manager.py:234-272 | never more records than items, and as many exactly when every item is accepted |
| `Storage.DecodesToUtc` | custom_components/wake_up_alarm/alarm_manager.py:251-270 | an item with an int number and a parsable string loads as that number with the UTC instant: an aware time converted, a naive time taken as UTC |
| `Storage.DecodeSerialized` | custom_components/wake_up_alarm/alarm_manager.py:522-531 | when parsing inverts isoformat, decoding what a save wrote gives back the records in order |
| `Storage.SaveLoadRoundTrip` | custom_components/wake_up_alarm/alarm_manager.py:228-278 | save then load gives back the same records irrespective of order, and exactly the same list when it was ordered by number |
| `Storage.LoadedFacts` | custom_components/wake_up_alarm/alarm_manager.py:274 | the loaded list is ordered by number, is a permutation of the accepted records, and keeps records with equal numbers in stored order |
| `Storage.LoadedKeepsRecords` | custom_components/wake_up_alarm/alarm_manager.py:268-274 | a record is loaded exactly when its item was accepted |
| `Manager.FutureAndPastDue` | custom_components/wake_up_alarm/alarm_manager.py:392-413 | the numbers armed are exactly those of records still in the future, and the fires queued are exactly those of records already due |
| `Manager.ArmedStep` | custom_components/wake_up_alarm/alarm_manager.py:408-413 | arming one more record under a fresh handle keeps every earlier future record armed with its own number and instant |
| `Manager.RemoveEntry` | custom_components/wake_up_alarm/alarm_manager.py:41-47 | `async_remove_entry` leaves the slot empty whichever entry is removed, and cancels nothing |
| `Manager.AlarmManager.constructor` | custom_components/wake_up_alarm/alarm_manager.py:187-207 | registers itself; starts with no records, no free numbers, no triggers, and the storage key of its entry |
| `Manager.AlarmManager.New` | custom_components/wake_up_alarm/alarm_manager.py:187-207 | fails and changes nothing while the slot holds any manager; otherwise a fresh, registered, empty manager that satisfies the allocation invariant |
| `Manager.AlarmManager.ExecuteDeleteOnInstance` | custom_components/wake_up_alarm/alarm_manager.py:168-181 | `(False, None)` with no manager; otherwise `(True, deleted)`, and the registered manager's whole state is what `delete_alarm(n)` leaves (`AfterDelete`): records, free set, handles, timers and queued saves, with the bus, queued fires, store and handle counter untouched; the invariants are kept |
| `Manager.AfterDeleteTwice` | custom_components/wake_up_alarm/alarm_manager.py:474-510 | a second `delete_alarm` of the same number changes nothing |
| `Manager.AlarmManager.RecalculateFreeAlarmNumbers` | custom_components/wake_up_alarm/alarm_manager.py:209-219 | the free set becomes `{1..max} \ used` (empty with no alarms), disjoint from the used numbers, and the invariant holds when all numbers are positive |
| `Manager.AlarmManager.DecodeStoredItems` | custom_components/wake_up_alarm/alarm_manager.py:234-272 | the load loop accumulates exactly the accepted records, in item order |
| `Manager.AlarmManager.LoadAlarms` | custom_components/wake_up_alarm/alarm_manager.py:228-278 | an absent or empty store changes nothing; otherwise the records are the accepted items sorted by number and the free set is recomputed; the invariant holds when all loaded numbers are positive |
| `Manager.AlarmManager.AddAlarmData` | custom_components/wake_up_alarm/alarm_manager.py:416-439 | a number in use is refused and nothing changes; otherwise exactly one record is appended, the number leaves the free set and one save is queued |
| `Manager.AlarmManager.ScheduleAlarmEventTrigger` | custom_components/wake_up_alarm/alarm_manager.py:392-413 | at or before now: the fire is queued and no handle is stored; later: a timer for the number and instant is armed and its handle stored under the number |
| `Manager.AlarmManager.CreateAlarm` | custom_components/wake_up_alarm/alarm_manager.py:305-344 | adds a record under `get_next_alarm_number` and schedules it; under the invariant it always succeeds, the number is the least unused one and the invariant is kept |
| `Manager.AlarmManager.CancelScheduledAlarmTrigger` | custom_components/wake_up_alarm/alarm_manager.py:442-457 | the handle stored for n is removed and its timer cancelled; with none stored nothing changes, so a second cancel is a no-op |
| `Manager.AlarmManager.DeleteAlarm` | custom_components/wake_up_alarm/alarm_manager.py:474-510 | returns whether n was in use; the new state is `AfterDelete` of the old: every record numbered n is gone and, on success, n is freed, its handle cancelled and one save queued; otherwise nothing changes; the bus, queued fires, store and handle counter are untouched; the allocation invariant and unique numbers are kept |
| `Manager.AlarmManager.DeleteAllAlarms` | custom_components/wake_up_alarm/alarm_manager.py:460-471 | the list ends empty and the count is the number of distinct numbers (its length when numbers are unique, 0 on a second call); every number in use is freed and every handle of a number in use cancelled |
| `Manager.AlarmManager.DeleteAllStep` | custom_components/wake_up_alarm/alarm_manager.py:465-467 | deleting the snapshot's next number succeeds exactly when that number was not deleted earlier in the loop |
| `Manager.AlarmManager.CancelAllScheduledTriggers` | custom_components/wake_up_alarm/alarm_manager.py:513-520 | the handle map ends empty and exactly the timers it named are cancelled |
| `Manager.AlarmManager.SaveAlarmsToStore` | custom_components/wake_up_alarm/alarm_manager.py:522-531 | the store holds every record in list order, replacing its previous content |
| `Manager.AlarmManager.RunPendingSave` | custom_components/wake_up_alarm/alarm_manager.py:438 | a queued save writes the list as it is when the task runs |
| `Manager.AlarmManager.FireAlarmEventCallback` | custom_components/wake_up_alarm/alarm_manager.py:372-390 | one `alarm_triggered` event with entry, number and instant; then the delete by number; then the number's handle is dropped whether or not the delete found a record; unique numbers stay unique |
| `Manager.AlarmManager.RunPendingFire` | custom_components/wake_up_alarm/alarm_manager.py:399-401 | the oldest queued fire runs the callback; with none queued nothing changes; unique numbers stay unique |
| `Manager.AlarmManager.TimerElapsed` | custom_components/wake_up_alarm/alarm_manager.py:408-410 | a live timer whose time has come runs the callback and is no longer live; otherwise nothing changes; unique numbers stay unique |
| `Manager.AlarmManager.ScheduleLoadedAlarms` | custom_components/wake_up_alarm/alarm_manager.py:346-363 | every record already due is queued to fire, in list order; the trigger map, the timers and the next handle become `ArmAll` of their old values over the list; every future number gets a handle, and with unique numbers each has a live timer for its own instant |
| `Manager.ArmAllAppend` | custom_components/wake_up_alarm/alarm_manager.py:352-362 | scheduling a list is scheduling its two halves one after the other |
| `Manager.ArmAllFacts` | custom_components/wake_up_alarm/alarm_manager.py:352-362 | scheduling a list issues exactly one new timer per record not yet due, under consecutive fresh handles; every earlier timer stays live unchanged; each new timer carries a future record's number and instant; the trigger map gains exactly the future numbers and keeps every other entry |
| `Manager.ArmAllArmed` | custom_components/wake_up_alarm/alarm_manager.py:408-413 | with unique numbers, each future record of a scheduled prefix has a trigger whose live timer is for its own number and instant |
| `Manager.OwnTimerStaysLive` | custom_components/wake_up_alarm/alarm_manager.py:408-413 | whether or not numbers repeat, the timer issued for a future record is still live, for its own number and instant, after the whole list is scheduled |
| `PyInt.DigitsValueOfDigits` | custom_components/integration_blueprint/alarm_entity.py:36 | the decimal digits of n form a valid digit part whose value is n |
| `PyInt.ParseToDecimal` | custom_components/wake_up_alarm/__init__.py:111-112 | `int(str(n)) == n` for every integer n |
| `PyInt.ParseUnsigned` | custom_components/wake_up_alarm/__init__.py:112 | `int` of digits with single underscores between them is their decimal value |
| `PyInt.ParseMinus` | custom_components/wake_up_alarm/__init__.py:112 | `int` of a minus sign followed by such digits is the negated value |
| `PyInt.ParsePlus` | custom_components/wake_up_alarm/__init__.py:112 | `int` of a plus sign followed by such digits is the value |
| `PyInt.ParseIntStrips` | custom_components/wake_up_alarm/__init__.py:112 | for any text and any two runs of whitespace, `int` of the text between them equals `int` of the text |
| `PyInt.UnderscoreIgnored` | custom_components/wake_up_alarm/__init__.py:112 | an underscore anywhere among digits adds nothing to the value |
| `PyInt.ParseIntUnderscore` | custom_components/wake_up_alarm/__init__.py:112 | for any two digit parts a and b, `int(a_b)` is accepted and equals `int(ab)` |
| `PyInt.ParseIntRejectsEmpty` | custom_components/wake_up_alarm/__init__.py:110-127 | for any text, whitespace only, or nothing but an optional lone sign once stripped, raises `ValueError` |
| `PyInt.ParseIntRejectsUnderscores` | custom_components/wake_up_alarm/__init__.py:110-127 | for any text, an underscore first or last after the sign, or two underscores in a row, raises `ValueError` |
| `PyInt.ParseIntRejectsSigns` | custom_components/wake_up_alarm/__init__.py:110-127 | for any text, a sign followed by another sign or by whitespace raises `ValueError` |
| `Sensors.SortedTimesFacts` | custom_components/wake_up_alarm/all_alarms_sensor.py:67 | the sorted times are ascending, a permutation of the alarm times, one per alarm |
| `Sensors.SummaryAttributesFacts` | custom_components/wake_up_alarm/all_alarms_sensor.py:59-71 | with no alarms exactly `{alarm_times: [], alarms_count: 0}`; otherwise the rendered ascending times, and the count equals both the list's length and the number of alarms |
| `Sensors.NativeValueIsFirstTime` | custom_components/wake_up_alarm/all_alarms_sensor.py:54-57 | the state is None exactly when there are no alarms, and otherwise the first of the listed times |
| `Sensors.BlueprintAttributesFacts` | custom_components/integration_blueprint/sensor.py:130-144 | with no alarms exactly `{alarm_times: []}`; otherwise the rendered ascending times, as many as the state says |
| `Services.KeepOneLess` | custom_components/wake_up_alarm/__init__.py:115-120 | deleting one more number from the records kept so far keeps the records not named by any delete so far |
| `Services.KeepUnnamedMeaning` | custom_components/wake_up_alarm/__init__.py:82-121 | a record survives the service exactly when no delete named its number |
| `Services.HandleTarget` | custom_components/wake_up_alarm/__init__.py:83-133 | one target: a missing, foreign, entry-less, mis-formatted or unparsable entity causes no signal and leaves the manager unchanged; for an alarm entity the registered manager's state becomes `AfterDelete` of its old state for that number, and one signal carrying the number goes to its entry |
| `Services.FoundStep` | custom_components/wake_up_alarm/__init__.py:115-120 | the next delete finds a record exactly when its number is in use and not deleted before |
| `Services.AfterNoDeletes` | custom_components/wake_up_alarm/__init__.py:77-82 | with no deletes the manager's state is the initial one |
| `Services.AfterDeletesStep` | custom_components/wake_up_alarm/__init__.py:115-120 | one more `delete_alarm` after the deletes so far gives the closed form for one more named number |
| `Services.HandleDeleteAlarmService` | custom_components/wake_up_alarm/__init__.py:77-133 | the signal list is one signal per alarm target in target order, the warnings are every other target in order, and the registered manager's whole state is the closed form of the deletes: the records no target named in order, every number found freed with its handle cancelled and one save queued for it, and nothing else changed; the invariants are kept |
| `Services.ClassifyDelete` | custom_components/wake_up_alarm/__init__.py:85-112 | a target is deleted as (c, n) exactly when it is registered, of this platform, has config entry c, and its unique id is `c_alarm_` followed by text `int` reads as n |
| `Services.AlarmEntityRoundTrip` | custom_components/integration_blueprint/alarm_entity.py:36 | the id an alarm entity is created with, `<entry>_alarm_<n>`, reads back as its entry and number |
| `Services.SummaryIsNotAnAlarm` | custom_components/wake_up_alarm/all_alarms_sensor.py:51 | the summary sensor's own id never matches the alarm format, so the service skips it |
| `Services.DeletesAndSkipped` | custom_components/wake_up_alarm/__init__.py:82-133 | every target is either deleted or warned about, never both |
| `Services.HandleDeleteAlarmByNumberService` | custom_components/wake_up_alarm/__init__.py:142-171 | a warning exactly when there is no config entry; otherwise one signal carrying n per entry, in entry order, and `dispatched_count` is the number of entries |
| `Services.HandleDeleteSignal` | custom_components/wake_up_alarm/alarm_manager.py:122-125 | the delete signal handler as written only shows the summary from the current records, and changes no manager |
| `Services.DeleteSignalNameInjective` | custom_components/wake_up_alarm/__init__.py:162 | two signal names are equal exactly when their entries are |
| `Services.HandleDeleteSignalAsIntended` | custom_components/wake_up_alarm/alarm_manager.py:133-139 | the corrected handler: when the signal is for its own entry the registered manager's state becomes `AfterDelete` of its old state for the signalled number, and otherwise it is unchanged; the invariants are kept |
| `Services.DeleteAlarmByNumberAsIntended` | custom_components/wake_up_alarm/__init__.py:145-171 | delete by number with the corrected handler: the registered manager's state becomes `AfterDelete` of its old state for n exactly when its entry is among the config entries, and otherwise it is unchanged; the invariants are kept |
| `Scenarios.ReusesFreedNumber` | custom_components/wake_up_alarm/alarm_manager.py:284-295 | after creating 1, 2, 3 and deleting 2 the next alarm is numbered 2, and a second manager cannot be registered |
| `Scenarios.DeleteByNumberAsWritten` | custom_components/wake_up_alarm/__init__.py:142-171 | delete by number of alarm 1 sends one signal and alarm 1 is still there |
| `Scenarios.DeleteByNumberCorrected` | custom_components/wake_up_alarm/__init__.py:142-171 | with the corrected handler the same call removes alarm 1 |
| `Scenarios.PastDueFiresOnce` | custom_components/wake_up_alarm/alarm_manager.py:372-401 | an alarm created at or before now gets no timer; running the queued fire emits its event once and removes the record, and a second run emits nothing |

The getters have no rows of their own: `GetInstance` returns the manager in
the `hass.data` slot, and `NextAlarmTime`, `AllAlarmsData`, `GetAlarm` and
`NextAlarmNumber` return `EarliestTime`, the list itself, `Find` and
`NextNumber` of the current state, whose rows above state their meaning.

## Findings

| source | as written | input that shows it | evidently intended | confidence | as-written member | corrected member |
|---|---|---|---|---|---|---|
| custom_components/wake_up_alarm/alarm_manager.py:122-125 | the delete signal handler only rewrites the summary sensor's state, so the delete-by-number service (custom_components/wake_up_alarm/__init__.py:142-171), which only sends that signal, deletes nothing | one entry `entry` with alarm 1; call delete by number with `alarm_number` 1 | the handler deletes the signalled alarm number from the entry's manager, as the service's docstring and its closing comment say | high; not executed | `Scenarios.DeleteByNumberAsWritten` | `Services.DeleteAlarmByNumberAsIntended` |

## Left out

- `execute_on_instance` (the synchronous variant): the core never calls it. `ExecuteDeleteOnInstance` is the asynchronous variant specialised to the one callable the core passes it, `delete_alarm`.
- Entity objects are left out: creating `AlarmEntity`s, `async_add_entities`, and removing an alarm's entity and its registry entry inside `delete_alarm`. These are Home Assistant plumbing with no effect on the manager's state.
- Platform setup is left out: dispatcher connections, service registration and schemas, `config_flow.py`, logging, and the add-alarm signal handler.
- The intents are left out. The set and get intents are local-time speech formatting, and the delete intents call `delete_alarm` and `delete_all_alarms`.
- Timezones are left out. Instants are UTC integers, so `astimezone(UTC)` in `add_alarm_data` is the identity, and `parse_datetime` and `isoformat` are parameters.
- `Manager.Event`: the `alarm_datetime` of the triggered event is the instant itself, not its `isoformat()` string.
- Async ordering is left out. Each queued task runs as an explicit step. The model does not say which queued task the event loop runs first, only what each does when it runs.
- `Storage.ParsesBack` is a hypothesis about foreign date-time code, not a proof. The round trip holds only under it.
- `PyInt.ParseInt`: only ASCII whitespace and ASCII digits are modelled. Python's `int` also accepts other Unicode whitespace and Unicode decimal digits.
- `PyInt.ParseToDecimal`: since Python 3.11, `int` and `str` raise `ValueError` past 4300 decimal digits; the model accepts any length. Alarm numbers never come near that limit.
- `Manager.AlarmManager.LoadAlarms`: a stored `true`/`false` number loads as 1/0. The source's record keeps the `bool` itself, so a later save writes `true`/`false` back; the model's record keeps only the integer, so its save writes 1/0.
- `Services.HandleDeleteAlarmByNumberService`: the schema's `positive_int` check on `alarm_number` is service plumbing and is not a precondition here.
