/** The alarm records an `AlarmManager` keeps, and the number-allocation rules
    of `custom_components/wake_up_alarm/alarm_manager.py`, as functions of the
    record list and the free-number set. */
module Alarms {
  import opened Wrappers

  /** One alarm: its number and the UTC instant it fires at. Instants are
      integers (ticks of an abstract UTC clock). */
  datatype Alarm = Alarm(number: int, fireAt: int)

  /** The numbers in use. */
  function Numbers(s: seq<Alarm>): set<int>
  {
    set a | a in s :: a.number
  }

  predicate UniqueNumbers(s: seq<Alarm>)
  {
    forall i, j :: 0 <= i < j < |s| ==> s[i].number != s[j].number
  }

  lemma NumbersCons(s: seq<Alarm>)
    requires s != []
    ensures Numbers(s) == {s[0].number} + Numbers(s[1..])
  {
    assert forall a :: a in s <==> a == s[0] || a in s[1..];
  }

  lemma NoNumbersIsEmpty(s: seq<Alarm>)
    ensures Numbers(s) == {} <==> s == []
  {
    if s != [] { assert s[0].number in Numbers(s); }
  }

  lemma NumbersAppend(s: seq<Alarm>, x: Alarm)
    ensures Numbers(s + [x]) == Numbers(s) + {x.number}
  {
    assert forall a :: a in s + [x] <==> a in s || a == x;
  }

  /** The list comprehension that keeps the records not numbered `n`. The
      other records keep their order and multiplicity (`WithoutAppend`,
      `WithoutCounts`) and unique numbers stay unique (`WithoutKeepsUnique`). */
  function Without(s: seq<Alarm>, n: int): (r: seq<Alarm>)
    ensures forall a :: a in r <==> a in s && a.number != n
    ensures Numbers(r) == Numbers(s) - {n}
    ensures |r| < |s| <==> n in Numbers(s)
    ensures n !in Numbers(s) ==> r == s
  {
    if s == [] then []
    else
      NumbersCons(s);
      var rest := Without(s[1..], n);
      if s[0].number != n then
        NumbersCons([s[0]] + rest);
        assert ([s[0]] + rest)[1..] == rest;
        assert s == [s[0]] + s[1..];
        [s[0]] + rest
      else
        rest
  }

  /** Filtering distributes over concatenation, so the kept records stay in
      their order; with the one-record case this determines `Without`. */
  lemma {:induction false} WithoutAppend(s: seq<Alarm>, t: seq<Alarm>, n: int)
    ensures Without(s + t, n) == Without(s, n) + Without(t, n)
    ensures Without([], n) == [] && forall a :: Without([a], n) == if a.number == n then [] else [a]
  {
    forall a ensures Without([a], n) == if a.number == n then [] else [a] {
      assert [a][1..] == [];
    }
    if s != [] {
      var u := s + t;
      assert u[0] == s[0] && u[1..] == s[1..] + t;
      WithoutAppend(s[1..], t, n);
    } else {
      assert s + t == t;
    }
  }

  /** Each record not numbered `n` is kept as often as it occurs. */
  lemma {:induction false} WithoutCounts(s: seq<Alarm>, n: int)
    ensures forall a :: multiset(Without(s, n))[a] == if a.number == n then 0 else multiset(s)[a]
  {
    if s != [] {
      WithoutCounts(s[1..], n);
      assert s == [s[0]] + s[1..];
      assert multiset(s) == multiset{s[0]} + multiset(s[1..]);
      if s[0].number != n {
        var rest := Without(s[1..], n);
        assert multiset([s[0]] + rest) == multiset{s[0]} + multiset(rest);
      }
    }
  }

  /** Removing records keeps the numbers unique. */
  lemma {:induction false} WithoutKeepsUnique(s: seq<Alarm>, n: int)
    requires UniqueNumbers(s)
    ensures UniqueNumbers(Without(s, n))
  {
    if s != [] {
      UniqueHead(s);
      WithoutKeepsUnique(s[1..], n);
      if s[0].number != n {
        ConsUnique(s[0], Without(s[1..], n));
      }
    }
  }

  lemma UniqueHead(s: seq<Alarm>)
    requires s != [] && UniqueNumbers(s)
    ensures UniqueNumbers(s[1..]) && s[0].number !in Numbers(s[1..])
  {
    forall a | a in s[1..] ensures a.number != s[0].number {
      var i :| 0 <= i < |s[1..]| && s[1..][i] == a;
      assert s[i + 1] == a;
    }
  }

  lemma ConsUnique(x: Alarm, r: seq<Alarm>)
    requires UniqueNumbers(r) && x.number !in Numbers(r)
    ensures UniqueNumbers([x] + r)
  {
    var u := [x] + r;
    forall i, j | 0 <= i < j < |u| ensures u[i].number != u[j].number {
      assert u[j] == r[j - 1] && r[j - 1] in r;
      if i > 0 { assert u[i] == r[i - 1]; }
    }
  }

  /** `max(alarm["number"] for alarm in alarms)`. */
  function MaxNumber(s: seq<Alarm>): (r: int)
    requires s != []
    ensures r in Numbers(s)
    ensures forall a :: a in s ==> a.number <= r
  {
    if |s| == 1 then s[0].number
    else
      NumbersCons(s);
      var m := MaxNumber(s[1..]);
      if s[0].number >= m then s[0].number else m
  }

  /** `min(alarm["datetime_obj"] for alarm in alarms)`, or None for no alarms. */
  function EarliestTime(s: seq<Alarm>): (r: Option<int>)
    ensures r == None <==> s == []
    ensures r.Some? ==> (exists a :: a in s && a.fireAt == r.value)
                        && forall a :: a in s ==> r.value <= a.fireAt
  {
    if s == [] then None
    else
      var rest := EarliestTime(s[1..]);
      assert forall a :: a in s <==> a == s[0] || a in s[1..];
      if rest == None || s[0].fireAt <= rest.value then Some(s[0].fireAt) else rest
  }

  /** The first record numbered `n`, as the `get_alarm` loop finds it. */
  function Find(s: seq<Alarm>, n: int): (r: Option<Alarm>)
    ensures r.Some? <==> n in Numbers(s)
    ensures r.Some? ==> exists i :: 0 <= i < |s| && s[i] == r.value && r.value.number == n
                                    && forall j :: 0 <= j < i ==> s[j].number != n
  {
    if s == [] then None
    else
      NumbersCons(s);
      if s[0].number == n then Some(s[0])
      else
        var r := Find(s[1..], n);
        FirstInTail(s, n, r);
        r
  }

  lemma FirstInTail(s: seq<Alarm>, n: int, r: Option<Alarm>)
    requires s != [] && s[0].number != n
    requires r.Some? ==> exists i :: 0 <= i < |s[1..]| && s[1..][i] == r.value && r.value.number == n
                                     && forall j :: 0 <= j < i ==> s[1..][j].number != n
    ensures r.Some? ==> exists i :: 0 <= i < |s| && s[i] == r.value && r.value.number == n
                                    && forall j :: 0 <= j < i ==> s[j].number != n
  {
    if r.Some? {
      var i :| 0 <= i < |s[1..]| && s[1..][i] == r.value && r.value.number == n
               && forall j :: 0 <= j < i ==> s[1..][j].number != n;
      assert s[i + 1] == r.value;
      forall j | 0 <= j < i + 1 ensures s[j].number != n {
        if j > 0 { assert s[j] == s[1..][j - 1]; }
      }
    }
  }

  /** The set {1..n}, empty when n < 1. */
  function Range(n: int): (r: set<int>)
    ensures forall k :: k in r <==> 1 <= k <= n
    decreases n
  {
    if n < 1 then {} else Range(n - 1) + {n}
  }

  /** `recalculate_free_alarm_numbers`: the set {1..max(used)} minus the used
      numbers, or the empty set when there are no alarms. Equivalently: the
      positive numbers not in use that lie below some number in use. */
  function FreeNumbers(s: seq<Alarm>): (r: set<int>)
    ensures forall k :: k in r <==> 0 < k && k !in Numbers(s) && exists a :: a in s && k < a.number
  {
    if s == [] then {}
    else
      var m := MaxNumber(s);
      var r := set k | 1 <= k <= m && k !in Numbers(s);
      assert forall k :: k in r ==> exists a :: a in s && k < a.number by {
        forall k | k in r ensures exists a :: a in s && k < a.number {
          var a :| a in s && a.number == m;
        }
      }
      r
  }

  function Least(s: set<int>): (r: int)
    requires s != {}
    ensures r in s && forall k :: k in s ==> r <= k
  {
    LeastExists(s);
    var r :| r in s && forall k :: k in s ==> r <= k; r
  }

  lemma LeastExists(s: set<int>)
    requires s != {}
    ensures exists r :: r in s && forall k :: k in s ==> r <= k
  {
    if forall k :: k !in s { assert false; }
    var x :| x in s;
    if s != {x} {
      LeastExists(s - {x});
      var y :| y in s - {x} && forall k :: k in s - {x} ==> y <= k;
      var r := if x <= y then x else y;
      forall k | k in s ensures r <= k {
        if k != x { assert k in s - {x}; }
      }
    }
  }

  /** `get_next_alarm_number`: the smallest free number if there is one,
      otherwise one above the highest number in use, otherwise 1. */
  function NextNumber(s: seq<Alarm>, free: set<int>): (r: int)
    ensures free != {} ==> r in free && forall k :: k in free ==> r <= k
    ensures free == {} ==> r !in Numbers(s) && forall a :: a in s ==> a.number < r
    ensures free == {} && s == [] ==> r == 1
    ensures free == {} && s != [] ==> r - 1 in Numbers(s)
  {
    if free != {} then Least(free)
    else if s == [] then 1
    else MaxNumber(s) + 1
  }

  ghost predicate LeastUnused(n: int, used: set<int>)
  {
    n >= 1 && n !in used && forall k :: 1 <= k < n ==> k in used
  }

  /** At most one number is the least unused one. */
  lemma LeastUnusedUnique(n: int, m: int, used: set<int>)
    requires LeastUnused(n, used) && LeastUnused(m, used)
    ensures n == m
  {
  }

  /** The allocation invariant: the free set and the used numbers are disjoint
      and together fill {1..H} exactly, for some H. */
  ghost predicate Dense(s: seq<Alarm>, free: set<int>)
  {
    free !! Numbers(s) && exists h: nat :: free + Numbers(s) == Range(h)
  }

  /** After a recalculation over positive numbers the invariant holds. */
  lemma RecalculatedIsDense(s: seq<Alarm>)
    requires forall a :: a in s ==> a.number >= 1
    ensures Dense(s, FreeNumbers(s))
  {
    var free, used := FreeNumbers(s), Numbers(s);
    if s == [] {
      assert free + used == {} == Range(0);
    } else {
      var m := MaxNumber(s);
      assert free + used == Range(m) by {
        forall k ensures k in free + used <==> k in Range(m) {
          if k in used {
            var a :| a in s && a.number == k;
          }
          if k in Range(m) && k !in used {
            var a :| a in s && a.number == m;
          }
        }
      }
    }
  }

  /** Under the invariant, `get_next_alarm_number` is the least positive
      integer not in use. */
  lemma NextNumberIsLeastUnused(s: seq<Alarm>, free: set<int>)
    requires Dense(s, free)
    ensures LeastUnused(NextNumber(s, free), Numbers(s))
  {
    var used := Numbers(s);
    var h: nat :| free + used == Range(h);
    var n := NextNumber(s, free);
    assert forall k :: k in free + used <==> 1 <= k <= h;
    if free == {} && s != [] {
      assert used == Range(h);
      assert h >= 1 by { var a := s[0]; assert a.number in used; }
      assert h in used;
      var a :| a in s && a.number == h;
      assert n == h + 1;
    }
  }

  /** Allocating `get_next_alarm_number` keeps the invariant and never picks a
      number in use. */
  lemma AllocatePreservesDense(s: seq<Alarm>, free: set<int>, at: int)
    requires Dense(s, free)
    ensures NextNumber(s, free) !in Numbers(s)
    ensures Dense(s + [Alarm(NextNumber(s, free), at)], free - {NextNumber(s, free)})
  {
    var used := Numbers(s);
    var h: nat :| free + used == Range(h);
    var n := NextNumber(s, free);
    NextNumberIsLeastUnused(s, free);
    NumbersAppend(s, Alarm(n, at));
    var used' := used + {n};
    if free != {} {
      assert (free - {n}) + used' == free + used;
    } else {
      assert forall k :: k in used <==> 1 <= k <= h;
      assert n == h + 1 by {
        if s == [] {
          assert h == 0;
        } else {
          assert h in used by { assert s[0].number in used; }
          var a :| a in s && a.number == h;
        }
      }
      assert free - {n} == {} && used == Range(h);
      assert Range(h + 1) == Range(h) + {h + 1};
    }
  }

  /** Deleting by number keeps the invariant when a successful delete returns
      the number to the free set. */
  lemma DeletePreservesDense(s: seq<Alarm>, free: set<int>, n: int)
    requires Dense(s, free)
    ensures Dense(Without(s, n), if n in Numbers(s) then free + {n} else free)
  {
    var h: nat :| free + Numbers(s) == Range(h);
    if n in Numbers(s) {
      assert (free + {n}) + (Numbers(s) - {n}) == Range(h);
    }
  }

  /** How many distinct numbers `s` holds: each number counts once, at its
      first occurrence. */
  function DistinctCount(s: seq<Alarm>): nat
  {
    if s == [] then 0
    else
      var init, last := s[..|s| - 1], s[|s| - 1];
      DistinctCount(init) + if last.number in Numbers(init) then 0 else 1
  }

  /** Extending a prefix by one record. */
  lemma NumbersOfPrefix(s: seq<Alarm>, i: int)
    requires 0 <= i < |s|
    ensures Numbers(s[..i + 1]) == Numbers(s[..i]) + {s[i].number}
    ensures DistinctCount(s[..i + 1])
         == DistinctCount(s[..i]) + if s[i].number in Numbers(s[..i]) then 0 else 1
    ensures s[i].number in Numbers(s)
  {
    assert s[..i + 1] == s[..i] + [s[i]];
    assert s[..i + 1][..i] == s[..i];
    NumbersAppend(s[..i], s[i]);
    assert s[i] in s;
  }

  /** The distinct count is the number of numbers in use. */
  lemma {:induction false} DistinctCountIsCard(s: seq<Alarm>)
    ensures DistinctCount(s) == |Numbers(s)|
  {
    if s != [] {
      var init, last := s[..|s| - 1], s[|s| - 1];
      assert s == init + [last];
      NumbersAppend(init, last);
      DistinctCountIsCard(init);
      if last.number in Numbers(init) {
        assert Numbers(init) + {last.number} == Numbers(init);
      }
    }
  }

  /** Deleting every record returns all numbers in use to the free set and
      keeps the invariant. */
  lemma ClearPreservesDense(s: seq<Alarm>, free: set<int>)
    requires Dense(s, free)
    ensures Dense([], free + Numbers(s))
  {
    var h: nat :| free + Numbers(s) == Range(h);
    assert Numbers([]) == {};
    assert (free + Numbers(s)) + {} == Range(h);
  }

  /** With unique numbers every record counts. */
  lemma {:induction false} DistinctCountOfUnique(s: seq<Alarm>)
    requires UniqueNumbers(s)
    ensures DistinctCount(s) == |s|
  {
    if s != [] {
      var init, last := s[..|s| - 1], s[|s| - 1];
      assert s == init + [last];
      DistinctCountOfUnique(init);
      assert last.number !in Numbers(init) by {
        forall a | a in init ensures a.number != last.number {
          var i :| 0 <= i < |init| && init[i] == a;
        }
      }
    }
  }

  /** Adding a number not in use keeps the numbers unique. */
  lemma AppendKeepsUnique(s: seq<Alarm>, x: Alarm)
    requires UniqueNumbers(s) && x.number !in Numbers(s)
    ensures UniqueNumbers(s + [x])
  {
    forall i | 0 <= i < |s| ensures s[i].number != x.number {
      assert s[i] in s;
    }
  }
}
