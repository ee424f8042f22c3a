/** What `async_load_alarms` accepts from the store and what
    `_async_save_alarms_to_store` writes to it
    (`custom_components/wake_up_alarm/alarm_manager.py`). The store itself,
    `dt_util.parse_datetime` and `datetime.isoformat` are foreign code: the
    parser and the formatter are parameters. */
module Storage {
  import opened Wrappers
  import opened Alarms
  import opened Sorting

  /** A JSON value read back from the store, reduced to what loading inspects. */
  datatype RawValue = IntValue(i: int) | BoolValue(b: bool) | StrValue(s: string) | OtherValue

  /** One stored item: a JSON object, or anything else (a list, a string, a number). */
  datatype RawItem = Dict(fields: map<string, RawValue>) | NotDict

  /** What `dt_util.parse_datetime` returns for a string it understands: an
      offset-aware instant (already converted to UTC) or a naive wall-clock time. */
  datatype ParsedTime = Aware(utc: int) | Naive(wall: int)

  type Parser = string -> Option<ParsedTime>
  type Formatter = int -> string

  /** `as_utc` for an aware time; `replace(tzinfo=UTC)` for a naive one. */
  function ToUtc(p: ParsedTime): int
  {
    match p
    case Aware(u) => u
    case Naive(w) => w
  }

  /** `isinstance(v, int)`: Python's `bool` is a subclass of `int`, so a stored
      `true` or `false` passes the check and behaves as 1 or 0. */
  function AsInt(v: RawValue): Option<int>
  {
    match v
    case IntValue(i) => Some(i)
    case BoolValue(b) => Some(if b then 1 else 0)
    case _ => None
  }

  /** The checks of one iteration of the load loop: both keys present, an
      integer number, a string time that parses; otherwise the item is skipped. */
  function DecodeItem(item: RawItem, parse: Parser): Option<Alarm>
  {
    if !item.Dict? || "number" !in item.fields || "datetime" !in item.fields then None
    else
      var num, dt := AsInt(item.fields["number"]), item.fields["datetime"];
      if num.None? || !dt.StrValue? then None
      else
        match parse(dt.s)
        case None => None
        case Some(p) => Some(Alarm(num.value, ToUtc(p)))
  }

  /** The records the load loop accumulates, in item order. */
  function DecodeAll(items: seq<RawItem>, parse: Parser): seq<Alarm>
  {
    if items == [] then []
    else
      var last := items[|items| - 1];
      DecodeAll(items[..|items| - 1], parse)
        + match DecodeItem(last, parse) case None => [] case Some(a) => [a]
  }

  function ByNumber(a: Alarm): int { a.number }

  /** `sorted(loaded_alarms, key=lambda x: x["number"])`. */
  function Loaded(items: seq<RawItem>, parse: Parser): seq<Alarm>
  {
    SortBy(DecodeAll(items, parse), ByNumber)
  }

  /** The stored form of one record: `{"number": n, "datetime": isoformat}`. */
  function StoredForm(a: Alarm, format: Formatter): RawItem
  {
    Dict(map["number" := IntValue(a.number), "datetime" := StrValue(format(a.fireAt))])
  }

  /** The list written by a save: one stored item per record, in list order. */
  function Serialize(s: seq<Alarm>, format: Formatter): (r: seq<RawItem>)
    ensures |r| == |s|
    ensures forall i :: 0 <= i < |s| ==> r[i] == StoredForm(s[i], format)
  {
    seq(|s|, i requires 0 <= i < |s| => StoredForm(s[i], format))
  }

  /** Loading handles items one at a time: the result over a concatenation is
      the concatenation of the results. */
  lemma {:induction false} DecodeAllAppend(a: seq<RawItem>, b: seq<RawItem>, parse: Parser)
    ensures DecodeAll(a + b, parse) == DecodeAll(a, parse) + DecodeAll(b, parse)
    decreases |b|
  {
    if b == [] {
      assert a + b == a;
    } else {
      var b' := b[..|b| - 1];
      assert (a + b)[..|a + b| - 1] == a + b';
      assert (a + b)[|a + b| - 1] == b[|b| - 1];
      DecodeAllAppend(a, b', parse);
    }
  }

  lemma DecodeAllSnoc(items: seq<RawItem>, x: RawItem, parse: Parser)
    ensures DecodeAll(items + [x], parse)
         == DecodeAll(items, parse) + match DecodeItem(x, parse) case None => [] case Some(a) => [a]
  {
    assert (items + [x])[..|items|] == items;
  }

  /** A malformed, mistyped or unparsable item is skipped without affecting the
      items around it. */
  lemma SkipsRejectedItem(a: seq<RawItem>, bad: RawItem, b: seq<RawItem>, parse: Parser)
    requires DecodeItem(bad, parse) == None
    ensures DecodeAll(a + [bad] + b, parse) == DecodeAll(a + b, parse)
  {
    DecodeAllAppend(a + [bad], b, parse);
    DecodeAllAppend(a, b, parse);
    assert (a + [bad])[..|a + [bad]| - 1] == a;
  }

  /** The decoded records are exactly those of the accepted items: there are
      never more records than items, and each item contributes at most one. */
  lemma {:induction false} DecodeAllLength(items: seq<RawItem>, parse: Parser)
    ensures |DecodeAll(items, parse)| <= |items|
    ensures |DecodeAll(items, parse)| == |items| <==>
              forall i :: 0 <= i < |items| ==> DecodeItem(items[i], parse).Some?
  {
    if items != [] {
      var init := items[..|items| - 1];
      DecodeAllLength(init, parse);
      assert forall i :: 0 <= i < |init| ==> init[i] == items[i];
    }
  }

  /** A naive stored time is taken as UTC and an aware one is converted. */
  lemma DecodesToUtc(n: int, text: string, parse: Parser)
    requires parse(text).Some?
    ensures DecodeItem(Dict(map["number" := IntValue(n), "datetime" := StrValue(text)]), parse)
         == Some(Alarm(n, match parse(text).value case Aware(u) => u case Naive(w) => w))
  {
  }

  /** Parsing an isoformat string gives back the same UTC instant. This is a
      property of the foreign date-time code, taken as a hypothesis. */
  ghost predicate ParsesBack(parse: Parser, format: Formatter)
  {
    forall t :: parse(format(t)).Some? && ToUtc(parse(format(t)).value) == t
  }

  /** Decoding a saved list gives back the records, in order. */
  lemma {:induction false} DecodeSerialized(s: seq<Alarm>, format: Formatter, parse: Parser)
    requires ParsesBack(parse, format)
    ensures DecodeAll(Serialize(s, format), parse) == s
  {
    if s != [] {
      var init := s[..|s| - 1];
      assert Serialize(s, format)[..|s| - 1] == Serialize(init, format);
      DecodeSerialized(init, format, parse);
      var last := s[|s| - 1];
      assert parse(format(last.fireAt)).Some?;
      assert s == init + [last];
    }
  }

  /** Save then load: the same records (numbers and UTC instants) come back,
      irrespective of order, and in the same order when the list was already
      sorted by number. */
  lemma SaveLoadRoundTrip(s: seq<Alarm>, format: Formatter, parse: Parser)
    requires ParsesBack(parse, format)
    ensures multiset(Loaded(Serialize(s, format), parse)) == multiset(s)
    ensures SortedBy(s, ByNumber) ==> Loaded(Serialize(s, format), parse) == s
  {
    DecodeSerialized(s, format, parse);
    SortByFacts(s, ByNumber);
    if SortedBy(s, ByNumber) { SortBySorted(s, ByNumber); }
  }

  /** The loaded list is ordered by number, holds every accepted record, and
      keeps records with equal numbers in their stored order. */
  lemma LoadedFacts(items: seq<RawItem>, parse: Parser, k: int)
    ensures SortedBy(Loaded(items, parse), ByNumber)
    ensures multiset(Loaded(items, parse)) == multiset(DecodeAll(items, parse))
    ensures WithKey(Loaded(items, parse), ByNumber, k) == WithKey(DecodeAll(items, parse), ByNumber, k)
  {
    SortByFacts(DecodeAll(items, parse), ByNumber);
    SortByStable(DecodeAll(items, parse), ByNumber, k);
  }

  /** Sorting neither adds nor drops a record. */
  lemma LoadedKeepsRecords(items: seq<RawItem>, parse: Parser)
    ensures forall a :: a in Loaded(items, parse) <==> a in DecodeAll(items, parse)
  {
    var d := DecodeAll(items, parse);
    SortByFacts(d, ByNumber);
    forall a ensures a in Loaded(items, parse) <==> a in d {
      assert a in Loaded(items, parse) <==> a in multiset(Loaded(items, parse));
      assert a in d <==> a in multiset(d);
    }
  }
}
