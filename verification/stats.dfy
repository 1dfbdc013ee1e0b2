/**
  `StatCollector` (src/stats.py): increment-only counters in Redis hashes.
  For each action (`sent`, `delivered`) four hashes are kept: lifetime
  counts and sizes keyed by media type name, and per-day counts and sizes
  keyed by `"{YYYY-MM-DD}_{type}"`.  Redis is a map from hash key to a map
  from field to value; sizes are whole thousandths of a megabyte, the
  precision `round(..., 3)` keeps.  Today's date is a parameter.
*/
module Stats {
  import opened Maybe
  import opened MediaTypes
  import opened Calendar

  datatype Action = Sent | Delivered

  /** The four hashes per action. */
  datatype Table = Total | TotalSize | ByDate | ByDateSize

  /** The `db_suffix` argument. */
  function ActionName(a: Action): string {
    match a
    case Sent => "sent"
    case Delivered => "delivered"
  }

  function TableName(t: Table): string {
    match t
    case Total => "total"
    case TotalSize => "total_size"
    case ByDate => "date"
    case ByDateSize => "date_size"
  }

  /** `f"{self._db_prefix}_{table}_{db_suffix}"` */
  function KeyName(prefix: string, t: Table, a: Action): string {
    prefix + "_" + TableName(t) + "_" + ActionName(a)
  }

  /** The eight hash keys of one collector are pairwise distinct. */
  lemma KeyNameInjective(prefix: string, t1: Table, a1: Action, t2: Table, a2: Action)
    requires KeyName(prefix, t1, a1) == KeyName(prefix, t2, a2)
    ensures t1 == t2 && a1 == a2
  {
    var n := |prefix| + 1;
    assert KeyName(prefix, t1, a1)[n..] == TableName(t1) + "_" + ActionName(a1);
    assert KeyName(prefix, t2, a2)[n..] == TableName(t2) + "_" + ActionName(a2);
    SuffixInjective(t1, a1, t2, a2);
  }

  lemma SuffixInjective(t1: Table, a1: Action, t2: Table, a2: Action)
    requires TableName(t1) + "_" + ActionName(a1) == TableName(t2) + "_" + ActionName(a2)
    ensures t1 == t2 && a1 == a2
  {
    var s := TableName(t1) + "_" + ActionName(a1);
    // the last letter tells the action apart, the length then tells the table apart
    assert s[|s| - 1] == ActionName(a1)[|ActionName(a1)| - 1];
    assert s[|s| - 1] == ActionName(a2)[|ActionName(a2)| - 1];
  }

  /** `"{day}_{type}"`: the field of the per-day hashes. */
  function DayField(day: Date, t: MediaType): (f: string)
    requires ValidDate(day)
  {
    IsoDate(day) + "_" + TypeName(t)
  }

  /** Distinct (day, type) pairs have distinct per-day fields. */
  lemma DayFieldInjective(d1: Date, t1: MediaType, d2: Date, t2: MediaType)
    requires ValidDate(d1) && ValidDate(d2)
    requires DayField(d1, t1) == DayField(d2, t2)
    ensures d1 == d2 && t1 == t2
  {
    var f1, f2 := DayField(d1, t1), DayField(d2, t2);
    assert f1[..10] == IsoDate(d1) && f2[..10] == IsoDate(d2);
    assert f1[11..] == TypeName(t1) && f2[11..] == TypeName(t2);
    IsoDateInjective(d1, d2);
    TypeNameInjective(t1, t2);
  }

  /** Redis: hash key -> field -> value. */
  type Db = map<string, map<string, int>>

  /** `_get_val_if_exists`: a missing hash or field reads as 0. */
  function GetVal(db: Db, key: string, field: string): (v: int)
    ensures key !in db || field !in db[key] ==> v == 0
  {
    if key in db && field in db[key] then db[key][field] else 0
  }

  /**
    `increment_hash_value`: a missing field is first set to 0, then
    `hincrbyfloat` adds `amount`.  Only that one field changes.
  */
  function Increment(db: Db, key: string, field: string, amount: int): (r: Db)
    ensures GetVal(r, key, field) == GetVal(db, key, field) + amount
    ensures key in r && field in r[key]
    ensures key !in db || field !in db[key] ==> r[key][field] == amount
    ensures forall k, f :: k != key || f != field ==> GetVal(r, k, f) == GetVal(db, k, f)
    ensures r.Keys == db.Keys + {key}
  {
    var hash := if key in db then db[key] else map[];
    db[key := hash[field := GetVal(db, key, field) + amount]]
  }

  /** A recorded event: which counters it touches. */
  datatype Event = Event(mediaType: MediaType, day: Date, size: nat, action: Action)

  /** The four `(hash key, field)` pairs one event increments, with their amounts. */
  predicate Touches(prefix: string, e: Event, key: string, field: string)
    requires ValidDate(e.day)
  {
    || (key == KeyName(prefix, Total, e.action) && field == TypeName(e.mediaType))
    || (key == KeyName(prefix, TotalSize, e.action) && field == TypeName(e.mediaType))
    || (key == KeyName(prefix, ByDate, e.action) && field == DayField(e.day, e.mediaType))
    || (key == KeyName(prefix, ByDateSize, e.action) && field == DayField(e.day, e.mediaType))
  }

  /**
    The four increments of `_record_media_stats` for an event whose media
    type is already known: one to the lifetime and the day count, the size
    to the lifetime and the day size.  No other counter changes.
  */
  function RecordEvent(db: Db, prefix: string, e: Event): (r: Db)
    requires ValidDate(e.day)
    ensures GetVal(r, KeyName(prefix, Total, e.action), TypeName(e.mediaType))
            == GetVal(db, KeyName(prefix, Total, e.action), TypeName(e.mediaType)) + 1
    ensures GetVal(r, KeyName(prefix, TotalSize, e.action), TypeName(e.mediaType))
            == GetVal(db, KeyName(prefix, TotalSize, e.action), TypeName(e.mediaType)) + e.size
    ensures GetVal(r, KeyName(prefix, ByDate, e.action), DayField(e.day, e.mediaType))
            == GetVal(db, KeyName(prefix, ByDate, e.action), DayField(e.day, e.mediaType)) + 1
    ensures GetVal(r, KeyName(prefix, ByDateSize, e.action), DayField(e.day, e.mediaType))
            == GetVal(db, KeyName(prefix, ByDateSize, e.action), DayField(e.day, e.mediaType)) + e.size
    ensures forall k, f :: !Touches(prefix, e, k, f) ==> GetVal(r, k, f) == GetVal(db, k, f)
    ensures forall k, f :: GetVal(db, k, f) <= GetVal(r, k, f)
  {
    var name, dayField := TypeName(e.mediaType), DayField(e.day, e.mediaType);
    KeysDistinct(prefix, e.action);
    var db1 := Increment(db, KeyName(prefix, Total, e.action), name, 1);
    var db2 := Increment(db1, KeyName(prefix, TotalSize, e.action), name, e.size);
    var db3 := Increment(db2, KeyName(prefix, ByDate, e.action), dayField, 1);
    Increment(db3, KeyName(prefix, ByDateSize, e.action), dayField, e.size)
  }

  lemma KeysDistinct(prefix: string, a: Action)
    ensures KeyName(prefix, Total, a) != KeyName(prefix, TotalSize, a)
    ensures KeyName(prefix, Total, a) != KeyName(prefix, ByDate, a)
    ensures KeyName(prefix, Total, a) != KeyName(prefix, ByDateSize, a)
    ensures KeyName(prefix, TotalSize, a) != KeyName(prefix, ByDate, a)
    ensures KeyName(prefix, TotalSize, a) != KeyName(prefix, ByDateSize, a)
    ensures KeyName(prefix, ByDate, a) != KeyName(prefix, ByDateSize, a)
  {
    forall t1: Table, t2: Table | KeyName(prefix, t1, a) == KeyName(prefix, t2, a) ensures t1 == t2 {
      KeyNameInjective(prefix, t1, a, t2, a);
    }
  }

  /**
    `_record_media_stats` with the media type taken from the file's
    extension by the wrapper's rule: the event it records.
  */
  function Record(db: Db, prefix: string, path: string, today: Date, size: nat, action: Action): (r: Db)
    requires ValidDate(today)
  {
    RecordEvent(db, prefix, Event(MediaTypeOf(path), today, size, action))
  }

  /** The outcome of `_record_media_stats` as written. */
  datatype RecordOutcome = Recorded(db: Db) | AttributeError

  /**
    `_record_media_stats` as written: it asks `TelegramHelper` for
    `determine_media_type`, which that class does not define, so the call
    raises before any counter is touched.
  */
  function RecordAsWritten(db: Db, prefix: string, path: string, today: Date, size: nat, action: Action): (r: RecordOutcome)
    requires ValidDate(today)
  {
    AttributeError
  }

  /** As written, recording never counts anything, while the corrected recording always does. */
  lemma RecordAsWrittenNeverCounts(db: Db, prefix: string, path: string, today: Date, size: nat, action: Action)
    requires ValidDate(today)
    ensures RecordAsWritten(db, prefix, path, today, size, action) == AttributeError
    ensures GetVal(Record(db, prefix, path, today, size, action), KeyName(prefix, Total, action), TypeName(MediaTypeOf(path)))
            == GetVal(db, KeyName(prefix, Total, action), TypeName(MediaTypeOf(path))) + 1
  {
  }

  // ---- Queries -----------------------------------------------------------------

  /**
    The dictionary `_get_totals_generic` builds: a count and a size for
    every media type (`total_<type>`, `total_<type>_size`), and their sums
    (`total`, `total_size`).
  */
  datatype Report = Report(counts: map<MediaType, int>, sizes: map<MediaType, int>, total: int, totalSize: int)

  /** The sum of `m` over `types`. */
  function SumOver(m: map<MediaType, int>, types: seq<MediaType>): int
    requires forall t :: t in types ==> t in m
  {
    if |types| == 0 then 0 else m[types[0]] + SumOver(m, types[1..])
  }

  /**
    The `for media_type in TelegramMediaType` loop over `types`: each
    type's count and size are read from field `fieldPrefix + name`, and the
    totals are their sums.
  */
  function Tally(db: Db, key: string, sizeKey: string, fieldPrefix: string, types: seq<MediaType>): (r: Report)
    ensures forall t :: t in r.counts <==> t in types
    ensures forall t :: t in r.sizes <==> t in types
    ensures forall t :: t in r.counts ==> r.counts[t] == GetVal(db, key, fieldPrefix + TypeName(t))
    ensures forall t :: t in r.sizes ==> r.sizes[t] == GetVal(db, sizeKey, fieldPrefix + TypeName(t))
    ensures r.total == SumOver(r.counts, types) && r.totalSize == SumOver(r.sizes, types)
    decreases |types|
  {
    if |types| == 0 then Report(map[], map[], 0, 0)
    else
      var t := types[0];
      var rest := Tally(db, key, sizeKey, fieldPrefix, types[1..]);
      var field := fieldPrefix + TypeName(t);
      var count, size := GetVal(db, key, field), GetVal(db, sizeKey, field);
      assert forall x :: x in types <==> x == t || x in types[1..];
      SumOverOverwrite(rest.counts, types[1..], t, count);
      SumOverOverwrite(rest.sizes, types[1..], t, size);
      Report(rest.counts[t := count], rest.sizes[t := size], count + rest.total, size + rest.totalSize)
  }

  /** Overwriting an entry with its own value, or one `types` does not visit, leaves the sum alone. */
  lemma {:induction false} SumOverOverwrite(m: map<MediaType, int>, types: seq<MediaType>, t: MediaType, v: int)
    requires forall x :: x in types ==> x in m
    requires t in types ==> m[t] == v
    ensures SumOver(m[t := v], types) == SumOver(m, types)
    decreases |types|
  {
    if |types| > 0 {
      assert forall x :: x in types[1..] ==> x in types;
      SumOverOverwrite(m, types[1..], t, v);
    }
  }

  /** Raising one entry of `m` by `d` raises the sum over distinct `types` by `d` if `types` visits it. */
  lemma {:induction false} SumOverBump(m: map<MediaType, int>, types: seq<MediaType>, t: MediaType, d: int)
    requires forall x :: x in types ==> x in m
    requires t in m
    requires forall i, j :: 0 <= i < j < |types| ==> types[i] != types[j]
    ensures SumOver(m[t := m[t] + d], types) == SumOver(m, types) + (if t in types then d else 0)
    decreases |types|
  {
    if |types| > 0 {
      assert forall x :: x in types[1..] ==> x in types;
      assert t in types <==> t == types[0] || t in types[1..];
      SumOverBump(m, types[1..], t, d);
    }
  }

  /** `_get_totals_generic` over every media type. */
  function TotalsGeneric(db: Db, key: string, sizeKey: string, fieldPrefix: string): (r: Report)
    ensures forall t: MediaType :: t in r.counts && t in r.sizes
    ensures forall t: MediaType :: r.counts[t] == GetVal(db, key, fieldPrefix + TypeName(t))
    ensures forall t: MediaType :: r.sizes[t] == GetVal(db, sizeKey, fieldPrefix + TypeName(t))
    ensures r.total == SumOver(r.counts, AllMediaTypes) && r.totalSize == SumOver(r.sizes, AllMediaTypes)
  {
    var r := Tally(db, key, sizeKey, fieldPrefix, AllMediaTypes);
    forall t: MediaType ensures t in r.counts && t in r.sizes {
      AllMediaTypesComplete(t);
    }
    r
  }

  /** `_get_day_stats`: the per-day hashes, fields prefixed by `"{day}_"`. */
  function DayStats(db: Db, prefix: string, day: Date, action: Action): (r: Report)
    requires ValidDate(day)
    ensures forall t: MediaType :: t in r.counts && t in r.sizes
    ensures forall t: MediaType :: r.counts[t] == GetVal(db, KeyName(prefix, ByDate, action), DayField(day, t))
    ensures forall t: MediaType :: r.sizes[t] == GetVal(db, KeyName(prefix, ByDateSize, action), DayField(day, t))
    ensures r.total == SumOver(r.counts, AllMediaTypes) && r.totalSize == SumOver(r.sizes, AllMediaTypes)
  {
    TotalsGeneric(db, KeyName(prefix, ByDate, action), KeyName(prefix, ByDateSize, action), IsoDate(day) + "_")
  }

  /** The lifetime fields are the bare type names. */
  lemma NoPrefix()
    ensures forall t: MediaType :: "" + TypeName(t) == TypeName(t)
  {
    forall t: MediaType ensures "" + TypeName(t) == TypeName(t) {
      assert "" + TypeName(t) == TypeName(t);
    }
  }

  /** `_get_totals`: the lifetime hashes, fields with no prefix. */
  function Totals(db: Db, prefix: string, action: Action): (r: Report)
    ensures forall t: MediaType :: t in r.counts && t in r.sizes
    ensures forall t: MediaType :: r.counts[t] == GetVal(db, KeyName(prefix, Total, action), TypeName(t))
    ensures forall t: MediaType :: r.sizes[t] == GetVal(db, KeyName(prefix, TotalSize, action), TypeName(t))
    ensures r.total == SumOver(r.counts, AllMediaTypes) && r.totalSize == SumOver(r.sizes, AllMediaTypes)
  {
    NoPrefix();
    TotalsGeneric(db, KeyName(prefix, Total, action), KeyName(prefix, TotalSize, action), "")
  }

  // ---- Recording and querying together --------------------------------------------

  lemma AllMediaTypesDistinct()
    ensures forall i, j :: 0 <= i < j < |AllMediaTypes| ==> AllMediaTypes[i] != AllMediaTypes[j]
  {
  }

  /**
    Two complete reports whose entries agree except that the entry of `t`
    moves by one and by `size`: the maps are updates of each other and the
    totals move the same way.
  */
  lemma ReportBump(before: Report, after: Report, t: MediaType, size: int)
    requires forall x: MediaType :: x in before.counts && x in before.sizes && x in after.counts && x in after.sizes
    requires forall x: MediaType :: x != t ==> after.counts[x] == before.counts[x] && after.sizes[x] == before.sizes[x]
    requires after.counts[t] == before.counts[t] + 1 && after.sizes[t] == before.sizes[t] + size
    requires before.total == SumOver(before.counts, AllMediaTypes) && before.totalSize == SumOver(before.sizes, AllMediaTypes)
    requires after.total == SumOver(after.counts, AllMediaTypes) && after.totalSize == SumOver(after.sizes, AllMediaTypes)
    ensures after.counts == before.counts[t := before.counts[t] + 1]
    ensures after.sizes == before.sizes[t := before.sizes[t] + size]
    ensures after.total == before.total + 1 && after.totalSize == before.totalSize + size
  {
    assert after.counts.Keys == before.counts[t := before.counts[t] + 1].Keys;
    assert after.sizes.Keys == before.sizes[t := before.sizes[t] + size].Keys;
    AllMediaTypesDistinct();
    AllMediaTypesComplete(t);
    SumOverBump(before.counts, AllMediaTypes, t, 1);
    SumOverBump(before.sizes, AllMediaTypes, t, size);
  }

  /** Two complete reports whose entries all agree are the same report. */
  lemma ReportSame(a: Report, b: Report)
    requires forall x: MediaType :: x in a.counts && x in a.sizes && x in b.counts && x in b.sizes
    requires forall x: MediaType :: a.counts[x] == b.counts[x] && a.sizes[x] == b.sizes[x]
    requires a.total == SumOver(a.counts, AllMediaTypes) && a.totalSize == SumOver(a.sizes, AllMediaTypes)
    requires b.total == SumOver(b.counts, AllMediaTypes) && b.totalSize == SumOver(b.sizes, AllMediaTypes)
    ensures a == b
  {
    assert a.counts.Keys == b.counts.Keys && a.sizes.Keys == b.sizes.Keys;
    assert a.counts == b.counts && a.sizes == b.sizes;
  }

  /**
    A lifetime query after recording an event: the event's type gains one
    and its size, every other type is as before, and the totals grow by
    one and by the size.
  */
  lemma RecordThenTotals(db: Db, prefix: string, e: Event)
    requires ValidDate(e.day)
    ensures var before, after := Totals(db, prefix, e.action), Totals(RecordEvent(db, prefix, e), prefix, e.action);
            && after.counts == before.counts[e.mediaType := before.counts[e.mediaType] + 1]
            && after.sizes == before.sizes[e.mediaType := before.sizes[e.mediaType] + e.size]
            && after.total == before.total + 1
            && after.totalSize == before.totalSize + e.size
  {
    var before, after := Totals(db, prefix, e.action), Totals(RecordEvent(db, prefix, e), prefix, e.action);
    forall t: MediaType | t != e.mediaType
      ensures after.counts[t] == before.counts[t] && after.sizes[t] == before.sizes[t]
    {
      TouchedTotals(prefix, e, t);
    }
    ReportBump(before, after, e.mediaType, e.size);
  }

  /** Another type's lifetime fields are not touched by an event. */
  lemma TouchedTotals(prefix: string, e: Event, t: MediaType)
    requires ValidDate(e.day) && t != e.mediaType
    ensures !Touches(prefix, e, KeyName(prefix, Total, e.action), TypeName(t))
    ensures !Touches(prefix, e, KeyName(prefix, TotalSize, e.action), TypeName(t))
  {
    KeysDistinct(prefix, e.action);
    if TypeName(t) == TypeName(e.mediaType) {
      TypeNameInjective(t, e.mediaType);
    }
  }

  /** Another day's or another type's per-day fields are not touched by an event. */
  lemma TouchedDay(prefix: string, e: Event, day: Date, t: MediaType)
    requires ValidDate(e.day) && ValidDate(day) && (day != e.day || t != e.mediaType)
    ensures !Touches(prefix, e, KeyName(prefix, ByDate, e.action), DayField(day, t))
    ensures !Touches(prefix, e, KeyName(prefix, ByDateSize, e.action), DayField(day, t))
  {
    KeysDistinct(prefix, e.action);
    if DayField(day, t) == DayField(e.day, e.mediaType) {
      DayFieldInjective(day, t, e.day, e.mediaType);
    }
  }

  /**
    A day query after recording an event: on the event's day the event's
    type gains one and its size; any other day reads exactly as before.
  */
  lemma RecordThenDayStats(db: Db, prefix: string, e: Event, day: Date)
    requires ValidDate(e.day) && ValidDate(day)
    ensures var before, after := DayStats(db, prefix, day, e.action), DayStats(RecordEvent(db, prefix, e), prefix, day, e.action);
            && (day != e.day ==> after == before)
            && (day == e.day ==>
                  after.counts == before.counts[e.mediaType := before.counts[e.mediaType] + 1]
                  && after.sizes == before.sizes[e.mediaType := before.sizes[e.mediaType] + e.size]
                  && after.total == before.total + 1
                  && after.totalSize == before.totalSize + e.size)
  {
    var before, after := DayStats(db, prefix, day, e.action), DayStats(RecordEvent(db, prefix, e), prefix, day, e.action);
    forall t: MediaType | day != e.day || t != e.mediaType
      ensures after.counts[t] == before.counts[t] && after.sizes[t] == before.sizes[t]
    {
      TouchedDay(prefix, e, day, t);
    }
    if day != e.day {
      ReportSame(after, before);
    } else {
      ReportBump(before, after, e.mediaType, e.size);
    }
  }

  /** Keys of different actions never coincide. */
  lemma ActionKeysDiffer(prefix: string, a: Action, b: Action, t1: Table, t2: Table)
    requires a != b
    ensures KeyName(prefix, t1, a) != KeyName(prefix, t2, b)
  {
    if KeyName(prefix, t1, a) == KeyName(prefix, t2, b) {
      KeyNameInjective(prefix, t1, a, t2, b);
    }
  }

  /** Recording a `sent` event never changes a `delivered` query, and vice versa. */
  lemma ActionsAreSeparate(db: Db, prefix: string, e: Event, other: Action, day: Date)
    requires ValidDate(e.day) && ValidDate(day) && other != e.action
    ensures Totals(RecordEvent(db, prefix, e), prefix, other) == Totals(db, prefix, other)
    ensures DayStats(RecordEvent(db, prefix, e), prefix, day, other) == DayStats(db, prefix, day, other)
  {
    ActionKeysDiffer(prefix, other, e.action, Total, Total);
    ActionKeysDiffer(prefix, other, e.action, Total, TotalSize);
    ActionKeysDiffer(prefix, other, e.action, Total, ByDate);
    ActionKeysDiffer(prefix, other, e.action, Total, ByDateSize);
    ActionKeysDiffer(prefix, other, e.action, TotalSize, Total);
    ActionKeysDiffer(prefix, other, e.action, TotalSize, TotalSize);
    ActionKeysDiffer(prefix, other, e.action, TotalSize, ByDate);
    ActionKeysDiffer(prefix, other, e.action, TotalSize, ByDateSize);
    ActionKeysDiffer(prefix, other, e.action, ByDate, Total);
    ActionKeysDiffer(prefix, other, e.action, ByDate, TotalSize);
    ActionKeysDiffer(prefix, other, e.action, ByDate, ByDate);
    ActionKeysDiffer(prefix, other, e.action, ByDate, ByDateSize);
    ActionKeysDiffer(prefix, other, e.action, ByDateSize, Total);
    ActionKeysDiffer(prefix, other, e.action, ByDateSize, TotalSize);
    ActionKeysDiffer(prefix, other, e.action, ByDateSize, ByDate);
    ActionKeysDiffer(prefix, other, e.action, ByDateSize, ByDateSize);
    var r := RecordEvent(db, prefix, e);
    ReportSame(Totals(r, prefix, other), Totals(db, prefix, other));
    ReportSame(DayStats(r, prefix, day, other), DayStats(db, prefix, day, other));
  }

  /** An empty database reports zero everywhere. */
  lemma EmptyReportsZero(prefix: string, action: Action, day: Date)
    requires ValidDate(day)
    ensures var r := Totals(map[], prefix, action);
            r.total == 0 && r.totalSize == 0 && forall t: MediaType :: r.counts[t] == 0 && r.sizes[t] == 0
    ensures var r := DayStats(map[], prefix, day, action);
            r.total == 0 && r.totalSize == 0 && forall t: MediaType :: r.counts[t] == 0 && r.sizes[t] == 0
  {
    var r1, r2 := Totals(map[], prefix, action), DayStats(map[], prefix, day, action);
    SumOverZero(r1.counts, AllMediaTypes);
    SumOverZero(r1.sizes, AllMediaTypes);
    SumOverZero(r2.counts, AllMediaTypes);
    SumOverZero(r2.sizes, AllMediaTypes);
  }

  lemma {:induction false} SumOverZero(m: map<MediaType, int>, types: seq<MediaType>)
    requires forall t :: t in types ==> t in m && m[t] == 0
    ensures SumOver(m, types) == 0
    decreases |types|
  {
    if |types| > 0 {
      assert forall x :: x in types[1..] ==> x in types;
      SumOverZero(m, types[1..]);
    }
  }

  // ---- The week query ------------------------------------------------------------

  /** One `(day_str, stats)` pair, with the day it was computed for. */
  datatype DayEntry = DayEntry(day: Date, name: string, stats: Report)

  /** The entry of `day`: named `str(day)`, holding that day's stats. */
  function EntryOf(db: Db, prefix: string, day: Date, action: Action): (e: DayEntry)
    requires ValidDate(day)
  {
    DayEntry(day, IsoDate(day), DayStats(db, prefix, day, action))
  }

  /**
    `_get_week_stats`: one entry per day from six days before `today` up
    to `today`, ascending, each named `str(day)` and holding that day's
    stats.  `None` is the `OverflowError` the date arithmetic raises at the
    ends of the calendar.
  */
  method WeekStats(db: Db, prefix: string, today: Date, action: Action) returns (r: Option<seq<DayEntry>>)
    requires ValidDate(today)
    ensures r.None? <==> Back(today, 6).None? || NextDay(today).None?
    ensures r.Some? ==> |r.value| == 7 && r.value[6].day == today && Back(today, 6) == Some(r.value[0].day)
    ensures r.Some? ==> forall i :: 0 <= i < 7 ==> ValidDate(r.value[i].day)
    ensures r.Some? ==> forall i :: 0 <= i < 7 ==> r.value[i] == EntryOf(db, prefix, r.value[i].day, action)
    ensures r.Some? ==> forall i :: 0 <= i < 6 ==> NextDay(r.value[i].day) == Some(r.value[i + 1].day)
  {
    var window := WeekDates(today);
    if window.None? {
      return None;
    }
    var days := window.value;
    WindowEntries(db, prefix, days, action);
    return Some(EntriesOf(db, prefix, days, action));
  }

  /** The entries of a consecutive run of days carry those days, in order. */
  lemma WindowEntries(db: Db, prefix: string, days: seq<Date>, action: Action)
    requires Consecutive(days)
    ensures var e := EntriesOf(db, prefix, days, action);
            |e| == |days|
            && (forall i :: 0 <= i < |e| ==> e[i].day == days[i] && ValidDate(e[i].day))
            && (forall i :: 0 <= i < |e| ==> e[i] == EntryOf(db, prefix, e[i].day, action))
            && (forall i :: 0 <= i < |e| - 1 ==> NextDay(e[i].day) == Some(e[i + 1].day))
  {
  }

  /** The entries of `days`, in order. */
  function EntriesOf(db: Db, prefix: string, days: seq<Date>, action: Action): (entries: seq<DayEntry>)
    requires forall j :: 0 <= j < |days| ==> ValidDate(days[j])
    ensures |entries| == |days|
    ensures forall j :: 0 <= j < |days| ==> entries[j] == EntryOf(db, prefix, days[j], action)
  {
    seq(|days|, j requires 0 <= j < |days| => EntryOf(db, prefix, days[j], action))
  }
}
