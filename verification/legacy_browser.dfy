/**
  The older `SubredditBrowser` (src/reddit/SubredditBrowser.py): an
  in-memory posted set plus a clearance queue of `(time, path, id)`
  entries, appended in time order and trimmed from the front once entries
  are older than `25 * browse_delay`.  The clock is the parameter `now`.
*/
module LegacyBrowser {
  import opened Maybe
  import opened MediaTypes
  import opened Resolver
  import Browser
  import Text

  /** `(time.time(), file_path, submission.id)`; `path` is `None` when nothing was downloaded. */
  datatype QueueEntry = QueueEntry(time: int, path: Option<string>, id: string)

  datatype LegacyState = LegacyState(posted: set<string>, queue: seq<QueueEntry>)

  const Initial := LegacyState({}, [])

  /** The settings the cycle reads: `telegram_channel`, `browse_delay`, `tmp_dir`. */
  datatype LegacyConfig = LegacyConfig(channel: string, browseDelay: int, tmpDir: string)

  /** The ids that have an entry in `queue`. */
  function QueueIds(queue: seq<QueueEntry>): set<string> {
    set i | 0 <= i < |queue| :: queue[i].id
  }

  /** The paths of the entries of `queue` that have one, in queue order. */
  function QueuePaths(queue: seq<QueueEntry>): (paths: seq<string>)
    ensures |paths| <= |queue|
  {
    if |queue| == 0 then []
    else (if queue[0].path.Some? then [queue[0].path.value] else []) + QueuePaths(queue[1..])
  }

  predicate Sorted(queue: seq<QueueEntry>) {
    forall i, j :: 0 <= i < j < |queue| ==> queue[i].time <= queue[j].time
  }

  predicate DistinctIds(queue: seq<QueueEntry>) {
    forall i, j :: 0 <= i < j < |queue| ==> queue[i].id != queue[j].id
  }

  /**
    What the loop keeps between cycles: the posted set is exactly the set
    of queued ids, each queued once, in time order, none in the future.
  */
  predicate Valid(s: LegacyState, now: int) {
    && s.posted == QueueIds(s.queue)
    && DistinctIds(s.queue)
    && Sorted(s.queue)
    && (forall i :: 0 <= i < |s.queue| ==> s.queue[i].time <= now)
  }

  /** `time.time() - post_info[0] > 25 * self._browse_delay` */
  predicate ExpiredEntry(e: QueueEntry, now: int, browseDelay: int) {
    now - e.time > 25 * browseDelay
  }

  /** The first loop of the cleanup: how many entries from the front are expired. */
  function ExpiredPrefixLength(queue: seq<QueueEntry>, now: int, browseDelay: int): (n: nat)
    ensures n <= |queue|
    ensures forall i :: 0 <= i < n ==> ExpiredEntry(queue[i], now, browseDelay)
    ensures n < |queue| ==> !ExpiredEntry(queue[n], now, browseDelay)
  {
    if |queue| == 0 || !ExpiredEntry(queue[0], now, browseDelay) then 0
    else 1 + ExpiredPrefixLength(queue[1..], now, browseDelay)
  }

  /** The cleanup's outcome: the new state, the files removed in order, and an escaping exception. */
  datatype CleanupResult = CleanupResult(state: LegacyState, removed: seq<string>, crash: Option<PyError>)

  /**
    The deletion loop `for t, path, s_id in to_del` as written:
    `os.remove(path)` raises a `TypeError` for a `None` path, and
    `self._posted_set.remove(s_id)` a `KeyError` for an id not in the set.
    The queue has already been trimmed when the loop runs.
  */
  function DeleteAsWritten(posted: set<string>, toDel: seq<QueueEntry>, queue: seq<QueueEntry>): (r: CleanupResult)
    ensures r.state.queue == queue
    ensures r.crash.None? ==> r.removed == QueuePaths(toDel) && r.state.posted == posted - QueueIds(toDel)
  {
    if |toDel| == 0 then CleanupResult(LegacyState(posted, queue), [], None)
    else
      var e := toDel[0];
      assert QueueIds(toDel) == {e.id} + QueueIds(toDel[1..]) by { QueueIdsCons(toDel); }
      match e.path
      case None => CleanupResult(LegacyState(posted, queue), [], Some(TypeError))
      case Some(path) =>
        if e.id !in posted then CleanupResult(LegacyState(posted, queue), [path], Some(KeyError))
        else
          var rest := DeleteAsWritten(posted - {e.id}, toDel[1..], queue);
          CleanupResult(rest.state, [path] + rest.removed, rest.crash)
  }

  lemma QueueIdsCons(queue: seq<QueueEntry>)
    requires |queue| > 0
    ensures QueueIds(queue) == {queue[0].id} + QueueIds(queue[1..])
  {
    forall id | id in QueueIds(queue) ensures id in {queue[0].id} + QueueIds(queue[1..]) {
      var i :| 0 <= i < |queue| && queue[i].id == id;
      if i > 0 {
        assert queue[1..][i - 1] == queue[i];
      }
    }
    forall id | id in QueueIds(queue[1..]) ensures id in QueueIds(queue) {
      var i :| 0 <= i < |queue[1..]| && queue[1..][i].id == id;
      assert queue[i + 1] == queue[1..][i];
    }
  }

  /** `_do_post_storage_cleanup` as written. */
  function CleanupAsWritten(s: LegacyState, now: int, browseDelay: int): (r: CleanupResult)
    ensures var n := ExpiredPrefixLength(s.queue, now, browseDelay);
            r.state.queue == s.queue[n..]
            && (r.crash.None? ==> r.state.posted == s.posted - QueueIds(s.queue[..n]))
  {
    var n := ExpiredPrefixLength(s.queue, now, browseDelay);
    DeleteAsWritten(s.posted, s.queue[..n], s.queue[n..])
  }

  /**
    The deletion loop with the evident intent: only downloaded files are
    removed, and every expired id leaves the posted set.
  */
  function Delete(posted: set<string>, toDel: seq<QueueEntry>, queue: seq<QueueEntry>): (r: CleanupResult)
    ensures r.state.queue == queue
    ensures r.crash.None? <==> forall i :: 0 <= i < |toDel| ==> toDel[i].id in posted - QueueIds(toDel[..i])
    ensures r.crash.None? ==> r.removed == QueuePaths(toDel) && r.state.posted == posted - QueueIds(toDel)
    ensures r.crash.Some? ==> r.crash.value == KeyError
  {
    if |toDel| == 0 then CleanupResult(LegacyState(posted, queue), [], None)
    else
      var e := toDel[0];
      QueueIdsCons(toDel);
      PrefixIdsShift(toDel);
      var here := if e.path.Some? then [e.path.value] else [];
      if e.id !in posted then CleanupResult(LegacyState(posted, queue), here, Some(KeyError))
      else
        var rest := Delete(posted - {e.id}, toDel[1..], queue);
        CleanupResult(rest.state, here + rest.removed, rest.crash)
  }

  /** Ids of a prefix of `toDel[1..]`, seen from `toDel`. */
  lemma PrefixIdsShift(toDel: seq<QueueEntry>)
    requires |toDel| > 0
    ensures forall i :: 1 <= i <= |toDel| ==> QueueIds(toDel[..i]) == {toDel[0].id} + QueueIds(toDel[1..][..i - 1])
  {
    forall i | 1 <= i <= |toDel|
      ensures QueueIds(toDel[..i]) == {toDel[0].id} + QueueIds(toDel[1..][..i - 1])
    {
      QueueIdsCons(toDel[..i]);
      assert toDel[..i][1..] == toDel[1..][..i - 1];
    }
  }

  /** `_do_post_storage_cleanup` with the `None` path skipped. */
  function Cleanup(s: LegacyState, now: int, browseDelay: int): (r: CleanupResult)
    ensures var n := ExpiredPrefixLength(s.queue, now, browseDelay);
            r.state.queue == s.queue[n..]
            && (r.crash.None? ==> r.state.posted == s.posted - QueueIds(s.queue[..n])
                                  && r.removed == QueuePaths(s.queue[..n]))
  {
    var n := ExpiredPrefixLength(s.queue, now, browseDelay);
    Delete(s.posted, s.queue[..n], s.queue[n..])
  }

  // ---- Properties of the cleanup ---------------------------------------------

  /** The entries of `queue` that are expired (`expired`) or young (`!expired`), in queue order. */
  function Select(queue: seq<QueueEntry>, now: int, browseDelay: int, expired: bool): (r: seq<QueueEntry>)
    ensures forall i :: 0 <= i < |r| ==> ExpiredEntry(r[i], now, browseDelay) == expired
  {
    if |queue| == 0 then []
    else
      var rest := Select(queue[1..], now, browseDelay, expired);
      if ExpiredEntry(queue[0], now, browseDelay) == expired then [queue[0]] + rest else rest
  }

  /** On a sorted queue, every entry at or after the first young one is young. */
  lemma SortedSuffixYoung(queue: seq<QueueEntry>, now: int, browseDelay: int)
    requires Sorted(queue)
    ensures var n := ExpiredPrefixLength(queue, now, browseDelay);
            forall i :: n <= i < |queue| ==> !ExpiredEntry(queue[i], now, browseDelay)
  {
    var n := ExpiredPrefixLength(queue, now, browseDelay);
    forall i | n <= i < |queue| ensures !ExpiredEntry(queue[i], now, browseDelay) {
      assert queue[n].time <= queue[i].time;
    }
  }

  /** Selecting from a queue whose entries all agree with `expired` keeps all of it. */
  lemma {:induction false} SelectAll(queue: seq<QueueEntry>, now: int, browseDelay: int, expired: bool)
    requires forall i :: 0 <= i < |queue| ==> ExpiredEntry(queue[i], now, browseDelay) == expired
    ensures Select(queue, now, browseDelay, expired) == queue
    ensures Select(queue, now, browseDelay, !expired) == []
    decreases |queue|
  {
    if |queue| > 0 {
      SelectAll(queue[1..], now, browseDelay, expired);
      assert [queue[0]] + queue[1..] == queue;
    }
  }

  /**
    Because the queue is sorted, trimming the expired prefix is the same as
    filtering by age: the removed prefix is exactly the expired entries and
    the kept suffix exactly the young ones, both in queue order.
  */
  lemma {:induction false} PrefixTrimIsFilter(queue: seq<QueueEntry>, now: int, browseDelay: int)
    requires Sorted(queue)
    ensures var n := ExpiredPrefixLength(queue, now, browseDelay);
            queue[..n] == Select(queue, now, browseDelay, true)
            && queue[n..] == Select(queue, now, browseDelay, false)
    decreases |queue|
  {
    var n := ExpiredPrefixLength(queue, now, browseDelay);
    if |queue| > 0 {
      if ExpiredEntry(queue[0], now, browseDelay) {
        assert Sorted(queue[1..]) by {
          forall i, j | 0 <= i < j < |queue[1..]| ensures queue[1..][i].time <= queue[1..][j].time {
            assert queue[1..][i] == queue[i + 1] && queue[1..][j] == queue[j + 1];
          }
        }
        PrefixTrimIsFilter(queue[1..], now, browseDelay);
        var m := ExpiredPrefixLength(queue[1..], now, browseDelay);
        assert n == m + 1;
        assert queue[..n] == [queue[0]] + queue[1..][..m];
        assert queue[n..] == queue[1..][m..];
      } else {
        SortedSuffixYoung(queue, now, browseDelay);
        SelectAll(queue, now, browseDelay, false);
      }
    }
  }

  /** With distinct queued ids that are all posted, the corrected cleanup never raises. */
  lemma DeleteSucceeds(posted: set<string>, toDel: seq<QueueEntry>, queue: seq<QueueEntry>)
    requires DistinctIds(toDel) && QueueIds(toDel) <= posted
    ensures Delete(posted, toDel, queue).crash.None?
  {
    forall i | 0 <= i < |toDel| ensures toDel[i].id in posted - QueueIds(toDel[..i]) {
      assert toDel[i].id in QueueIds(toDel);
    }
  }

  /** The ids of a queue split in two are the ids of the two parts, and with distinct ids the parts share none. */
  lemma SplitIds(queue: seq<QueueEntry>, n: nat)
    requires n <= |queue|
    ensures QueueIds(queue) == QueueIds(queue[..n]) + QueueIds(queue[n..])
    ensures DistinctIds(queue) ==> QueueIds(queue[..n]) !! QueueIds(queue[n..])
  {
    forall id | id in QueueIds(queue) ensures id in QueueIds(queue[..n]) + QueueIds(queue[n..]) {
      var i :| 0 <= i < |queue| && queue[i].id == id;
      if i < n {
        assert queue[..n][i] == queue[i];
      } else {
        assert queue[n..][i - n] == queue[i];
      }
    }
    forall id | id in QueueIds(queue[..n]) + QueueIds(queue[n..]) ensures id in QueueIds(queue) {
      if id in QueueIds(queue[..n]) {
        var i :| 0 <= i < n && queue[..n][i].id == id;
        assert queue[i] == queue[..n][i];
      } else {
        var i :| 0 <= i < |queue| - n && queue[n..][i].id == id;
        assert queue[n + i] == queue[n..][i];
      }
    }
    if DistinctIds(queue) {
      forall id | id in QueueIds(queue[..n]) ensures id !in QueueIds(queue[n..]) {
        var i :| 0 <= i < n && queue[..n][i].id == id;
        assert queue[..n][i] == queue[i];
      }
    }
  }

  /** Slices of a valid queue keep its shape. */
  lemma SliceShape(queue: seq<QueueEntry>, lo: nat, hi: nat, now: int)
    requires lo <= hi <= |queue|
    requires DistinctIds(queue) && Sorted(queue) && forall i :: 0 <= i < |queue| ==> queue[i].time <= now
    ensures DistinctIds(queue[lo..hi]) && Sorted(queue[lo..hi])
    ensures forall i :: 0 <= i < |queue[lo..hi]| ==> queue[lo..hi][i].time <= now
  {
    forall i, j | 0 <= i < j < hi - lo
      ensures queue[lo..hi][i].id != queue[lo..hi][j].id && queue[lo..hi][i].time <= queue[lo..hi][j].time
    {
      assert queue[lo..hi][i] == queue[lo + i] && queue[lo..hi][j] == queue[lo + j];
    }
  }

  /**
    The corrected cleanup keeps the loop's invariant: it succeeds, and
    leaves no expired entry behind.
  */
  lemma CleanupKeepsValid(s: LegacyState, now: int, browseDelay: int)
    requires Valid(s, now)
    ensures var r := Cleanup(s, now, browseDelay);
            r.crash.None? && Valid(r.state, now)
            && (forall i :: 0 <= i < |r.state.queue| ==> !ExpiredEntry(r.state.queue[i], now, browseDelay))
  {
    var n := ExpiredPrefixLength(s.queue, now, browseDelay);
    SplitIds(s.queue, n);
    SliceShape(s.queue, 0, n, now);
    SliceShape(s.queue, n, |s.queue|, now);
    assert s.queue[0..n] == s.queue[..n];
    assert s.queue[n..|s.queue|] == s.queue[n..];
    DeleteSucceeds(s.posted, s.queue[..n], s.queue[n..]);
    SortedSuffixYoung(s.queue, now, browseDelay);
  }

  /** The ids the corrected cleanup drops from a valid state are exactly the ids of expired entries. */
  lemma CleanupDropsExactlyExpired(s: LegacyState, now: int, browseDelay: int, id: string)
    requires Valid(s, now)
    ensures id in s.posted - Cleanup(s, now, browseDelay).state.posted <==>
            exists i :: 0 <= i < |s.queue| && s.queue[i].id == id && ExpiredEntry(s.queue[i], now, browseDelay)
  {
    var n := ExpiredPrefixLength(s.queue, now, browseDelay);
    CleanupKeepsValid(s, now, browseDelay);
    SortedSuffixYoung(s.queue, now, browseDelay);
    if id in QueueIds(s.queue[..n]) {
      var i :| 0 <= i < n && s.queue[..n][i].id == id;
      assert s.queue[i] == s.queue[..n][i];
    }
    if exists i :: 0 <= i < |s.queue| && s.queue[i].id == id && ExpiredEntry(s.queue[i], now, browseDelay) {
      var i :| 0 <= i < |s.queue| && s.queue[i].id == id && ExpiredEntry(s.queue[i], now, browseDelay);
      assert s.queue[..n][i] == s.queue[i];
    }
  }

  lemma CleanupKeepsValidIfValid(s: LegacyState, now: int, browseDelay: int)
    ensures Valid(s, now) ==> Cleanup(s, now, browseDelay).crash.None? && Valid(Cleanup(s, now, browseDelay).state, now)
  {
    if Valid(s, now) {
      CleanupKeepsValid(s, now, browseDelay);
    }
  }

  // ---- The discrepancy in the cleanup as written -------------------------------

  /**
    As written, the cleanup raises `TypeError` as soon as an expired entry
    of an unresolved submission (path `None`) reaches the deletion loop,
    after removing the files of the entries before it.
  */
  lemma {:induction false} DeleteAsWrittenFailsOnUnresolved(posted: set<string>, toDel: seq<QueueEntry>,
                                                            queue: seq<QueueEntry>, k: nat)
    requires k < |toDel| && toDel[k].path.None?
    requires forall i :: 0 <= i < k ==> toDel[i].path.Some?
    requires DistinctIds(toDel) && QueueIds(toDel) <= posted
    ensures DeleteAsWritten(posted, toDel, queue).crash == Some(TypeError)
    ensures DeleteAsWritten(posted, toDel, queue).removed == QueuePaths(toDel[..k])
    decreases k
  {
    if k > 0 {
      var e := toDel[0];
      QueueIdsCons(toDel);
      assert e.id in posted;
      assert DistinctIds(toDel[1..]) by {
        forall i, j | 0 <= i < j < |toDel[1..]| ensures toDel[1..][i].id != toDel[1..][j].id {
          assert toDel[1..][i] == toDel[i + 1] && toDel[1..][j] == toDel[j + 1];
        }
      }
      assert QueueIds(toDel[1..]) <= posted - {e.id} by {
        forall id | id in QueueIds(toDel[1..]) ensures id != e.id {
          var j :| 0 <= j < |toDel[1..]| && toDel[1..][j].id == id;
          assert toDel[j + 1] == toDel[1..][j];
        }
      }
      DeleteAsWrittenFailsOnUnresolved(posted - {e.id}, toDel[1..], queue, k - 1);
      assert toDel[..k][1..] == toDel[1..][..k - 1];
    }
  }

  /** Where every expired entry has a file, the cleanup as written and the corrected one agree. */
  lemma {:induction false} DeleteAgreesWithFiles(posted: set<string>, toDel: seq<QueueEntry>, queue: seq<QueueEntry>)
    requires forall i :: 0 <= i < |toDel| ==> toDel[i].path.Some?
    ensures DeleteAsWritten(posted, toDel, queue) == Delete(posted, toDel, queue)
    decreases |toDel|
  {
    if |toDel| > 0 && toDel[0].id in posted {
      DeleteAgreesWithFiles(posted - {toDel[0].id}, toDel[1..], queue);
    }
  }

  /**
    Concretely: with a one-hour browse delay, an unresolved submission
    queued at time 0 crashes the cleanup at time 90001, while the corrected
    cleanup clears it.
  */
  lemma UnresolvedEntryCrashesCleanup()
    ensures var s := LegacyState({"abc"}, [QueueEntry(0, None, "abc")]);
            CleanupAsWritten(s, 90001, 3600).crash == Some(TypeError)
            && Cleanup(s, 90001, 3600) == CleanupResult(Initial, [], None)
  {
    var q := [QueueEntry(0, None, "abc")];
    assert ExpiredPrefixLength(q[1..], 90001, 3600) == 0;
    assert q[..1] == q && q[1..] == [];
    QueueIdsCons(q);
    assert QueueIds(q[1..]) == {};
    assert QueuePaths(q[1..]) == [];
  }

  // ---- One cycle ---------------------------------------------------------------

  /** An exception that escapes the older cycle: it has no `try` around the fetch. */
  datatype LegacyCrash = CleanupFailed(cleanupError: PyError) | FetchFailed | ExtractFailed(extractError: PyError)

  datatype LegacyResult = LegacyResult(state: LegacyState, sends: seq<Browser.Dispatch>, crash: Option<LegacyCrash>)

  /** `_extract_media` of the older browser: the older rules, then download. */
  function LegacyExtract(sub: Submission, cfg: LegacyConfig, sniff: string -> Option<string>): Extraction {
    Materialize(ResolveLegacy(sub, cfg.tmpDir), sniff)
  }

  /** The queue entry a successful extraction leaves. */
  function EntryOf(sub: Submission, e: Extraction, now: int): QueueEntry
    requires !e.ExtractRaised?
  {
    QueueEntry(now, if e.Downloaded? then Some(e.path) else None, sub.id)
  }

  /** `entry` is the queue entry of one of `subs` whose extraction did not raise. */
  ghost predicate QueuedFrom(subs: seq<Submission>, entry: QueueEntry, now: int, extract: Submission -> Extraction) {
    exists k :: 0 <= k < |subs| && subs[k].id == entry.id
                && !extract(subs[k]).ExtractRaised?
                && entry == EntryOf(subs[k], extract(subs[k]), now)
  }

  /**
    The `for submission in submissions` loop of the older browser: a new
    id joins the posted set before extraction, then gets one queue entry
    (with or without a path), and is sent only when a file was downloaded.
  */
  function ProcessLegacy(s: LegacyState, subs: seq<Submission>, now: int, cfg: LegacyConfig,
                         extract: Submission -> Extraction): (r: LegacyResult)
    ensures |s.queue| <= |r.state.queue| && r.state.queue[..|s.queue|] == s.queue
    ensures forall i :: |s.queue| <= i < |r.state.queue| ==>
              r.state.queue[i].time == now && r.state.queue[i].id !in s.posted
              && QueuedFrom(subs, r.state.queue[i], now, extract)
    ensures r.crash.None? ==> r.state.posted == s.posted + QueueIds(r.state.queue[|s.queue|..])
    ensures r.crash.None? ==> forall k :: 0 <= k < |subs| ==> subs[k].id in r.state.posted
    ensures r.crash.Some? ==> r.crash.value.ExtractFailed?
    ensures forall i :: 0 <= i < |r.sends| ==> r.sends[i].submissionId !in s.posted
    decreases |subs|
  {
    if |subs| == 0 then
      assert s.queue[..|s.queue|] == s.queue;
      assert s.queue[|s.queue|..] == [];
      LegacyResult(s, [], None)
    else
      var sub := subs[0];
      if sub.id in s.posted then
        var r := ProcessLegacy(s, subs[1..], now, cfg, extract);
        ShiftQueueWitness(subs, r.state.queue, |s.queue|, now, extract);
        ShiftAllPosted(subs, r.state.posted);
        r
      else
        var posted := s.posted + {sub.id};
        match extract(sub)
        case ExtractRaised(e) =>
          assert s.queue[..|s.queue|] == s.queue;
          LegacyResult(LegacyState(posted, s.queue), [], Some(ExtractFailed(e)))
        case _ =>
          var entry := EntryOf(sub, extract(sub), now);
          var next := LegacyState(posted, s.queue + [entry]);
          var sends := match extract(sub)
            case Downloaded(path, mediaType) => [Browser.Dispatch(sub.id, path, mediaType, cfg.channel, sub.title)]
            case _ => [];
          var r := ProcessLegacy(next, subs[1..], now, cfg, extract);
          AppendStep(s, sub, entry, subs, r.state.queue, now, extract);
          ShiftAllPosted(subs, r.state.posted);
          LegacyResult(r.state, sends + r.sends, r.crash)
  }

  /** A cycle that does not crash keeps the loop's invariant. */
  lemma {:induction false} ProcessLegacyKeepsValid(s: LegacyState, subs: seq<Submission>, now: int, cfg: LegacyConfig,
                                                   extract: Submission -> Extraction)
    ensures var r := ProcessLegacy(s, subs, now, cfg, extract);
            Valid(s, now) && r.crash.None? ==> Valid(r.state, now)
    decreases |subs|
  {
    if |subs| > 0 {
      var sub := subs[0];
      if sub.id in s.posted {
        ProcessLegacyKeepsValid(s, subs[1..], now, cfg, extract);
      } else if !extract(sub).ExtractRaised? {
        var entry := EntryOf(sub, extract(sub), now);
        AppendKeepsValid(s, entry, now);
        ProcessLegacyKeepsValid(LegacyState(s.posted + {sub.id}, s.queue + [entry]), subs[1..], now, cfg, extract);
      }
    }
  }

  /** Witnesses for entries added while processing `subs[1..]` are witnesses in `subs`. */
  lemma ShiftQueueWitness(subs: seq<Submission>, queue: seq<QueueEntry>, from: nat, now: int,
                          extract: Submission -> Extraction)
    requires |subs| > 0
    requires forall i :: from <= i < |queue| ==> QueuedFrom(subs[1..], queue[i], now, extract)
    ensures forall i :: from <= i < |queue| ==> QueuedFrom(subs, queue[i], now, extract)
  {
    forall i | from <= i < |queue| ensures QueuedFrom(subs, queue[i], now, extract) {
      assert QueuedFrom(subs[1..], queue[i], now, extract);
      var k :| 0 <= k < |subs[1..]| && subs[1..][k].id == queue[i].id
               && !extract(subs[1..][k]).ExtractRaised?
               && queue[i] == EntryOf(subs[1..][k], extract(subs[1..][k]), now);
      assert subs[k + 1] == subs[1..][k];
    }
  }

  /** If the head's id and every tail id are posted, every id is. */
  lemma ShiftAllPosted(subs: seq<Submission>, posted: set<string>)
    requires |subs| > 0
    ensures subs[0].id in posted && (forall k :: 0 <= k < |subs[1..]| ==> subs[1..][k].id in posted) ==>
            forall k :: 0 <= k < |subs| ==> subs[k].id in posted
  {
    if subs[0].id in posted && (forall k :: 0 <= k < |subs[1..]| ==> subs[1..][k].id in posted) {
      forall k | 1 <= k < |subs| ensures subs[k].id in posted {
        assert subs[k] == subs[1..][k - 1];
      }
    }
  }

  /** Facts about the queue after the head's entry was appended and the tail processed. */
  lemma AppendStep(s: LegacyState, sub: Submission, entry: QueueEntry, subs: seq<Submission>,
                   queue: seq<QueueEntry>, now: int, extract: Submission -> Extraction)
    requires |subs| > 0 && sub == subs[0] && !extract(sub).ExtractRaised?
    requires entry == EntryOf(sub, extract(sub), now)
    requires |s.queue| + 1 <= |queue| && queue[..|s.queue| + 1] == s.queue + [entry]
    requires forall i :: |s.queue| + 1 <= i < |queue| ==>
               QueuedFrom(subs[1..], queue[i], now, extract)
    ensures queue[..|s.queue|] == s.queue
    ensures QueueIds(queue[|s.queue|..]) == {sub.id} + QueueIds(queue[|s.queue| + 1..])
    ensures forall i :: |s.queue| <= i < |queue| ==>
              QueuedFrom(subs, queue[i], now, extract)
  {
    var n := |s.queue|;
    assert queue[..n] == queue[..n + 1][..n];
    assert queue[n] == entry;
    QueueIdsCons(queue[n..]);
    assert queue[n..][1..] == queue[n + 1..];
    ShiftQueueWitness(subs, queue, n + 1, now, extract);
  }

  /** Appending a fresh id's entry at `now` keeps the invariant. */
  lemma AppendKeepsValid(s: LegacyState, entry: QueueEntry, now: int)
    requires entry.time == now && entry.id !in s.posted
    ensures Valid(s, now) ==> Valid(LegacyState(s.posted + {entry.id}, s.queue + [entry]), now)
  {
    if Valid(s, now) {
      var q := s.queue + [entry];
      SplitIds(q, |s.queue|);
      assert q[..|s.queue|] == s.queue;
      assert q[|s.queue|..] == [entry];
      assert QueueIds([entry]) == {entry.id} by {
        assert [entry][0] == entry;
      }
    }
  }

  /**
    `_extract_media` of the older browser as written: it asks the old
    `TelegramWrapper` for `determine_media_type`, which that class does not
    define, so every resolved submission raises `AttributeError` once
    downloaded.
  */
  function LegacyExtractAsWritten(sub: Submission, cfg: LegacyConfig, sniff: string -> Option<string>): (e: Extraction)
    ensures !e.Downloaded?
    ensures ResolveLegacy(sub, cfg.tmpDir).Resolved? ==> e == ExtractRaised(AttributeError)
  {
    MaterializeAsWritten(ResolveLegacy(sub, cfg.tmpDir), sniff)
  }

  /** An extraction that never hands back a file sends nothing. */
  lemma {:induction false} LegacyNoDownloadNoSends(s: LegacyState, subs: seq<Submission>, now: int, cfg: LegacyConfig,
                                                   extract: Submission -> Extraction)
    requires forall x :: !extract(x).Downloaded?
    ensures ProcessLegacy(s, subs, now, cfg, extract).sends == []
    decreases |subs|
  {
    if |subs| > 0 {
      var sub := subs[0];
      if sub.id in s.posted {
        LegacyNoDownloadNoSends(s, subs[1..], now, cfg, extract);
      } else if !extract(sub).ExtractRaised? {
        var next := LegacyState(s.posted + {sub.id}, s.queue + [EntryOf(sub, extract(sub), now)]);
        LegacyNoDownloadNoSends(next, subs[1..], now, cfg, extract);
      }
    }
  }

  /**
    As written, a fresh imgur picture is added to the posted set and then
    crashes the cycle before it is queued: it is not sent, and the state
    left behind breaks the loop's invariant (see `UnqueuedIdNeverCleared`
    for why no cleanup repairs it).
  */
  lemma LegacyAsWrittenImgurCrashes(cfg: LegacyConfig, now: int)
    ensures ProcessLegacy(Initial, [Browser.ImgurPicture], now, cfg, x => LegacyExtractAsWritten(x, cfg, Browser.SniffNothing))
            == LegacyResult(LegacyState({"abc"}, []), [], Some(ExtractFailed(AttributeError)))
    ensures !Valid(LegacyState({"abc"}, []), now)
  {
    var sub := Browser.ImgurPicture;
    assert !Text.StartsWith(sub.url.value, ImgurHttpHost) by {
      assert sub.url.value[4] != ImgurHttpHost[4];
    }
    assert !Text.StartsWith(sub.url.value, VRedditPrefix) by {
      assert sub.url.value[8] != VRedditPrefix[8];
    }
    LegacyAgreesWithCurrent(sub, cfg.tmpDir);
    Browser.ImgurPictureResolves(cfg.tmpDir);
  }

  /**
    An id that is posted but has no queue entry, as the crash above leaves
    it, is never removed by a cleanup: only queued ids leave the set.
  */
  lemma UnqueuedIdNeverCleared(s: LegacyState, now: int, browseDelay: int, id: string)
    requires id in s.posted && id !in QueueIds(s.queue)
    ensures var c := Cleanup(s, now, browseDelay);
            c.crash.None? ==> id in c.state.posted
  {
    var n := ExpiredPrefixLength(s.queue, now, browseDelay);
    SplitIds(s.queue, n);
  }

  /** A single fresh submission whose media downloads is posted, queued with its file, then sent. */
  lemma LegacyFreshSingle(s: LegacyState, sub: Submission, now: int, cfg: LegacyConfig, extract: Submission -> Extraction)
    requires sub.id !in s.posted && extract(sub).Downloaded?
    ensures ProcessLegacy(s, [sub], now, cfg, extract)
            == LegacyResult(LegacyState(s.posted + {sub.id}, s.queue + [QueueEntry(now, Some(extract(sub).path), sub.id)]),
                            [Browser.Dispatch(sub.id, extract(sub).path, extract(sub).mediaType, cfg.channel, sub.title)], None)
  {
    assert [sub][1..] == [];
  }

  /** The older extraction, corrected, downloads the sample imgur picture as an image. */
  lemma LegacyImgurPictureDownloads(cfg: LegacyConfig)
    ensures LegacyExtract(Browser.ImgurPicture, cfg, Browser.SniffNothing) == Downloaded(cfg.tmpDir + "/abc" + "." + "jpg", Image)
  {
    var sub := Browser.ImgurPicture;
    assert !Text.StartsWith(sub.url.value, ImgurHttpHost) by {
      assert sub.url.value[4] != ImgurHttpHost[4];
    }
    assert !Text.StartsWith(sub.url.value, VRedditPrefix) by {
      assert sub.url.value[8] != VRedditPrefix[8];
    }
    LegacyAgreesWithCurrent(sub, cfg.tmpDir);
    Browser.ImgurPictureDownloads(Browser.Config(cfg.channel, cfg.browseDelay, 0, cfg.tmpDir));
  }

  /**
    Corrected, the same picture is marked, queued with its file and
    reposted as an image; the state stays valid.
  */
  lemma LegacyCorrectedImgurReposted(cfg: LegacyConfig, now: int)
    ensures var path := cfg.tmpDir + "/abc" + "." + "jpg";
            ProcessLegacy(Initial, [Browser.ImgurPicture], now, cfg, x => LegacyExtract(x, cfg, Browser.SniffNothing))
            == LegacyResult(LegacyState({"abc"}, [QueueEntry(now, Some(path), "abc")]),
                            [Browser.Dispatch("abc", path, Image, cfg.channel, "t")], None)
    ensures Valid(LegacyState({"abc"}, [QueueEntry(now, Some(cfg.tmpDir + "/abc" + "." + "jpg"), "abc")]), now)
  {
    LegacyImgurPictureDownloads(cfg);
    LegacyFreshSingle(Initial, Browser.ImgurPicture, now, cfg, x => LegacyExtract(x, cfg, Browser.SniffNothing));
    var q := [QueueEntry(now, Some(cfg.tmpDir + "/abc" + "." + "jpg"), "abc")];
    assert Initial.queue + q == q;
    assert QueueIds(q) == {"abc"} by {
      assert q[0].id == "abc";
    }
  }

  /**
    Soundness of the sends: each one carries a submission of the feed whose
    media was downloaded (its id, title, file and type) to the configured
    channel.
  */
  lemma {:induction false} LegacySendsFromFeed(s: LegacyState, subs: seq<Submission>, now: int, cfg: LegacyConfig,
                                               extract: Submission -> Extraction, i: int)
    requires 0 <= i < |ProcessLegacy(s, subs, now, cfg, extract).sends|
    ensures var d := ProcessLegacy(s, subs, now, cfg, extract).sends[i];
            Browser.FromFeed(subs, d, extract) && d.chatTitle == cfg.channel
    decreases |subs|, 1
  {
    var r := ProcessLegacy(s, subs, now, cfg, extract);
    var d := r.sends[i];
    var sub := subs[0];
    if sub.id in s.posted {
      assert r == ProcessLegacy(s, subs[1..], now, cfg, extract);
      LegacySendsFromFeed(s, subs[1..], now, cfg, extract, i);
      Browser.ShiftWitness(subs, d, extract);
    } else if extract(sub).ExtractRaised? {
      assert false;
    } else {
      LegacySendsFromFeedFresh(s, subs, now, cfg, extract, i);
    }
  }

  /** `LegacySendsFromFeed` when the first submission is new and its extraction did not raise. */
  lemma {:induction false} LegacySendsFromFeedFresh(s: LegacyState, subs: seq<Submission>, now: int, cfg: LegacyConfig,
                                                    extract: Submission -> Extraction, i: int)
    requires |subs| > 0 && subs[0].id !in s.posted && !extract(subs[0]).ExtractRaised?
    requires 0 <= i < |ProcessLegacy(s, subs, now, cfg, extract).sends|
    ensures var d := ProcessLegacy(s, subs, now, cfg, extract).sends[i];
            Browser.FromFeed(subs, d, extract) && d.chatTitle == cfg.channel
    decreases |subs|, 0
  {
    var sub := subs[0];
    var r := ProcessLegacy(s, subs, now, cfg, extract);
    var d := r.sends[i];
    var next := LegacyState(s.posted + {sub.id}, s.queue + [EntryOf(sub, extract(sub), now)]);
    var rest := ProcessLegacy(next, subs[1..], now, cfg, extract);
    var here := if extract(sub).Downloaded? then 1 else 0;
    assert r.sends[here..] == rest.sends;
    if i < here {
      assert Browser.FromFeed(subs, d, extract) by {
        assert subs[0].id == d.submissionId;
      }
    } else {
      assert d == rest.sends[i - here];
      LegacySendsFromFeed(next, subs[1..], now, cfg, extract, i - here);
      Browser.ShiftWitness(subs, d, extract);
    }
  }

  /**
    Completeness of the sends: unless an extraction raised, the first
    occurrence in the feed of an id not posted before the cycle is sent
    when its media downloads.  A later repeat of the id is skipped, as the
    id joined the posted set at its first occurrence.
  */
  lemma {:induction false} LegacySendsEveryFreshDownload(s: LegacyState, subs: seq<Submission>, now: int,
                                                         cfg: LegacyConfig, extract: Submission -> Extraction, k: int)
    requires 0 <= k < |subs| && subs[k].id !in s.posted && extract(subs[k]).Downloaded?
    requires forall j :: 0 <= j < k ==> subs[j].id != subs[k].id
    ensures var r := ProcessLegacy(s, subs, now, cfg, extract);
            r.crash.None? ==>
              Browser.Dispatch(subs[k].id, extract(subs[k]).path, extract(subs[k]).mediaType, cfg.channel, subs[k].title)
              in r.sends
    decreases |subs|
  {
    var sub := subs[0];
    if k > 0 {
      assert subs[1..][k - 1] == subs[k];
      assert sub.id != subs[k].id;
      assert forall j :: 0 <= j < k - 1 ==> subs[1..][j] == subs[j + 1];
      if sub.id in s.posted {
        LegacySendsEveryFreshDownload(s, subs[1..], now, cfg, extract, k - 1);
      } else if !extract(sub).ExtractRaised? {
        var next := LegacyState(s.posted + {sub.id}, s.queue + [EntryOf(sub, extract(sub), now)]);
        LegacySendsEveryFreshDownload(next, subs[1..], now, cfg, extract, k - 1);
      }
    }
  }

  /**
    A queue that keeps the cleaned queue as its prefix and adds only
    entries timed `now` holds no expired entry, when the browse delay is
    not negative.
  */
  lemma LegacyCycleAfterCleanup(s: LegacyState, q: seq<QueueEntry>, now: int, browseDelay: int)
    ensures var cq := Cleanup(s, now, browseDelay).state.queue;
            Valid(s, now) && browseDelay >= 0 && |cq| <= |q| && q[..|cq|] == cq
            && (forall i :: |cq| <= i < |q| ==> q[i].time == now)
            ==> forall i :: 0 <= i < |q| ==> !ExpiredEntry(q[i], now, browseDelay)
  {
    var cq := Cleanup(s, now, browseDelay).state.queue;
    if Valid(s, now) && browseDelay >= 0 && |cq| <= |q| && q[..|cq|] == cq {
      CleanupKeepsValid(s, now, browseDelay);
      forall i | 0 <= i < |q| && i < |cq| ensures q[i] == cq[i] {
        assert q[..|cq|][i] == q[i];
      }
    }
  }

  /** What one poll of the older browser does: the state, the files removed, the sends, and an escaping exception. */
  datatype LegacyCycleResult = LegacyCycleResult(state: LegacyState, removed: seq<string>, sends: seq<Browser.Dispatch>,
                                                 crash: Option<LegacyCrash>)

  /**
    One POLL of the older browser: clean up the queue, fetch (a
    `ServerError` escapes), then process the submissions.  From a valid
    state the cleanup succeeds and removes the files of exactly the
    expired prefix; afterwards no expired entry is left.
  */
  function LegacyCycle(s: LegacyState, fetch: Browser.Fetch, now: int, cfg: LegacyConfig,
                       sniff: string -> Option<string>): (r: LegacyCycleResult)
    ensures fetch.ServerError? ==> r.sends == [] && r.crash.Some?
    ensures Valid(s, now) && r.crash.None? ==> Valid(r.state, now)
    ensures Valid(s, now) ==> r.crash.None? || !r.crash.value.CleanupFailed?
    ensures Valid(s, now) ==> r.removed == QueuePaths(s.queue[..ExpiredPrefixLength(s.queue, now, cfg.browseDelay)])
    ensures Valid(s, now) && r.crash.None? && cfg.browseDelay >= 0 ==>
              forall i :: 0 <= i < |r.state.queue| ==> !ExpiredEntry(r.state.queue[i], now, cfg.browseDelay)
  {
    var c := Cleanup(s, now, cfg.browseDelay);
    match c.crash
    case Some(e) => LegacyCycleResult(c.state, c.removed, [], Some(CleanupFailed(e)))
    case None =>
      CleanupKeepsValidIfValid(s, now, cfg.browseDelay);
      match fetch
      case ServerError => LegacyCycleResult(c.state, c.removed, [], Some(FetchFailed))
      case Fetched(subs) =>
        var p := ProcessLegacy(c.state, subs, now, cfg, x => LegacyExtract(x, cfg, sniff));
        ProcessLegacyKeepsValid(c.state, subs, now, cfg, x => LegacyExtract(x, cfg, sniff));
        LegacyCycleAfterCleanup(s, p.state.queue, now, cfg.browseDelay);
        LegacyCycleResult(p.state, c.removed, p.sends, p.crash)
  }

  /**
    Every submission id of a cycle's feed is marked, even one that cannot
    be resolved, and gets exactly one queue entry.
  */
  lemma EveryNewIdQueuedOnce(s: LegacyState, subs: seq<Submission>, now: int, cfg: LegacyConfig,
                             extract: Submission -> Extraction, k: nat)
    requires Valid(s, now)
    requires k < |subs| && subs[k].id !in s.posted
    requires ProcessLegacy(s, subs, now, cfg, extract).crash.None?
    ensures var q := ProcessLegacy(s, subs, now, cfg, extract).state.queue;
            exists i :: |s.queue| <= i < |q| && q[i].id == subs[k].id
                        && forall j :: 0 <= j < |q| && j != i ==> q[j].id != subs[k].id
  {
    var r := ProcessLegacy(s, subs, now, cfg, extract);
    var q := r.state.queue;
    assert subs[k].id in QueueIds(q[|s.queue|..]);
    var i :| 0 <= i < |q[|s.queue|..]| && q[|s.queue|..][i].id == subs[k].id;
    assert q[|s.queue| + i].id == subs[k].id;
    ProcessLegacyKeepsValid(s, subs, now, cfg, extract);
    assert Valid(r.state, now);
  }
}
