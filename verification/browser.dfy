/**
  The newer `SubredditBrowser` (src/reddit/subreddit_browser.py): one poll
  cycle of `_browse_subreddit` as a pure transition over the retention
  store, the POLL/WAIT timer around it, and the delivery callback
  `_process_message_sent`.  The clock is the parameter `now`; feed fetches
  and content sniffing are parameters too.
*/
module Browser {
  import opened Maybe
  import opened MediaTypes
  import opened Resolver
  import opened Retention
  import Delivery

  /** The browser's settings: `telegram_channel`, `browse_delay`, `cleanup_delay`, `tmp_dir`. */
  datatype Config = Config(channel: string, browseDelay: int, cleanupDelay: int, tmpDir: string)

  /** What `subreddit.top('day', limit=top_num)` gave this cycle. */
  datatype Fetch = Fetched(submissions: seq<Submission>) | ServerError

  /** One `send_media_message(file_path, media_type, chat_title=..., caption=title)` call. */
  datatype Dispatch = Dispatch(submissionId: string, path: string, mediaType: MediaType, chatTitle: string, caption: string)

  /** The externally visible steps of a cycle, in the order they happen. */
  datatype Effect =
    | Marked(id: string, time: int)   // `sadd` + `hset` into the retention store
    | Sent(dispatch: Dispatch)

  /** An exception that escapes the cycle and ends the browsing thread. */
  datatype Crash = SweepFailed | ExtractFailed(error: PyError)

  datatype CycleResult = CycleResult(store: Store, effects: seq<Effect>, crash: Option<Crash>)

  predicate SentAt(effects: seq<Effect>, i: int) {
    0 <= i < |effects| && effects[i].Sent?
  }

  /** The submission ids sent in `effects`. */
  function SentIds(effects: seq<Effect>): set<string> {
    set i | 0 <= i < |effects| && effects[i].Sent? :: effects[i].dispatch.submissionId
  }

  /** Every send is immediately preceded by marking the same id at `now`, and every mark is followed by its send. */
  ghost predicate MarkedBeforeSent(effects: seq<Effect>, now: int) {
    && (forall i :: SentAt(effects, i) ==> 1 <= i && effects[i - 1] == Marked(effects[i].dispatch.submissionId, now))
    && (forall i :: 0 <= i < |effects| && effects[i].Marked? ==>
          i + 1 < |effects| && effects[i + 1].Sent? && effects[i + 1].dispatch.submissionId == effects[i].id)
  }

  /** No submission id is sent twice. */
  ghost predicate DistinctSends(effects: seq<Effect>) {
    forall i, j :: SentAt(effects, i) && SentAt(effects, j) && i < j ==>
      effects[i].dispatch.submissionId != effects[j].dispatch.submissionId
  }

  /** `_extract_media` of the newer browser: resolve, then download. */
  function Extract(sub: Submission, cfg: Config, sniff: string -> Option<string>): Extraction {
    Materialize(Resolve(sub, cfg.tmpDir), sniff)
  }

  /** Marking an id and sending it adds exactly that id to the sent ids. */
  lemma SentIdsPrepend(d: Dispatch, now: int, rest: seq<Effect>)
    ensures SentIds([Marked(d.submissionId, now), Sent(d)] + rest) == {d.submissionId} + SentIds(rest)
  {
    var effects := [Marked(d.submissionId, now), Sent(d)] + rest;
    forall id | id in SentIds(effects) ensures id in {d.submissionId} + SentIds(rest) {
      var i :| 0 <= i < |effects| && effects[i].Sent? && effects[i].dispatch.submissionId == id;
      if i >= 2 {
        assert effects[i] == rest[i - 2];
      }
    }
    forall id | id in SentIds(rest) ensures id in SentIds(effects) {
      var i :| 0 <= i < |rest| && rest[i].Sent? && rest[i].dispatch.submissionId == id;
      assert effects[i + 2] == rest[i];
    }
    assert effects[1].Sent?;
  }

  /** Prepending a mark and its send keeps every send right after its mark. */
  lemma MarkedBeforeSentPrepend(d: Dispatch, now: int, rest: seq<Effect>)
    requires MarkedBeforeSent(rest, now)
    ensures MarkedBeforeSent([Marked(d.submissionId, now), Sent(d)] + rest, now)
  {
    var effects := [Marked(d.submissionId, now), Sent(d)] + rest;
    forall i | SentAt(effects, i) ensures 1 <= i && effects[i - 1] == Marked(effects[i].dispatch.submissionId, now) {
      if i >= 2 {
        assert SentAt(rest, i - 2);
        if i >= 3 {
          assert effects[i - 1] == rest[i - 3];
        }
      }
    }
    forall i | 0 <= i < |effects| && effects[i].Marked?
      ensures i + 1 < |effects| && effects[i + 1].Sent? && effects[i + 1].dispatch.submissionId == effects[i].id
    {
      if i >= 2 {
        assert effects[i] == rest[i - 2];
        assert effects[i + 1] == rest[i - 1];
      }
    }
  }

  /**
    The `for submission in submissions` loop: posted ids are skipped,
    unresolved submissions are skipped without being marked, resolved ones
    are marked with time `now` and then sent; an exception from
    `_extract_media` (here `extract`) stops the loop.
  */
  function ProcessSubmissions(store: Store, subs: seq<Submission>, now: int, cfg: Config,
                              extract: Submission -> Extraction): (r: CycleResult)
    ensures r.store.posted == store.posted + SentIds(r.effects)
    ensures forall i :: SentAt(r.effects, i) ==> r.effects[i].dispatch.submissionId !in store.posted
    ensures forall id :: id in SentIds(r.effects) ==> id in r.store.postTime && r.store.postTime[id] == now
    ensures forall id :: id !in SentIds(r.effects) ==>
              (id in r.store.postTime <==> id in store.postTime)
              && (id in store.postTime ==> r.store.postTime[id] == store.postTime[id])
    ensures Consistent(store) ==> Consistent(r.store)
    ensures MarkedBeforeSent(r.effects, now)
    ensures r.crash.Some? ==> r.crash.value.ExtractFailed?
    decreases |subs|
  {
    if |subs| == 0 then CycleResult(store, [], None)
    else
      var sub := subs[0];
      if sub.id in store.posted then ProcessSubmissions(store, subs[1..], now, cfg, extract)
      else
        match extract(sub)
        case ExtractRaised(e) => CycleResult(store, [], Some(ExtractFailed(e)))
        case NoMedia => ProcessSubmissions(store, subs[1..], now, cfg, extract)
        case Downloaded(path, mediaType) =>
          var rest := ProcessSubmissions(MarkPosted(store, sub.id, now), subs[1..], now, cfg, extract);
          var d := Dispatch(sub.id, path, mediaType, cfg.channel, sub.title);
          var effects := [Marked(sub.id, now), Sent(d)] + rest.effects;
          SentIdsPrepend(d, now, rest.effects);
          MarkedBeforeSentPrepend(d, now, rest.effects);
          assert forall i :: 2 <= i < |effects| ==> effects[i] == rest.effects[i - 2];
          CycleResult(rest.store, effects, rest.crash)
  }

  /** No id is sent twice within one cycle, even when the feed repeats it. */
  lemma {:induction false} ProcessSendsDistinct(store: Store, subs: seq<Submission>, now: int, cfg: Config,
                                                extract: Submission -> Extraction)
    ensures DistinctSends(ProcessSubmissions(store, subs, now, cfg, extract).effects)
    decreases |subs|
  {
    if |subs| > 0 {
      var sub := subs[0];
      if sub.id in store.posted {
        ProcessSendsDistinct(store, subs[1..], now, cfg, extract);
      } else {
        match extract(sub)
        case ExtractRaised(e) =>
        case NoMedia =>
          ProcessSendsDistinct(store, subs[1..], now, cfg, extract);
        case Downloaded(path, mediaType) =>
          var marked := MarkPosted(store, sub.id, now);
          var rest := ProcessSubmissions(marked, subs[1..], now, cfg, extract);
          ProcessSendsDistinct(marked, subs[1..], now, cfg, extract);
          var d := Dispatch(sub.id, path, mediaType, cfg.channel, sub.title);
          // rest never sends an id that `marked` already holds
          assert forall j :: SentAt(rest.effects, j) ==> rest.effects[j].dispatch.submissionId != d.submissionId;
          FreshSendStaysDistinct(d, now, rest.effects);
      }
    }
  }

  /** Prepending the mark and send of an id the rest never sends keeps sends distinct. */
  lemma FreshSendStaysDistinct(d: Dispatch, now: int, rest: seq<Effect>)
    requires DistinctSends(rest)
    requires forall j :: SentAt(rest, j) ==> rest[j].dispatch.submissionId != d.submissionId
    ensures DistinctSends([Marked(d.submissionId, now), Sent(d)] + rest)
  {
    var effects := [Marked(d.submissionId, now), Sent(d)] + rest;
    forall i, j | SentAt(effects, i) && SentAt(effects, j) && i < j
      ensures effects[i].dispatch.submissionId != effects[j].dispatch.submissionId
    {
      assert effects[j] == rest[j - 2];
      if i >= 2 {
        assert effects[i] == rest[i - 2];
      } else {
        assert SentAt(rest, j - 2);
      }
    }
  }

  /** `d` repeats a submission of `subs` whose media `extract` downloaded: its id, title, file and type. */
  ghost predicate FromFeed(subs: seq<Submission>, d: Dispatch, extract: Submission -> Extraction) {
    exists k :: 0 <= k < |subs| && subs[k].id == d.submissionId && subs[k].title == d.caption
                && extract(subs[k]) == Downloaded(d.path, d.mediaType)
  }

  /**
    Every send carries a submission of this fetch whose media was
    downloaded: its file, its detected type, its title as caption, and the
    configured channel as chat title.
  */
  lemma {:induction false} ProcessSendsOnlyDownloaded(store: Store, subs: seq<Submission>, now: int, cfg: Config,
                                                      extract: Submission -> Extraction, i: int)
    requires SentAt(ProcessSubmissions(store, subs, now, cfg, extract).effects, i)
    ensures var d := ProcessSubmissions(store, subs, now, cfg, extract).effects[i].dispatch;
            FromFeed(subs, d, extract) && d.chatTitle == cfg.channel
    decreases |subs|, 1
  {
    var r := ProcessSubmissions(store, subs, now, cfg, extract);
    var d := r.effects[i].dispatch;
    var sub := subs[0];
    if sub.id in store.posted {
      assert r == ProcessSubmissions(store, subs[1..], now, cfg, extract);
      ProcessSendsOnlyDownloaded(store, subs[1..], now, cfg, extract, i);
      ShiftWitness(subs, d, extract);
    } else {
      match extract(sub)
      case ExtractRaised(e) =>
        assert false;
      case NoMedia =>
        assert r == ProcessSubmissions(store, subs[1..], now, cfg, extract);
        ProcessSendsOnlyDownloaded(store, subs[1..], now, cfg, extract, i);
        ShiftWitness(subs, d, extract);
      case Downloaded(path, mediaType) =>
        SendsOnlyDownloadedFresh(store, subs, now, cfg, extract, i);
    }
  }

  /** `ProcessSendsOnlyDownloaded` when the first submission is fresh and its media downloads. */
  lemma {:induction false} SendsOnlyDownloadedFresh(store: Store, subs: seq<Submission>, now: int, cfg: Config,
                                                    extract: Submission -> Extraction, i: int)
    requires |subs| > 0 && subs[0].id !in store.posted && extract(subs[0]).Downloaded?
    requires SentAt(ProcessSubmissions(store, subs, now, cfg, extract).effects, i)
    ensures var d := ProcessSubmissions(store, subs, now, cfg, extract).effects[i].dispatch;
            FromFeed(subs, d, extract) && d.chatTitle == cfg.channel
    decreases |subs|, 0
  {
    var sub := subs[0];
    var r := ProcessSubmissions(store, subs, now, cfg, extract);
    var d := r.effects[i].dispatch;
    var marked := MarkPosted(store, sub.id, now);
    var rest := ProcessSubmissions(marked, subs[1..], now, cfg, extract);
    var first := Dispatch(sub.id, extract(sub).path, extract(sub).mediaType, cfg.channel, sub.title);
    assert r.effects == [Marked(sub.id, now), Sent(first)] + rest.effects;
    if i >= 2 {
      assert r.effects[i] == rest.effects[i - 2];
      ProcessSendsOnlyDownloaded(marked, subs[1..], now, cfg, extract, i - 2);
      ShiftWitness(subs, d, extract);
    } else {
      assert d == first;
      assert FromFeed(subs, d, extract) by {
        assert subs[0].id == d.submissionId;
      }
    }
  }

  /** A witness found in the tail of the feed is a witness in the whole feed. */
  lemma ShiftWitness(subs: seq<Submission>, d: Dispatch, extract: Submission -> Extraction)
    requires |subs| > 0
    requires FromFeed(subs[1..], d, extract)
    ensures FromFeed(subs, d, extract)
  {
    var k :| 0 <= k < |subs[1..]| && subs[1..][k].id == d.submissionId && subs[1..][k].title == d.caption
             && extract(subs[1..][k]) == Downloaded(d.path, d.mediaType);
    assert subs[k + 1] == subs[1..][k];
  }

  /**
    Completeness: unless an extraction raised, every submission of the
    feed that was not posted before the cycle and whose media downloads is
    sent in this cycle, and its post time is `now`.  A repeated id is sent
    by its first downloadable occurrence.
  */
  lemma {:induction false} ProcessSendsEveryFreshDownload(store: Store, subs: seq<Submission>, now: int, cfg: Config,
                                                          extract: Submission -> Extraction, k: int)
    requires 0 <= k < |subs| && subs[k].id !in store.posted && extract(subs[k]).Downloaded?
    ensures var r := ProcessSubmissions(store, subs, now, cfg, extract);
            r.crash.None? ==> subs[k].id in SentIds(r.effects) && r.store.postTime[subs[k].id] == now
    decreases |subs|
  {
    var r := ProcessSubmissions(store, subs, now, cfg, extract);
    var sub := subs[0];
    if sub.id in store.posted {
      assert subs[1..][k - 1] == subs[k];
      ProcessSendsEveryFreshDownload(store, subs[1..], now, cfg, extract, k - 1);
    } else {
      match extract(sub)
      case ExtractRaised(e) =>
      case NoMedia =>
        assert subs[1..][k - 1] == subs[k];
        ProcessSendsEveryFreshDownload(store, subs[1..], now, cfg, extract, k - 1);
      case Downloaded(path, mediaType) =>
        var marked := MarkPosted(store, sub.id, now);
        var rest := ProcessSubmissions(marked, subs[1..], now, cfg, extract);
        var d := Dispatch(sub.id, path, mediaType, cfg.channel, sub.title);
        SentIdsPrepend(d, now, rest.effects);
        if subs[k].id != sub.id {
          assert subs[1..][k - 1] == subs[k];
          ProcessSendsEveryFreshDownload(marked, subs[1..], now, cfg, extract, k - 1);
        }
    }
  }

  /** A single fresh submission with downloaded media is marked, then sent. */
  lemma ProcessFreshSingle(store: Store, sub: Submission, now: int, cfg: Config, extract: Submission -> Extraction)
    requires sub.id !in store.posted && extract(sub).Downloaded?
    ensures var r := ProcessSubmissions(store, [sub], now, cfg, extract);
            r.effects == [Marked(sub.id, now),
                          Sent(Dispatch(sub.id, extract(sub).path, extract(sub).mediaType, cfg.channel, sub.title))]
            && r.store == MarkPosted(store, sub.id, now) && r.crash.None?
  {
    assert [sub][1..] == [];
    assert ProcessSubmissions(MarkPosted(store, sub.id, now), [], now, cfg, extract).effects == [];
  }

  /**
    A cycle whose extraction never hands back a file marks nothing and
    sends nothing: the store leaves it as it came in.
  */
  lemma {:induction false} NoDownloadNoSends(store: Store, subs: seq<Submission>, now: int, cfg: Config,
                                             extract: Submission -> Extraction)
    requires forall s :: !extract(s).Downloaded?
    ensures var r := ProcessSubmissions(store, subs, now, cfg, extract);
            r.effects == [] && r.store == store
    decreases |subs|
  {
    if |subs| > 0 && (subs[0].id in store.posted || extract(subs[0]).NoMedia?) {
      NoDownloadNoSends(store, subs[1..], now, cfg, extract);
    }
  }

  /** `_extract_media` of the newer browser as written, ending in `AttributeError` after every download. */
  function ExtractAsWritten(sub: Submission, cfg: Config, sniff: string -> Option<string>): (e: Extraction)
    ensures !e.Downloaded?
    ensures Resolve(sub, cfg.tmpDir).Resolved? ==> e == ExtractRaised(AttributeError)
  {
    MaterializeAsWritten(Resolve(sub, cfg.tmpDir), sniff)
  }

  /** Content sniffing that recognises nothing, so every download keeps its default extension. */
  function SniffNothing(url: string): Option<string> {
    None
  }

  /** A feed holding one imgur picture. */
  const ImgurPicture := Submission("abc", Some(ImgurPattern + "abc" + "." + "jpg"), "t", None)

  /** The picture resolves to imgur's own URL, saved under its id with `jpg` as default. */
  lemma ImgurPictureResolves(tmpDir: string)
    ensures Resolve(ImgurPicture, tmpDir) == Resolved(Target("https://i.imgur.com/" + "abc" + "." + "jpg", tmpDir + "/abc", "jpg"))
  {
    ImgurImageResolves(ImgurPicture, "abc", "jpg", tmpDir);
  }

  /** The corrected extraction downloads the picture as an image. */
  lemma ImgurPictureDownloads(cfg: Config)
    ensures Resolve(ImgurPicture, cfg.tmpDir).Resolved?
    ensures Extract(ImgurPicture, cfg, SniffNothing) == Downloaded(cfg.tmpDir + "/abc" + "." + "jpg", Image)
  {
    ImgurPictureResolves(cfg.tmpDir);
    var base := cfg.tmpDir + "/abc";
    var t := Target("https://i.imgur.com/" + "abc" + "." + "jpg", base, "jpg");
    var path := base + "." + "jpg";
    assert DownloadMedia(t, SniffNothing(t.downloadUrl)) == path;
    MediaTypeOfAppended(base, "jpg");
  }

  /**
    As written, the first fresh submission with downloadable media ends
    the browsing thread: a single imgur picture crashes the cycle with
    `AttributeError` and nothing is reposted.
  */
  lemma AsWrittenImgurCrashes(cfg: Config, now: int)
    ensures var r := ProcessSubmissions(EmptyStore, [ImgurPicture], now, cfg, s => ExtractAsWritten(s, cfg, SniffNothing));
            r.crash == Some(ExtractFailed(AttributeError)) && r.effects == []
  {
    ImgurPictureDownloads(cfg);
  }

  /** The corrected cycle marks and reposts that picture as an image. */
  lemma CorrectedImgurReposted(cfg: Config, now: int)
    ensures var r := ProcessSubmissions(EmptyStore, [ImgurPicture], now, cfg, s => Extract(s, cfg, SniffNothing));
            r.crash.None?
            && r.effects == [Marked("abc", now), Sent(Dispatch("abc", cfg.tmpDir + "/abc" + "." + "jpg", Image, cfg.channel, "t"))]
  {
    ImgurPictureDownloads(cfg);
    ProcessFreshSingle(EmptyStore, ImgurPicture, now, cfg, s => Extract(s, cfg, SniffNothing));
  }

  /**
    One POLL: sweep the store, fetch (a `ServerError` reads as no
    submissions), then process the submissions.  A sweep that meets a
    posted id without a time raises before anything is fetched.
  */
  function PollCycle(store: Store, fetch: Fetch, now: int, cfg: Config, sniff: string -> Option<string>): (r: CycleResult)
    ensures !Consistent(store) <==> r.crash == Some(SweepFailed)
    ensures !Consistent(store) ==> r.effects == [] && r.store == store
    ensures Consistent(store) ==> Consistent(r.store)
    ensures Consistent(store) && fetch.ServerError? ==> r.effects == [] && r.crash.None?
    ensures MarkedBeforeSent(r.effects, now)
    ensures Consistent(store) ==>
              forall id :: id in store.posted && Expired(store, id, now, cfg.cleanupDelay) && id !in SentIds(r.effects)
                           ==> id !in r.store.posted && id !in r.store.postTime
    ensures Consistent(store) ==>
              forall id :: id in store.posted && !Expired(store, id, now, cfg.cleanupDelay)
                           ==> id in r.store.posted && r.store.postTime[id] == store.postTime[id]
  {
    match Sweep(store, now, cfg.cleanupDelay)
    case None => CycleResult(store, [], Some(SweepFailed))
    case Some(swept) =>
      var subs := if fetch.ServerError? then [] else fetch.submissions;
      ProcessSubmissions(swept, subs, now, cfg, s => Extract(s, cfg, sniff))
  }

  /**
    An id posted within the cleanup delay is never sent again, and no id
    is sent twice in one cycle.
  */
  lemma CycleNeverResends(store: Store, fetch: Fetch, now: int, cfg: Config, sniff: string -> Option<string>, id: string)
    requires Consistent(store)
    requires id in store.posted && !Expired(store, id, now, cfg.cleanupDelay)
    ensures id !in SentIds(PollCycle(store, fetch, now, cfg, sniff).effects)
    ensures DistinctSends(PollCycle(store, fetch, now, cfg, sniff).effects)
  {
    var swept := Sweep(store, now, cfg.cleanupDelay).value;
    assert id in swept.posted;
    var subs := if fetch.ServerError? then [] else fetch.submissions;
    ProcessSendsDistinct(swept, subs, now, cfg, s => Extract(s, cfg, sniff));
  }

  /**
    A swept id is eligible again: wherever it appears in the feed, a cycle
    in which no extraction raises reposts it at `now` once its media
    downloads.
  */
  lemma SweptIdIsReposted(store: Store, subs: seq<Submission>, k: int, now: int, cfg: Config,
                          sniff: string -> Option<string>)
    requires Consistent(store)
    requires 0 <= k < |subs|
    requires subs[k].id in store.posted && Expired(store, subs[k].id, now, cfg.cleanupDelay)
    requires Extract(subs[k], cfg, sniff).Downloaded?
    ensures var r := PollCycle(store, Fetched(subs), now, cfg, sniff);
            r.crash.None? ==> subs[k].id in SentIds(r.effects) && r.store.postTime[subs[k].id] == now
  {
    var swept := Sweep(store, now, cfg.cleanupDelay).value;
    assert subs[k].id !in swept.posted;
    ProcessSendsEveryFreshDownload(swept, subs, now, cfg, s => Extract(s, cfg, sniff), k);
  }

  /** A swept id alone in the feed is marked and sent, and nothing else happens. */
  lemma SweptIdRepostedAlone(store: Store, sub: Submission, now: int, cfg: Config, sniff: string -> Option<string>)
    requires Consistent(store)
    requires sub.id in store.posted && Expired(store, sub.id, now, cfg.cleanupDelay)
    requires Extract(sub, cfg, sniff).Downloaded?
    ensures var r := PollCycle(store, Fetched([sub]), now, cfg, sniff);
            r.effects == [Marked(sub.id, now),
                          Sent(Dispatch(sub.id, Extract(sub, cfg, sniff).path, Extract(sub, cfg, sniff).mediaType,
                                        cfg.channel, sub.title))]
            && r.store.postTime[sub.id] == now
  {
    var swept := Sweep(store, now, cfg.cleanupDelay).value;
    assert sub.id !in swept.posted;
    ProcessFreshSingle(swept, sub, now, cfg, s => Extract(s, cfg, sniff));
  }

  // ---- The POLL/WAIT loop ---------------------------------------------------

  datatype Phase =
    | Polling                    // `post = True`
    | Waiting(lastPostTime: int) // `post = False`
    | Stopped                    // the stop event was seen
    | Died(crash: Crash)         // an exception ended the thread

  datatype BrowserState = BrowserState(phase: Phase, store: Store)
  datatype StepResult = StepResult(state: BrowserState, effects: seq<Effect>)

  /** A fresh browser polls on its first iteration. */
  function Start(store: Store): BrowserState {
    BrowserState(Polling, store)
  }

  /**
    One iteration of `while not self._browse_stop.is_set()`.  A poll sets
    `last_post_time` to `now`; a wait moves back to polling only once
    strictly more than `browse_delay` has elapsed, and otherwise sleeps.
  */
  function Step(b: BrowserState, stopRequested: bool, now: int, fetch: Fetch, cfg: Config,
                sniff: string -> Option<string>): (r: StepResult)
    ensures b.phase.Stopped? || b.phase.Died? ==> r == StepResult(b, [])
    ensures stopRequested && !b.phase.Died? ==> r == StepResult(BrowserState(Stopped, b.store), [])
    ensures !stopRequested && b.phase.Waiting? ==>
              r.effects == [] && r.state.store == b.store
              && (r.state.phase.Polling? <==> now - b.phase.lastPostTime > cfg.browseDelay)
              && (!r.state.phase.Polling? ==> r.state == b)
    ensures !stopRequested && b.phase.Polling? ==> r.state.phase.Waiting? || r.state.phase.Died?
    ensures r.state.phase.Waiting? && b.phase.Polling? ==> r.state.phase.lastPostTime == now
    ensures !stopRequested && b.phase.Polling? ==>
              var c := PollCycle(b.store, fetch, now, cfg, sniff);
              r.effects == c.effects && r.state.store == c.store
              && (r.state.phase.Died? <==> c.crash.Some?)
              && (c.crash.Some? ==> r.state.phase.crash == c.crash.value)
  {
    match b.phase
    case Stopped => StepResult(b, [])
    case Died(_) => StepResult(b, [])
    case Polling =>
      if stopRequested then StepResult(BrowserState(Stopped, b.store), [])
      else
        var c := PollCycle(b.store, fetch, now, cfg, sniff);
        var next := match c.crash
          case Some(crash) => Died(crash)
          case None => Waiting(now);
        StepResult(BrowserState(next, c.store), c.effects)
    case Waiting(lastPostTime) =>
      if stopRequested then StepResult(BrowserState(Stopped, b.store), [])
      else if now - lastPostTime > cfg.browseDelay then StepResult(BrowserState(Polling, b.store), [])
      else StepResult(b, [])
  }

  /** The loop keeps the store consistent across any sequence of iterations. */
  lemma StepKeepsConsistent(b: BrowserState, stopRequested: bool, now: int, fetch: Fetch, cfg: Config,
                            sniff: string -> Option<string>)
    requires Consistent(b.store)
    ensures Consistent(Step(b, stopRequested, now, fetch, cfg, sniff).state.store)
  {
  }

  /**
    With a one-hour browse delay, a browser that polled at time 0 does not
    poll again at time 1800, and a stop requested then ends it for good.
  */
  lemma StopDuringWaitPreventsPolling(store: Store, fetch: Fetch, cfg: Config, sniff: string -> Option<string>,
                                      later: int, laterFetch: Fetch)
    requires cfg.browseDelay == 3600
    ensures Step(BrowserState(Waiting(0), store), false, 1800, fetch, cfg, sniff)
            == StepResult(BrowserState(Waiting(0), store), [])
    ensures var stopped := Step(BrowserState(Waiting(0), store), true, 1800, fetch, cfg, sniff).state;
            Step(stopped, false, later, laterFetch, cfg, sniff) == StepResult(stopped, [])
  {
  }

  // ---- Delivery confirmations -----------------------------------------------

  /**
    `_process_message_sent`: the path of the delivered message's local
    file, which is then removed.  Nothing is removed for other messages.
  */
  function ProcessMessageSent(m: Delivery.Message): (removed: seq<string>)
    ensures |removed| <= 1
    ensures m.content.OtherContent? ==> removed == []
    ensures m.content.MessageDocument? ==> removed == [m.content.document.local.path]
    ensures m.content.MessageAnimation? ==> removed == [m.content.animation.local.path]
    ensures m.content.MessageVideo? ==> removed == [m.content.video.local.path]
    ensures m.content.MessageAudio? ==> removed == [m.content.audio.local.path]
    ensures m.content.MessagePhoto? ==>
              (removed != [] <==> exists j :: 0 <= j < |m.content.sizes| && m.content.sizes[j].sizeType == "i")
    ensures m.content.MessagePhoto? && removed != [] ==>
              exists j :: 0 <= j < |m.content.sizes| && m.content.sizes[j].sizeType == "i"
                          && removed == [m.content.sizes[j].photo.local.path]
                          && forall k :: j < k < |m.content.sizes| ==> m.content.sizes[k].sizeType != "i"
  {
    match Delivery.MediaPath(m)
    case Some(path) => [path]
    case None => []
  }
}
