# ReddigramReposter core, modelled in Dafny

ReddigramReposter reads the daily "top" listing of a subreddit and
reposts its media to a Telegram channel. This project models the
sequential logic behind that pipeline as pure Dafny functions over sets,
maps and sequences, and proves properties of them.

Modules:

- `Resolver` (resolver.dfy) is `_extract_media` in both browser versions.
  It matches a submission URL against host prefixes and file suffixes.
  The result is a download target, nothing, or the exception
  `re.findall(...)[0]` raises. `Text` (text.dfy) models the regex
  fragment this needs: `^prefix(.+)tail`, with `.` stopping at a newline
  and `\w` as ASCII word characters.
- `Retention` (retention.dfy) is the newer browser's Redis posted set and
  post-time hash, plus the age sweep `_do_post_storage_cleanup`.
- `Browser` (browser.dfy) covers the newer browser:
  - one poll cycle (sweep, fetch, skip posted, extract, mark, send);
  - the POLL/WAIT loop as a step function;
  - the delivery callback `_process_message_sent`.
- `LegacyBrowser` (legacy_browser.dfy) covers the older browser: its
  in-memory posted set, the time-ordered clearance queue, the
  prefix-trimming cleanup, and its poll cycle.
- `Stats` (stats.dfy) is `StatCollector`:
  - increment-only counters in Redis hashes, for lifetime and per day;
  - the totals, day and week queries.

  `Calendar` (calendar.dfy) supplies the `datetime.date` arithmetic and
  the `YYYY-MM-DD` strings the week query uses.
- `MediaTypes` (media_types.dfy) holds `TelegramMediaType` and the
  extension rule `determine_media_type`, including the part of
  `os.path.splitext` that rule uses.
- `Telegram` (telegram.dfy) holds the pure parts of `TelegramWrapper`:
  - the authorization state machine and the guarded `set_tdlib_*` calls;
  - the `inputMessage*` contents;
  - chat selection in `send_*_message`;
  - the message-sent subscriber set and its notification.
- `Delivery` (delivery.dfy) is `TelegramHelper.extract_media_path`.
- `Maybe` (maybe.dfy) is `Option`, standing in for Python's `None`.

These outside effects are passed in as parameters:
- the clock, as `now` or `today`;
- the Reddit fetch, as a `Fetch` value;
- the content sniffing of the downloader, as a function from download URL
  to extension;
- the extraction step of the cycles, as a function.

Every message sent to TDLib becomes a `Request` value. Sizes are whole
thousandths of a megabyte.

Where the code and its design description disagree, the model follows the
code:
- A URL whose host test passes but whose `re.findall` finds nothing raises
  `IndexError`; the model does not return "no media" for it.
- The delivery handler calls `os.remove` on whatever `local['path']` holds,
  an empty path included. `Delivery.MediaPath` returns the path verbatim.
- The docstring of `set_tdlib_password` names `WAIT_MFA_CODE`, but the code
  checks `WAIT_PASSWORD`. `Telegram.Submit` follows the check.
- Two imports point at methods that do not exist. `TelegramHelper` has no
  `determine_media_type`, and neither does the old
  `telegram/TelegramWrapper.py`. See "Findings".

## Model

| member | source | states |
|---|---|---|
| Text.Capture | src/reddit/subreddit_browser.py:74 | a capture exists only after the prefix; it is non-empty, one line long, and a prefix of the text after the pattern's prefix |
| Text.CaptureLiteralRoundTrip | src/reddit/subreddit_browser.py:74 | for `prefix + id + lit` with a one-line, non-empty `id`, the greedy group captures exactly `id` |
| Text.CaptureRestRoundTrip | src/reddit/subreddit_browser.py:98 | `^prefix(.+)` on `prefix + id` captures `id` |
| Text.LastDotWordFromIs | src/reddit/subreddit_browser.py:104 | the greedy `(.+)\.(\w+)` splits at any `.w` match that has no later `.w` match on the line |
| Text.LastDotWordOfSplit | src/reddit/subreddit_browser.py:104 | in `id + "." + ext` with an all-word-character `ext`, the split falls on the dot right after `id` |
| Text.CaptureDotWordRoundTrip | src/reddit/subreddit_browser.py:104 | `^prefix(.+)\.(\w+)` on `prefix + id + "." + ext` captures `id` when `ext` is all word characters, even when `id` contains dots |
| Text.LastOccurrenceFrom | src/reddit/subreddit_browser.py:79 | the greedy group's end is the last position (at least 1) where the tail literal occurs; none later occurs, and `None` means it occurs nowhere |
| MediaTypes.MediaTypeOf | src/telegram/telegram_wrapper.py:265-282 | each direction holds: gif iff Animation, jpg/png iff Image, mp4/avi/webm iff Video, anything else (no extension included) iff Document; never Audio |
| MediaTypes.ExtensionOfAppended | src/utils.py:23-27 | naming a download `base + "." + ext` makes `ext` the extension `splitext` sees |
| MediaTypes.MediaTypeOfAppended | src/utils.py:23-27 | a file saved with a gif/jpg/png/mp4/avi/webm extension gets the matching media type |
| MediaTypes.NoDotIsDocument | src/telegram/telegram_wrapper.py:274-275 | a path without any dot has no extension and is a Document |
| MediaTypes.TypeName | src/stats.py:32-33 | the lower-case enum name is at least five letters and has no underscore, so it cannot be confused with a date separator |
| MediaTypes.TypeNameInjective | src/stats.py:32-33 | different media types have different counter names |
| MediaTypes.AllMediaTypesComplete | src/stats.py:31 | enum iteration visits every media type |
| Resolver.Resolve | src/reddit/subreddit_browser.py:66-119 | a None URL or unknown host gives no media; a download is saved under `tmp_dir/<non-empty id>` with default extension gif/jpg/png/mp4; mp4 comes only from gif-video metadata; a v.redd.it URL without it is never downloaded |
| Resolver.VRedditIsNotImgur | src/reddit/subreddit_browser.py:94 | the v.redd.it branch can only be reached by URLs the imgur test rejected |
| Resolver.ImgurUrlUsesImgurRule | src/reddit/subreddit_browser.py:72 | every `https://i.imgur.com/...` URL is handled by the imgur rule |
| Resolver.ImgurRouting | src/reddit/subreddit_browser.py:72-92 | `https://i.imgur.com/<id>.<suffix>` reaches the branch of that suffix, tried in the order gifv, gif, jpg, png |
| Resolver.ImgurGifvResolves | src/reddit/subreddit_browser.py:73-77 | `https://i.imgur.com/<id>.gifv` downloads `https://imgur.com/download/<id>` to `tmp_dir/<id>` with default gif |
| Resolver.ImgurImageResolves | src/reddit/subreddit_browser.py:78-92 | `https://i.imgur.com/<id>.<ext>` for gif/jpg/png downloads `https://i.imgur.com/<id>.<ext>` to `tmp_dir/<id>` with default ext |
| Resolver.ImgurOtherSuffixUnresolved | src/reddit/subreddit_browser.py:72-93 | an imgur URL with no recognised suffix gives no media and does not raise |
| Resolver.MalformedImgurRaises | src/reddit/subreddit_browser.py:78-79 | `https://i.imgur.com/.gif` passes both tests but the pattern finds no id: `IndexError` |
| Resolver.VRedditGifResolves | src/reddit/subreddit_browser.py:94-101 | a v.redd.it URL with non-empty media whose `reddit_video.is_gif` is true downloads a present `fallback_url` to `tmp_dir/<id>` as mp4 |
| Resolver.VRedditNullFallbackUnresolved | src/reddit/subreddit_browser.py:94-119 | when that `fallback_url` is `null`, `download_url` stays `None`: no media, and no exception |
| Resolver.IRedditResolves | src/reddit/subreddit_browser.py:103-107 | an i.redd.it URL is downloaded unchanged with default jpg; the id is the text before the last `.<word>` |
| Resolver.GfycatGifResolves | src/reddit/subreddit_browser.py:109-114 | a gfycat `.gif` URL downloads from `https://giant.gfycat.com/<id>.gif` |
| Resolver.GfycatOtherSuffixUnresolved | src/reddit/subreddit_browser.py:109-110 | a gfycat URL not ending in `gif` is not downloaded |
| Resolver.RaisesOnlyOnKnownHosts | src/reddit/subreddit_browser.py:71-114 | an exception can only come from a rule whose host test passed |
| Resolver.ResolveLegacy | src/reddit/SubredditBrowser.py:72-124 | the older resolver declines a None URL and unknown hosts; its downloads have the same path shape and default extensions |
| Resolver.LegacyAgreesWithCurrent | src/reddit/SubredditBrowser.py:76-119 | except for plain-http imgur URLs and v.redd.it submissions with no media, the two resolvers agree on every submission |
| Resolver.LegacyHttpImgurRaises | src/reddit/SubredditBrowser.py:77-97 | an `http://i.imgur.com` URL with a known suffix passes the older host test but never matches the https-only pattern: `IndexError` |
| Resolver.LegacyVRedditWithoutMediaRaises | src/reddit/SubredditBrowser.py:99-100 | the older rule calls `len(None)` on a v.redd.it submission with no media: `TypeError` |
| Resolver.DownloadMedia | src/utils.py:10-27 | the saved name starts with the target's base path and a dot; what follows the dot is the sniffed extension, or the default one when sniffing finds nothing |
| Resolver.DownloadNamesExtension | src/utils.py:22-27 | for a base path ending in a name character and a plain extension, `splitext` of the saved name gives the sniffed extension, else the default; unsniffed gif/jpg/png/mp4 downloads are classified Animation/Image/Image/Video |
| Resolver.Materialize | src/reddit/subreddit_browser.py:115-119 | an unresolved submission gives no media and no download; a raising rule gives an error; a download's type is the extension rule applied to the file it saved under the target's base |
| Resolver.MaterializeAsWritten | src/reddit/subreddit_browser.py:115-118 | as written, extraction never hands back a file; it still gives no media exactly when unresolved |
| Resolver.AsWrittenRaisesWhereMaterializeDownloads | src/reddit/subreddit_browser.py:117 | as written and corrected differ exactly on resolved submissions, where the corrected one downloads and the written one raises `AttributeError` |
| Retention.MarkPosted | src/reddit/subreddit_browser.py:42-43 | marking adds the id to the set and records `now` for it; other times are untouched, and every posted id keeps a time |
| Retention.Sweep | src/reddit/subreddit_browser.py:55-64 | fails exactly when a posted id has no time; otherwise exactly the expired posted ids leave the set, with their times, and nothing else changes |
| Retention.SweepLeavesNoExpired | src/reddit/subreddit_browser.py:55-64 | no posted id left by a sweep is expired at that moment |
| Retention.SweepIdempotent | src/reddit/subreddit_browser.py:55-64 | sweeping again at the same moment changes nothing |
| Retention.SweepStore | src/reddit/subreddit_browser.py:55-64 | the two loops (collect, then delete) compute the sweep |
| Delivery.LastInputSize | src/telegram/utils.py:17-21 | the chosen photo size is the last one of type `'i'`; there is none exactly when no size has type `'i'` |
| Delivery.MediaPath | src/telegram/utils.py:16-39 | video/animation/document/audio give `content.<kind>.<kind>.local.path` verbatim; a photo gives a path iff it has an `'i'` size, and that path is the one of its last `'i'` size; any other content gives None |
| Delivery.ExtractMediaPath | src/telegram/utils.py:7-39 | the front-to-back scan, where every `'i'` size overwrites the last, computes `MediaPath` |
| Browser.ProcessSubmissions | src/reddit/subreddit_browser.py:35-47 | posted ids are never sent; the set grows by exactly the sent ids, each timed `now`; other times are untouched; each send directly follows the mark of its id; only extraction errors escape |
| Browser.ProcessSendsDistinct | src/reddit/subreddit_browser.py:35-43 | no id is sent twice in a cycle, even when the feed repeats it |
| Browser.ProcessSendsOnlyDownloaded | src/reddit/subreddit_browser.py:37-47 | every send carries a feed submission whose media was downloaded: its file, type and title, to the configured channel |
| Browser.ProcessSendsEveryFreshDownload | src/reddit/subreddit_browser.py:35-47 | unless an extraction raised, every feed submission not posted before the cycle whose media downloads is sent in the cycle and timed `now` |
| Browser.ProcessFreshSingle | src/reddit/subreddit_browser.py:36-47 | a fresh submission with a downloaded file is marked at `now` and then sent |
| Browser.NoDownloadNoSends | src/reddit/subreddit_browser.py:35-47 | if extraction never yields a file, a cycle marks and sends nothing |
| Browser.PollCycle | src/reddit/subreddit_browser.py:26-64 | a sweep failure ends the cycle with nothing done; otherwise every expired posted id that is not re-sent is gone from the set and the times, and every young posted id stays with its time; a `ServerError` gives an empty cycle; the store stays consistent |
| Browser.CycleNeverResends | src/reddit/subreddit_browser.py:27-36 | an id posted within the cleanup delay is not sent again, and no id is sent twice |
| Browser.SweptIdIsReposted | src/reddit/subreddit_browser.py:27-64 | an expired id, wherever it appears in the feed, is treated as fresh: unless an extraction raised, it is marked anew at `now` and sent again when its media downloads |
| Browser.SweptIdRepostedAlone | src/reddit/subreddit_browser.py:27-64 | an expired id alone in the feed is marked at `now` and sent, and nothing else happens |
| Browser.Step | src/reddit/subreddit_browser.py:21-53 | a stop request ends the loop; a wait returns to polling only once strictly more than `browse_delay` has passed; a poll has exactly the store and effects of one poll cycle, records `now` as the last post time, and dies exactly when that cycle crashed |
| Browser.StepKeepsConsistent | src/reddit/subreddit_browser.py:25-53 | every loop iteration keeps "each posted id has a time" |
| Browser.StopDuringWaitPreventsPolling | src/reddit/subreddit_browser.py:50-53 | with a one-hour delay, half an hour after a poll the loop keeps waiting, and a stop then is final |
| Browser.ProcessMessageSent | src/reddit/subreddit_browser.py:122-127 | the delivery handler removes the file of a delivered media message (for a photo, the file of its last `'i'` size), and nothing for other content |
| Browser.ExtractAsWritten | src/reddit/subreddit_browser.py:66-119 | as written, the newer extraction never yields a file: each resolved submission raises `AttributeError` |
| Browser.ImgurPictureResolves | src/reddit/subreddit_browser.py:83-87 | the sample `https://i.imgur.com/abc.jpg` resolves to itself, saved as `tmp_dir/abc` with default jpg |
| Browser.ImgurPictureDownloads | src/reddit/subreddit_browser.py:115-118 | the corrected extraction downloads it as the Image `tmp_dir/abc.jpg` |
| Browser.AsWrittenImgurCrashes | src/reddit/subreddit_browser.py:117 | as written, that one picture crashes the cycle with `AttributeError` and nothing is reposted |
| Browser.CorrectedImgurReposted | src/reddit/subreddit_browser.py:35-47 | corrected, the picture is marked and reposted as an Image to the channel |
| LegacyBrowser.ExpiredPrefixLength | src/reddit/SubredditBrowser.py:58-63 | the counting loop stops at the first entry that is not older than `25 * browse_delay` |
| LegacyBrowser.DeleteAsWritten | src/reddit/SubredditBrowser.py:68-70 | with no exception, the trimmed entries' files are removed in order and their ids leave the set |
| LegacyBrowser.CleanupAsWritten | src/reddit/SubredditBrowser.py:57-70 | the queue keeps exactly the suffix after the expired prefix; with no exception the prefix's ids leave the set |
| LegacyBrowser.Delete | src/reddit/SubredditBrowser.py:68-70 | corrected deletion skips missing files; it fails (KeyError) exactly when an id is not posted when reached, otherwise removes every file and id |
| LegacyBrowser.Cleanup | src/reddit/SubredditBrowser.py:57-70 | corrected cleanup keeps the suffix and, with no exception, drops the prefix's ids and removes their files |
| LegacyBrowser.SortedSuffixYoung | src/reddit/SubredditBrowser.py:57-66 | on a time-ordered queue, nothing after the first young entry is expired |
| LegacyBrowser.PrefixTrimIsFilter | src/reddit/SubredditBrowser.py:57-66 | on a time-ordered queue the trimmed prefix is exactly the expired entries and the kept suffix exactly the young ones |
| LegacyBrowser.DeleteSucceeds | src/reddit/SubredditBrowser.py:68-70 | with distinct, posted ids, corrected deletion never raises |
| LegacyBrowser.CleanupKeepsValid | src/reddit/SubredditBrowser.py:57-70 | from a valid state (posted set = queued ids, distinct, time-ordered, none in the future) the corrected cleanup succeeds, stays valid and keeps no expired entry |
| LegacyBrowser.CleanupDropsExactlyExpired | src/reddit/SubredditBrowser.py:65-70 | from a valid state an id leaves the posted set iff it has an expired queue entry |
| LegacyBrowser.DeleteAsWrittenFailsOnUnresolved | src/reddit/SubredditBrowser.py:68-69 | as written, the first expired entry with no file raises `TypeError`, after removing the files before it |
| LegacyBrowser.DeleteAgreesWithFiles | src/reddit/SubredditBrowser.py:68-70 | when every expired entry has a file, as written and corrected deletion agree |
| LegacyBrowser.UnresolvedEntryCrashesCleanup | src/reddit/SubredditBrowser.py:57-70 | an unresolved submission queued at 0 crashes the cleanup at 90001 (delay 3600); the corrected cleanup clears it |
| LegacyBrowser.ProcessLegacy | src/reddit/SubredditBrowser.py:40-49 | every new id is added to the posted set, then gets one entry timed `now` with or without a file; the queue only grows at the end; posted ids are not sent |
| LegacyBrowser.ProcessLegacyKeepsValid | src/reddit/SubredditBrowser.py:40-49 | a pass over the listing that does not crash keeps the posted set equal to the queued ids, the ids distinct, and the queue in time order with no entry later than `now` |
| LegacyBrowser.LegacySendsFromFeed | src/reddit/SubredditBrowser.py:40-49 | every send carries a feed submission whose media was downloaded: its id, file, type and title, to the configured channel |
| LegacyBrowser.LegacySendsEveryFreshDownload | src/reddit/SubredditBrowser.py:40-49 | unless an extraction raised, the first occurrence of an id not posted before the cycle is sent with its file, type and title when its media downloads |
| LegacyBrowser.AppendKeepsValid | src/reddit/SubredditBrowser.py:42-44 | appending a fresh id's entry at `now` keeps the queue valid |
| LegacyBrowser.EveryNewIdQueuedOnce | src/reddit/SubredditBrowser.py:41-44 | every new id of the feed ends up with exactly one queue entry, resolvable or not |
| LegacyBrowser.LegacyFreshSingle | src/reddit/SubredditBrowser.py:40-49 | a single fresh submission whose media downloads is posted, queued once at `now` with its file, and sent with its title to the channel |
| LegacyBrowser.LegacyImgurPictureDownloads | src/reddit/SubredditBrowser.py:88-92 | the corrected older extraction downloads `https://i.imgur.com/abc.jpg` as the Image `tmp_dir/abc.jpg` |
| LegacyBrowser.LegacyCorrectedImgurReposted | src/reddit/SubredditBrowser.py:40-49 | corrected, the same picture is posted, queued once with its file at `now`, sent as an Image to the channel, and leaves a valid state |
| LegacyBrowser.LegacyCycle | src/reddit/SubredditBrowser.py:36-70 | a `ServerError` escapes the cycle, since there is no `try`; from a valid state the corrected cleanup never raises and removes the files of exactly the expired prefix, the state stays valid, and no expired entry is left |
| LegacyBrowser.LegacyCycleAfterCleanup | src/reddit/SubredditBrowser.py:36-44 | the cleaned queue followed by entries timed `now` holds no expired entry |
| LegacyBrowser.LegacyExtractAsWritten | src/reddit/SubredditBrowser.py:120-124 | as written, the older extraction never yields a file: each resolved submission raises `AttributeError` |
| LegacyBrowser.LegacyNoDownloadNoSends | src/reddit/SubredditBrowser.py:40-49 | if extraction never yields a file, the older cycle sends nothing |
| LegacyBrowser.LegacyAsWrittenImgurCrashes | src/reddit/SubredditBrowser.py:41-44 | as written, an imgur picture is posted but never queued, and the cycle crashes; the state it leaves is not valid |
| LegacyBrowser.UnqueuedIdNeverCleared | src/reddit/SubredditBrowser.py:57-70 | a posted id without a queue entry is never removed by a cleanup that does not raise |
| Calendar.NextDay | src/stats.py:62 | the next day is a later valid date, and is missing only after 9999-12-31 |
| Calendar.PrevDay | src/stats.py:55 | the previous day is an earlier valid date, and is missing only before 0001-01-01 |
| Calendar.NextPrevInverse | src/stats.py:55-62 | one day back and one day forward undo each other |
| Calendar.NextDayIsSuccessor | src/stats.py:62 | no valid date lies strictly between a day and its next day |
| Calendar.BackThenForward | src/stats.py:55-62 | going back `k` days and forward `k` days returns to the start |
| Calendar.IsoDate | src/stats.py:59 | `str(date)` is ten characters, `YYYY-MM-DD`, with no underscore |
| Calendar.IsoDateInjective | src/stats.py:90 | different dates have different date strings |
| Calendar.WeekDates | src/stats.py:53-64 | the walk yields exactly seven consecutive, strictly ascending days from `today - 6` to `today`, or overflows at a calendar end |
| Calendar.WindowClosed | src/stats.py:58-62 | when the loop stops after seven days, the last day walked is `today` and the walked days are consecutive |
| Calendar.WalkWindow | src/stats.py:58-62 | the `while start <= today` loop takes seven steps and produces consecutive days |
| Calendar.ConsecutiveAscending | src/stats.py:58-62 | consecutive days are strictly ascending |
| Stats.KeyNameInjective | src/stats.py:81-95 | the eight `{prefix}_{table}_{action}` hash keys are pairwise distinct |
| Stats.DayFieldInjective | src/stats.py:90-96 | `{day}_{type}` fields of different days or types never coincide |
| Stats.GetVal | src/stats.py:48-51 | a missing hash or field reads as 0 |
| Stats.Increment | src/stats.py:68-71 | the field grows by the amount, starting from 0 if missing; no other field changes |
| Stats.RecordEvent | src/stats.py:80-97 | recording adds 1 and the size to the lifetime and today's counters of its type; no other counter changes; none decreases |
| Stats.RecordAsWrittenNeverCounts | src/stats.py:74 | as written recording raises `AttributeError`, while the corrected recording counts the file |
| Stats.Tally | src/stats.py:31-46 | the report has each visited type's count and size from its field, and the totals are their sums |
| Stats.TotalsGeneric | src/stats.py:26-46 | a report has a count and size for every media type, read from the prefixed fields, and its totals are their sums |
| Stats.DayStats | src/stats.py:14-18 | day stats read only the date hashes, at fields `{day}_{type}` |
| Stats.Totals | src/stats.py:20-24 | lifetime stats read only the total hashes, at the bare type names |
| Stats.RecordThenTotals | src/stats.py:80-86 | after recording, the lifetime report moves by one and by the size at the event's type only, and its totals move the same way |
| Stats.RecordThenDayStats | src/stats.py:88-97 | after recording, the event day's report moves at the event's type only; every other day's report is unchanged |
| Stats.ActionKeysDiffer | src/stats.py:192-204 | `sent` and `delivered` hash keys never coincide |
| Stats.ActionsAreSeparate | src/stats.py:192-204 | recording one action never changes the other action's totals or day stats |
| Stats.EmptyReportsZero | src/stats.py:48-51 | with no data every count, size and total reads as 0 |
| Stats.WeekStats | src/stats.py:53-64 | seven entries for `today - 6 .. today`, ascending, each named `str(day)` and holding that day's stats, or an overflow at a calendar end |
| Telegram.ProcessAuthorization | src/telegram/telegram_wrapper.py:123-147 | each announcing tag moves to its state, and only the encryption-key one sends the key `my_key`; any other tag changes nothing |
| Telegram.AnnouncedByInjective | src/telegram/telegram_wrapper.py:123-147 | no two states are announced by the same tag |
| Telegram.EveryAnnouncedStateReachable | src/telegram/telegram_wrapper.py:123-147 | every state but WAIT_REQUEST is reachable from any state by its update |
| Telegram.Submit | src/telegram/telegram_wrapper.py:371-448 | each `set_tdlib_*` call is accepted iff the wrapper is in its wait state, then sends its request and moves to WAIT_REQUEST; otherwise it raises `TelegramAuthError` with the call's message |
| Telegram.DefaultParametersRequest | src/telegram/telegram_wrapper.py:371-393 | without a directory argument, the accepted parameters request uses `tdlib_db` with the fixed `en`/`Desktop`/`Linux`/`0.1` fields and storage optimisation on |
| Telegram.AnnouncedWaitAcceptsItsCredential | src/telegram/telegram_wrapper.py:123-448 | after a state's announcement, that state's credential is accepted and exactly the credentials of the same kind are |
| Telegram.NoSubmissionWithoutAnnouncement | src/telegram/telegram_wrapper.py:382-393 | after an accepted credential, every `set_tdlib_*` call fails until the next announcement |
| Telegram.ExpectedStateSeparatesKinds | src/telegram/telegram_wrapper.py:371-448 | the four kinds of credential wait in four different states |
| Telegram.MediaContent | src/telegram/telegram_wrapper.py:99-115 | the content has the media type's own kind and carries the path and caption verbatim; video is the only streamable one |
| Telegram.MediaContentInjective | src/telegram/telegram_wrapper.py:99-115 | different path, type or caption gives different content |
| Telegram.AlbumToMediaType | src/telegram/telegram_wrapper.py:40-51 | album kinds convert to Image or Video |
| Telegram.AlbumContents | src/telegram/telegram_wrapper.py:305 | one content per album entry, in order, with its path, type and caption |
| Telegram.SelectChat | src/telegram/telegram_wrapper.py:327-333 | a passed `chat_id` wins; otherwise a title yields an id iff the chat map knows it |
| Telegram.SendMediaMessage | src/telegram/telegram_wrapper.py:311-342 | returns True iff a chat was selected; then sends one message with that chat id, path, type and caption (empty if absent); otherwise sends nothing |
| Telegram.SendTextMessage | src/telegram/telegram_wrapper.py:344-369 | returns True iff a chat was selected; then sends the text to it; otherwise sends nothing |
| Telegram.SendAlbumMessage | src/telegram/telegram_wrapper.py:284-309 | returns True iff a chat was selected; then sends one album to that chat whose contents are, entry by entry and in order, the entry's file, media type and caption; otherwise sends nothing |
| Telegram.ExplicitChatIdWins | src/telegram/telegram_wrapper.py:327-329 | with a `chat_id`, neither the title nor the chat map matters |
| Telegram.UnknownTitleSendsNothing | src/telegram/telegram_wrapper.py:355-369 | an unknown or absent title returns False and sends nothing; once the map knows the title, the text is sent |
| Telegram.Subscribe | src/telegram/telegram_wrapper.py:459-466 | the callback is subscribed afterwards; no other subscriber changes |
| Telegram.Unsubscribe | src/telegram/telegram_wrapper.py:468-475 | the callback is not subscribed afterwards; no other subscriber changes |
| Telegram.SubscribeIdempotent | src/telegram/telegram_wrapper.py:459-466 | subscribing twice equals subscribing once |
| Telegram.UnsubscribeAbsentIsNoOp | src/telegram/telegram_wrapper.py:468-475 | unsubscribing an absent callback changes nothing |
| Telegram.UnsubscribeUndoesSubscribe | src/telegram/telegram_wrapper.py:459-475 | unsubscribing undoes subscribing a new callback |
| Telegram.NotifyMessageSent | src/telegram/telegram_wrapper.py:117-121 | each subscriber is called exactly once with the message, and nobody else is called |

## Left out

- The TDLib JSON client is left out: its native bindings, JSON encoding, the receive thread, logging, `update_chat_ids` and `stop()`. They are foreign calls and concurrency. Sends are modelled as `Request` values.
- The chat-id map is left out as a shared structure. `_td_receive_handler` fills it under a lock; it is a parameter of the send calls.
- Threads, `time.sleep`, `time.time()` and the stop event are left out. The clock is a parameter, one `now` per cycle, and the stop event is a boolean per loop iteration of `Browser.Step`.
- Times and delays are integers. `time.time()` returns a float, so post times, queue times and the `>` age tests are float comparisons in the code. The model uses whole seconds and keeps the strict `>`.
- Each cycle reads the clock once. The code calls `time.time()` again for each mark, each queue entry and each age test, so those times can differ slightly within one cycle.
- Stats.WeekStats and Calendar.WeekDates take a single `today`. `_get_week_stats` reads `date.today()` twice. If midnight falls between the two reads, the code's walk covers eight days, which the model cannot produce.
- Reddit access (`praw`) is left out. A fetch is a `Fetch` value holding the submissions of the listing, or a `ServerError`.
- `DownloadManager.download_media` is abstract. `wget` is not modelled, and `filetype` sniffing is a function from download URL to extension.
- Stat sizes are integers in thousandths of a megabyte. The float division and `round(..., 3)` are not modelled.
- `os.remove` and `os.rename` are modelled only as "this path is removed / named".
- The older `_browse_subreddit` loop's POLL/WAIT timer is the same as the newer one and is not modelled again; only its poll cycle is (`LegacyBrowser.LegacyCycle`).
- telegram/TelegramWrapper.py, the superseded wrapper, is not part of this model. The older browser imports it. The model uses its missing `determine_media_type` only to state the exception (see Findings).
- The browsers never call `StatCollector`, so no statistics wiring is modelled in the cycles.
- reddit/SubredditBrowser.py, src/reposter.py, the entry points and the settings files are plumbing and not part of this model.
- Telegram.NotifyMessageSent: the order of the callback calls is Python's set iteration order, which the model leaves open.
- Telegram.SelectChat: a `chat_id` passed as Python's `None` is `Some(None)`; it selects no chat, as in the code.
- Stats.WeekStats: the `OverflowError` at either end of the calendar is a `None` result, not an exception.
- Text.Capture: `.` matches anything but a newline and `\w` matches only ASCII word characters; Python's Unicode `\w` is not modelled.
- Browser.ProcessMessageSent: the removal is stated as the list of removed paths, not as a change to a file system.
- Browser.PollCycle: the fetch is taken as eager, so a `ServerError` is caught by the `try` around `subreddit.top(...)` and gives an empty cycle. praw returns a lazy listing whose request runs in the `for` loop, outside that `try`; if it does, the error would end the thread instead. praw is not part of this model.
- Browser.PollCycle and LegacyBrowser.LegacyCycle use the corrected extraction. The extraction as written is modelled separately; see Findings.
- LegacyBrowser.LegacyCycle also uses the corrected cleanup `Cleanup`. As written, an expired queue entry without a file makes the cleanup raise `TypeError` at `os.remove(None)`, even from a valid state (Findings row 1; `LegacyBrowser.CleanupAsWritten` models that form).
- LegacyBrowser.LegacyCycle: "no expired entry is left" is stated only for a browse delay that is not negative. With a negative delay, the entries queued at `now` are already older than `25 * browse_delay`.
- Resolver.Resolve: `is_gif` is modelled as a boolean, `null` or missing. Other truthy or falsy JSON values are not modelled.
- LegacyBrowser.Cleanup is the corrected cleanup that skips missing files; the cleanup as written is `LegacyBrowser.CleanupAsWritten`.

## Findings

| source | as written | input that shows it | evidently intended | confidence | as-written member | corrected member |
|---|---|---|---|---|---|---|
| src/reddit/SubredditBrowser.py:68-70 | the cleanup calls `os.remove(path)` for every expired queue entry, but an unresolved submission is queued with path `None` (line 44), so `os.remove(None)` raises `TypeError` and ends the browsing thread | posted set `{"abc"}`, queue `[(0, None, "abc")]`, browse delay 3600, cleanup at time 90001 | skip entries without a file, and still drop their ids | not executed | LegacyBrowser.UnresolvedEntryCrashesCleanup | LegacyBrowser.CleanupKeepsValid |
| src/stats.py:74 | `_record_media_stats` calls `TelegramHelper.determine_media_type`, but the imported `TelegramHelper` (src/telegram/utils.py) defines only `extract_media_path`, so every record raises `AttributeError` before any counter changes | any file path | use the wrapper's extension rule (`TelegramWrapper.determine_media_type`) | not executed | Stats.RecordAsWrittenNeverCounts | Stats.RecordThenTotals |
| src/reddit/subreddit_browser.py:117 | `_extract_media` calls `TelegramHelper.determine_media_type` after every download, so the first fresh submission with media raises `AttributeError` and the browser never reposts | a feed with one submission `abc` at `https://i.imgur.com/abc.jpg` | classify the file with the wrapper's extension rule and repost it | not executed | Browser.AsWrittenImgurCrashes | Browser.CorrectedImgurReposted |
| src/reddit/SubredditBrowser.py:122 | `_extract_media` calls `TelegramWrapper.determine_media_type` from `telegram.TelegramWrapper`, whose class has no such method, so a resolved submission raises `AttributeError`; its id was already added to the posted set (line 42) but never queued, so no cleanup removes it (`LegacyBrowser.UnqueuedIdNeverCleared`). This assumes `telegram.TelegramWrapper` resolves to telegram/TelegramWrapper.py; if it resolves to nothing, the import fails first | the same one-submission imgur feed, from an empty state | classify the file with the extension rule and queue and send it | not executed | LegacyBrowser.LegacyAsWrittenImgurCrashes | LegacyBrowser.LegacyCorrectedImgurReposted |
