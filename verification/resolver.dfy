/**
  The media resolver: `SubredditBrowser._extract_media` in its newer
  (src/reddit/subreddit_browser.py) and older (src/reddit/SubredditBrowser.py)
  forms.  A submission's `url` is matched against an ordered list of host
  prefixes; the matching rule either names a download target, declines the
  submission, or raises because its `re.findall(...)[0]` found nothing.
*/
module Resolver {
  import opened Maybe
  import opened Text
  import opened MediaTypes

  /**
    A key of a JSON object as the resolver reads it: absent (indexing it
    raises `KeyError`), present but `null` (Python's `None`), or a value.
  */
  datatype Field<T> = Missing | Null | Present(value: T)

  /** `submission.media['reddit_video']`, with the two fields the resolver reads. */
  datatype RedditVideo = RedditVideo(isGif: Field<bool>, fallbackUrl: Field<string>)

  /** `submission.media`: its number of keys and its `reddit_video` entry. */
  datatype MediaBlob = MediaBlob(size: nat, redditVideo: Field<RedditVideo>)

  /** The fields of a feed submission the core reads. */
  datatype Submission = Submission(id: string, url: Option<string>, title: string, media: Option<MediaBlob>)

  /** `(download_url, file_path, default_ext)` before the download runs. */
  datatype Target = Target(downloadUrl: string, filePath: string, defaultExt: string)

  /** The Python exceptions `_extract_media` (and the older cleanup) can raise. */
  datatype PyError = IndexError | KeyError | TypeError | AttributeError

  datatype Resolution =
    | Unresolved              // `download_url` stays `None`
    | Resolved(target: Target)
    | Raised(error: PyError)

  const ImgurHost := "https://i.imgur.com"
  const ImgurHttpHost := "http://i.imgur.com"
  const ImgurPattern := "https://i.imgur.com/"
  const VRedditPrefix := "https://v.redd.it/"
  const IRedditPrefix := "https://i.redd.it/"
  const GfycatPrefix := "https://gfycat.com/"

  /** `f'{tmp_dir}/{media_id}'` */
  function LocalBase(tmpDir: string, mediaId: string): string {
    tmpDir + "/" + mediaId
  }

  /** Which imgur suffix a URL ends with, tested in `_extract_media`'s order. */
  function ImgurSuffix(url: string): Option<string> {
    if EndsWith(url, "gifv") then Some("gifv")
    else if EndsWith(url, "gif") then Some("gif")
    else if EndsWith(url, "jpg") then Some("jpg")
    else if EndsWith(url, "png") then Some("png")
    else None
  }

  /**
    The imgur rule, reached once the host test passed.  The patterns always
    require `https://i.imgur.com/`, whatever host test let the URL in.
  */
  function ImgurRule(url: string, tmpDir: string): Resolution {
    match ImgurSuffix(url)
    case None => Unresolved
    case Some(suffix) => ImgurSuffixRule(url, suffix, tmpDir)
  }

  /** One of the four imgur branches, once the URL is known to end with `suffix`. */
  function ImgurSuffixRule(url: string, suffix: string, tmpDir: string): Resolution {
    match Capture(url, ImgurPattern, Literal("." + suffix))
    case None => Raised(IndexError)
    case Some(id) =>
      if suffix == "gifv" then
        Resolved(Target("https://imgur.com/download/" + id, LocalBase(tmpDir, id), "gif"))
      else
        Resolved(Target("https://i.imgur.com/" + id + "." + suffix, LocalBase(tmpDir, id), suffix))
  }

  /**
    The `is_gif` test of the v.redd.it rule and what follows it.  A `null`
    `is_gif` is falsy; a `null` `fallback_url` leaves `download_url` at
    `None`, so nothing is downloaded.
  */
  function VRedditGifRule(url: string, video: RedditVideo, tmpDir: string): Resolution {
    match video.isGif
    case Missing => Raised(KeyError)
    case Null => Unresolved
    case Present(false) => Unresolved
    case Present(true) =>
      match Capture(url, VRedditPrefix, Nothing)
      case None => Raised(IndexError)
      case Some(id) =>
        match video.fallbackUrl
        case Missing => Raised(KeyError)
        case Null => Unresolved
        case Present(fallback) => Resolved(Target(fallback, LocalBase(tmpDir, id), "mp4"))
  }

  /**
    The newer v.redd.it rule: `media is not None and len(media) > 0 and
    'reddit_video' in media`; a `null` `reddit_video` cannot be indexed.
  */
  function VRedditRule(url: string, media: Option<MediaBlob>, tmpDir: string): Resolution {
    if media.Some? && media.value.size > 0 && !media.value.redditVideo.Missing? then
      match media.value.redditVideo
      case Null => Raised(TypeError)
      case Present(video) => VRedditGifRule(url, video, tmpDir)
    else
      Unresolved
  }

  /** The older v.redd.it rule: `len(media)` on a missing blob raises `TypeError`. */
  function LegacyVRedditRule(url: string, media: Option<MediaBlob>, tmpDir: string): Resolution {
    if media.None? then Raised(TypeError)
    else VRedditRule(url, media, tmpDir)
  }

  function IRedditRule(url: string, tmpDir: string): Resolution {
    match Capture(url, IRedditPrefix, DotWord)
    case None => Raised(IndexError)
    case Some(id) => Resolved(Target(url, LocalBase(tmpDir, id), "jpg"))
  }

  function GfycatRule(url: string, tmpDir: string): Resolution {
    if EndsWith(url, "gif") then
      match Capture(url, GfycatPrefix, Literal(".gif"))
      case None => Raised(IndexError)
      case Some(id) => Resolved(Target("https://giant.gfycat.com/" + id + ".gif", LocalBase(tmpDir, id), "gif"))
    else
      Unresolved
  }

  /** A URL one of the four host tests (newer form) lets in. */
  predicate KnownHost(url: string) {
    StartsWith(url, ImgurHost) || StartsWith(url, VRedditPrefix)
    || StartsWith(url, IRedditPrefix) || StartsWith(url, GfycatPrefix)
  }

  /** A media blob the v.redd.it rule accepts: a silent, gif-like video. */
  predicate GifVideo(media: Option<MediaBlob>) {
    && media.Some? && media.value.size > 0 && media.value.redditVideo.Present?
    && media.value.redditVideo.value.isGif == Present(true)
  }

  /** The v.redd.it prefix excludes the imgur host test that precedes it. */
  lemma VRedditIsNotImgur(url: string)
    ensures StartsWith(url, VRedditPrefix) ==> !StartsWith(url, ImgurHost)
  {
    if StartsWith(url, VRedditPrefix) {
      assert url[8] == VRedditPrefix[8];
    }
  }

  /** The newer `_extract_media`, up to (not including) the download. */
  function Resolve(sub: Submission, tmpDir: string): (r: Resolution)
    ensures sub.url.None? ==> r == Unresolved
    ensures sub.url.Some? && !KnownHost(sub.url.value) ==> r == Unresolved
    ensures r.Resolved? ==> r.target.defaultExt in {"gif", "jpg", "png", "mp4"}
    ensures r.Resolved? ==> StartsWith(r.target.filePath, tmpDir + "/") && |r.target.filePath| > |tmpDir| + 1
    ensures r.Resolved? && r.target.defaultExt == "mp4" ==> GifVideo(sub.media)
    ensures sub.url.Some? && StartsWith(sub.url.value, VRedditPrefix) && !GifVideo(sub.media)
            ==> !r.Resolved?
  {
    match sub.url
    case None => Unresolved
    case Some(url) =>
      VRedditIsNotImgur(url);
      if StartsWith(url, ImgurHost) then ImgurRule(url, tmpDir)
      else if StartsWith(url, VRedditPrefix) then VRedditRule(url, sub.media, tmpDir)
      else if StartsWith(url, IRedditPrefix) then IRedditRule(url, tmpDir)
      else if StartsWith(url, GfycatPrefix) then GfycatRule(url, tmpDir)
      else Unresolved
  }

  /** The older `_extract_media`: also admits `http://i.imgur.com`, and assumes `media` is present. */
  function ResolveLegacy(sub: Submission, tmpDir: string): (r: Resolution)
    ensures sub.url.None? ==> r == Unresolved
    ensures r.Resolved? ==> r.target.defaultExt in {"gif", "jpg", "png", "mp4"}
    ensures r.Resolved? ==> StartsWith(r.target.filePath, tmpDir + "/") && |r.target.filePath| > |tmpDir| + 1
    ensures sub.url.Some? && !KnownHost(sub.url.value) && !StartsWith(sub.url.value, ImgurHttpHost)
            ==> r == Unresolved
  {
    match sub.url
    case None => Unresolved
    case Some(url) =>
      if StartsWith(url, ImgurHttpHost) || StartsWith(url, ImgurHost) then ImgurRule(url, tmpDir)
      else if StartsWith(url, VRedditPrefix) then LegacyVRedditRule(url, sub.media, tmpDir)
      else if StartsWith(url, IRedditPrefix) then IRedditRule(url, tmpDir)
      else if StartsWith(url, GfycatPrefix) then GfycatRule(url, tmpDir)
      else Unresolved
  }

  /** What `_extract_media` returns: a downloaded file and its type, nothing, or an exception. */
  datatype Extraction =
    | NoMedia
    | Downloaded(path: string, mediaType: MediaType)
    | ExtractRaised(error: PyError)

  /**
    `DownloadManager.download_media`: the file is saved under its base path
    and renamed with the sniffed extension, or the default one when
    sniffing finds nothing.
  */
  function DownloadMedia(t: Target, sniffed: Option<string>): (path: string)
    ensures StartsWith(path, t.filePath + ".")
    ensures sniffed.Some? ==> path[|t.filePath| + 1..] == sniffed.value
    ensures sniffed.None? ==> path[|t.filePath| + 1..] == t.defaultExt
  {
    var path := t.filePath + "." + (if sniffed.Some? then sniffed.value else t.defaultExt);
    assert path[..|t.filePath + "."|] == t.filePath + ".";
    path
  }

  /**
    The saved file's extension, as `determine_media_type` reads it, is the
    sniffed one or else the default, whenever the base path ends in a
    name character and the extension is a plain word: the download decides
    the classification.
  */
  lemma DownloadNamesExtension(t: Target, sniffed: Option<string>)
    requires |t.filePath| >= 1 && t.filePath[|t.filePath| - 1] != '.' && t.filePath[|t.filePath| - 1] != '/'
    requires sniffed.Some? ==> '.' !in sniffed.value && '/' !in sniffed.value
    requires '.' !in t.defaultExt && '/' !in t.defaultExt
    ensures sniffed.Some? ==> PathExtension(DownloadMedia(t, sniffed)) == sniffed.value
    ensures sniffed.None? ==> PathExtension(DownloadMedia(t, sniffed)) == t.defaultExt
    ensures sniffed.None? && t.defaultExt in {"gif", "jpg", "png", "mp4"} ==>
              MediaTypeOf(DownloadMedia(t, sniffed)) == (if t.defaultExt == "gif" then Animation
                                                         else if t.defaultExt == "mp4" then Video else Image)
  {
    var ext := if sniffed.Some? then sniffed.value else t.defaultExt;
    assert DownloadMedia(t, sniffed) == t.filePath + "." + ext;
    ExtensionOfAppended(t.filePath, ext);
  }

  /**
    The resolution followed by the download; `sniff` says what content
    sniffing reports for the bytes behind each download URL.
  */
  function Materialize(res: Resolution, sniff: string -> Option<string>): (e: Extraction)
    ensures res.Unresolved? <==> e.NoMedia?
    ensures res.Raised? <==> e.ExtractRaised?
    ensures e.Downloaded? ==> e.mediaType == MediaTypeOf(e.path)
    ensures e.Downloaded? ==> StartsWith(e.path, res.target.filePath + ".")
  {
    match res
    case Unresolved => NoMedia
    case Raised(err) => ExtractRaised(err)
    case Resolved(t) =>
      var path := DownloadMedia(t, sniff(t.downloadUrl));
      Downloaded(path, MediaTypeOf(path))
  }

  /**
    The download followed by `TelegramHelper.determine_media_type(file_path)`
    exactly as the newer `_extract_media` writes it: the `TelegramHelper`
    it imports defines only `extract_media_path`, so every resolved
    submission is downloaded and then raises `AttributeError`.
  */
  function MaterializeAsWritten(res: Resolution, sniff: string -> Option<string>): (e: Extraction)
    ensures !e.Downloaded?
    ensures res.Unresolved? <==> e.NoMedia?
  {
    match res
    case Unresolved => NoMedia
    case Raised(err) => ExtractRaised(err)
    case Resolved(t) => ExtractRaised(AttributeError)
  }

  /**
    The two differ exactly on resolved submissions: where `Materialize`
    hands back a file, the code as written raises.
  */
  lemma AsWrittenRaisesWhereMaterializeDownloads(res: Resolution, sniff: string -> Option<string>)
    ensures res.Resolved? ==> Materialize(res, sniff).Downloaded?
                              && MaterializeAsWritten(res, sniff) == ExtractRaised(AttributeError)
    ensures !res.Resolved? ==> MaterializeAsWritten(res, sniff) == Materialize(res, sniff)
  {
  }

  // ---- Per-provider round trips ------------------------------------------

  lemma EndsWithAppended(s: string, suffix: string)
    ensures EndsWith(s + suffix, suffix)
  {
    assert (s + suffix)[|s + suffix| - |suffix|..] == suffix;
  }

  lemma StartsWithAppended(prefix: string, rest: string)
    ensures StartsWith(prefix + rest, prefix)
  {
    assert (prefix + rest)[..|prefix|] == prefix;
  }

  lemma LastCharOfEnding(s: string, suffix: string)
    requires EndsWith(s, suffix) && 1 <= |suffix|
    ensures s[|s| - 1] == suffix[|suffix| - 1]
  {
    assert s[|s| - |suffix|..][|suffix| - 1] == s[|s| - 1];
  }

  /** The suffix tests on `<base>.<ext>` pick `ext`, for each of the four imgur suffixes. */
  lemma ImgurSuffixOf(base: string, ext: string)
    requires ext in {"gifv", "gif", "jpg", "png"}
    ensures ImgurSuffix(base + "." + ext) == Some(ext)
  {
    var url := base + "." + ext;
    assert url == (base + ".") + ext;
    EndsWithAppended(base + ".", ext);
    if ext != "gifv" && EndsWith(url, "gifv") {
      LastCharOfEnding(url, "gifv");
      LastCharOfEnding(url, ext);
    }
    if ext !in {"gifv", "gif"} && EndsWith(url, "gif") {
      LastCharOfEnding(url, "gif");
      LastCharOfEnding(url, ext);
    }
    if ext == "png" && EndsWith(url, "jpg") {
      LastCharOfEnding(url, "jpg");
      LastCharOfEnding(url, ext);
    }
  }

  /** The newer resolver hands every `https://i.imgur.com/...` URL to the imgur rule. */
  lemma ImgurUrlUsesImgurRule(sub: Submission, rest: string, tmpDir: string)
    requires sub.url == Some(ImgurPattern + rest)
    ensures Resolve(sub, tmpDir) == ImgurRule(ImgurPattern + rest, tmpDir)
  {
    assert ImgurPattern + rest == ImgurHost + ("/" + rest);
    StartsWithAppended(ImgurHost, "/" + rest);
  }

  /** The pattern of a `<suffix>` branch captures the id of `https://i.imgur.com/<id>.<suffix>`. */
  lemma ImgurCaptureOf(url: string, id: string, suffix: string)
    requires 1 <= |id| && '\n' !in id && '\n' !in suffix
    requires url == ImgurPattern + id + "." + suffix
    ensures Capture(url, ImgurPattern, Literal("." + suffix)) == Some(id)
  {
    assert url == ImgurPattern + id + ("." + suffix);
    CaptureLiteralRoundTrip(ImgurPattern, id, "." + suffix);
  }

  /** The host and suffix tests route `https://i.imgur.com/<id>.<suffix>` to the `<suffix>` branch. */
  lemma ImgurRouting(sub: Submission, id: string, suffix: string, tmpDir: string)
    requires suffix in {"gifv", "gif", "jpg", "png"}
    requires sub.url == Some(ImgurPattern + id + "." + suffix)
    ensures Resolve(sub, tmpDir) == ImgurSuffixRule(ImgurPattern + id + "." + suffix, suffix, tmpDir)
  {
    var url := ImgurPattern + id + "." + suffix;
    assert url == ImgurPattern + (id + "." + suffix);
    ImgurUrlUsesImgurRule(sub, id + "." + suffix, tmpDir);
    ImgurSuffixOf(ImgurPattern + id, suffix);
  }

  /** `https://i.imgur.com/<id>.gifv` downloads from imgur's download endpoint as a gif. */
  lemma ImgurGifvResolves(sub: Submission, id: string, tmpDir: string)
    requires 1 <= |id| && '\n' !in id
    requires sub.url == Some(ImgurPattern + id + ".gifv")
    ensures Resolve(sub, tmpDir) == Resolved(Target("https://imgur.com/download/" + id, tmpDir + "/" + id, "gif"))
  {
    var url := ImgurPattern + id + ".gifv";
    assert url == ImgurPattern + id + "." + "gifv";
    ImgurRouting(sub, id, "gifv", tmpDir);
    ImgurCaptureOf(url, id, "gifv");
  }

  /** `https://i.imgur.com/<id>.<ext>` for ext gif/jpg/png downloads that same URL, with ext as default. */
  lemma ImgurImageResolves(sub: Submission, id: string, ext: string, tmpDir: string)
    requires ext in {"gif", "jpg", "png"}
    requires 1 <= |id| && '\n' !in id
    requires sub.url == Some(ImgurPattern + id + "." + ext)
    ensures Resolve(sub, tmpDir) == Resolved(Target("https://i.imgur.com/" + id + "." + ext, tmpDir + "/" + id, ext))
  {
    var url := ImgurPattern + id + "." + ext;
    ImgurRouting(sub, id, ext, tmpDir);
    ImgurCaptureOf(url, id, ext);
    ImgurRuleOnImage(url, id, ext, tmpDir);
  }

  lemma ImgurRuleOnImage(url: string, id: string, ext: string, tmpDir: string)
    requires ext != "gifv"
    requires Capture(url, ImgurPattern, Literal("." + ext)) == Some(id)
    ensures ImgurSuffixRule(url, ext, tmpDir) == Resolved(Target("https://i.imgur.com/" + id + "." + ext, tmpDir + "/" + id, ext))
  {
  }

  /** An imgur URL with any other ending is declined, never raised on. */
  lemma ImgurOtherSuffixUnresolved(sub: Submission, tmpDir: string)
    requires sub.url.Some? && StartsWith(sub.url.value, ImgurHost)
    requires forall suffix :: suffix in {"gifv", "gif", "jpg", "png"} ==> !EndsWith(sub.url.value, suffix)
    ensures Resolve(sub, tmpDir) == Unresolved
  {
  }

  /** A v.redd.it URL with gif-video metadata downloads its `fallback_url` as mp4. */
  lemma VRedditGifResolves(sub: Submission, id: string, fallback: string, tmpDir: string)
    requires 1 <= |id| && '\n' !in id
    requires sub.url == Some(VRedditPrefix + id)
    requires GifVideo(sub.media)
    requires sub.media.value.redditVideo.value.fallbackUrl == Present(fallback)
    ensures Resolve(sub, tmpDir) == Resolved(Target(fallback, tmpDir + "/" + id, "mp4"))
  {
    var url := VRedditPrefix + id;
    StartsWithAppended(VRedditPrefix, id);
    assert !StartsWith(url, ImgurHost) by {
      assert url[0..9] == VRedditPrefix[0..9];
      assert VRedditPrefix[8] != ImgurHost[8];
    }
    CaptureRestRoundTrip(VRedditPrefix, id);
  }

  /**
    A gif video whose `fallback_url` is `null` leaves `download_url` at
    `None`: the submission is skipped rather than raised on.
  */
  lemma VRedditNullFallbackUnresolved(sub: Submission, id: string, tmpDir: string)
    requires 1 <= |id| && '\n' !in id
    requires sub.url == Some(VRedditPrefix + id)
    requires GifVideo(sub.media)
    requires sub.media.value.redditVideo.value.fallbackUrl == Null
    ensures Resolve(sub, tmpDir) == Unresolved
  {
    var url := VRedditPrefix + id;
    StartsWithAppended(VRedditPrefix, id);
    assert !StartsWith(url, ImgurHost) by {
      assert url[8] == VRedditPrefix[8];
    }
    CaptureRestRoundTrip(VRedditPrefix, id);
  }

  /** An i.redd.it URL is downloaded unchanged; its media id ends before the last `.<word>`. */
  lemma IRedditResolves(sub: Submission, id: string, ext: string, tmpDir: string)
    requires 1 <= |id| && '\n' !in id
    requires 1 <= |ext| && forall i :: 0 <= i < |ext| ==> IsWordChar(ext[i])
    requires sub.url == Some(IRedditPrefix + id + "." + ext)
    ensures Resolve(sub, tmpDir) == Resolved(Target(IRedditPrefix + id + "." + ext, tmpDir + "/" + id, "jpg"))
  {
    var url := IRedditPrefix + id + "." + ext;
    assert url == IRedditPrefix + (id + "." + ext);
    StartsWithAppended(IRedditPrefix, id + "." + ext);
    assert !StartsWith(url, ImgurHost) by {
      assert url[10] == IRedditPrefix[10];
    }
    assert !StartsWith(url, VRedditPrefix) by {
      assert url[8] == IRedditPrefix[8];
    }
    assert '\n' !in ext by {
      forall i | 0 <= i < |ext| ensures ext[i] != '\n' {
        assert IsWordChar(ext[i]);
      }
    }
    CaptureDotWordRoundTrip(IRedditPrefix, id, ext);
  }

  /** A gfycat `.gif` URL is rewritten to the giant.gfycat.com CDN. */
  lemma GfycatGifResolves(sub: Submission, id: string, tmpDir: string)
    requires 1 <= |id| && '\n' !in id
    requires sub.url == Some(GfycatPrefix + id + ".gif")
    ensures Resolve(sub, tmpDir) == Resolved(Target("https://giant.gfycat.com/" + id + ".gif", tmpDir + "/" + id, "gif"))
  {
    var url := GfycatPrefix + id + ".gif";
    assert url == GfycatPrefix + (id + ".gif");
    StartsWithAppended(GfycatPrefix, id + ".gif");
    assert url == (GfycatPrefix + id + ".") + "gif";
    EndsWithAppended(GfycatPrefix + id + ".", "gif");
    assert !StartsWith(url, ImgurHost) by {
      assert url[8] == GfycatPrefix[8];
    }
    assert !StartsWith(url, VRedditPrefix) by {
      assert url[8] == GfycatPrefix[8];
    }
    assert !StartsWith(url, IRedditPrefix) by {
      assert url[8] == GfycatPrefix[8];
    }
    CaptureLiteralRoundTrip(GfycatPrefix, id, ".gif");
  }

  /** A gfycat URL that does not end in `gif` leaves `download_url` unset. */
  lemma GfycatOtherSuffixUnresolved(sub: Submission, rest: string, tmpDir: string)
    requires sub.url == Some(GfycatPrefix + rest) && !EndsWith(GfycatPrefix + rest, "gif")
    ensures Resolve(sub, tmpDir) == Unresolved
  {
    var url := GfycatPrefix + rest;
    StartsWithAppended(GfycatPrefix, rest);
    assert !StartsWith(url, ImgurHost) by {
      assert url[8] == GfycatPrefix[8];
    }
    assert !StartsWith(url, VRedditPrefix) by {
      assert url[8] == GfycatPrefix[8];
    }
    assert !StartsWith(url, IRedditPrefix) by {
      assert url[8] == GfycatPrefix[8];
    }
  }

  /**
    The newer resolver never raises on a URL none of its host tests accept,
    and raises only from a rule whose host test passed.
  */
  lemma RaisesOnlyOnKnownHosts(sub: Submission, tmpDir: string)
    requires Resolve(sub, tmpDir).Raised?
    ensures sub.url.Some? && KnownHost(sub.url.value)
  {
  }

  /** A malformed imgur URL that passes the host and suffix tests raises instead of being skipped. */
  lemma MalformedImgurRaises(sub: Submission, tmpDir: string)
    requires sub.url == Some("https://i.imgur.com/.gif")
    ensures Resolve(sub, tmpDir) == Raised(IndexError)
  {
    var url := "https://i.imgur.com/.gif";
    assert StartsWith(url, ImgurHost);
    assert EndsWith(url, "gif") && !EndsWith(url, "gifv");
    assert FirstLine(url[|ImgurPattern|..]) == ".gif";
  }

  // ---- The older resolver against the newer one ---------------------------

  /**
    Outside plain-http imgur URLs and v.redd.it submissions without a media
    blob, the two resolvers agree.
  */
  lemma LegacyAgreesWithCurrent(sub: Submission, tmpDir: string)
    requires sub.url.Some? ==> !StartsWith(sub.url.value, ImgurHttpHost)
    requires sub.url.Some? && StartsWith(sub.url.value, VRedditPrefix) ==> sub.media.Some?
    ensures ResolveLegacy(sub, tmpDir) == Resolve(sub, tmpDir)
  {
  }

  /**
    A plain-http imgur URL with a recognised suffix passes the older host
    test but can never match the https-only pattern: it raises.
  */
  lemma LegacyHttpImgurRaises(sub: Submission, tmpDir: string)
    requires sub.url.Some? && StartsWith(sub.url.value, ImgurHttpHost)
    requires ImgurSuffix(sub.url.value).Some?
    ensures ResolveLegacy(sub, tmpDir) == Raised(IndexError)
  {
    var url := sub.url.value;
    var suffix := ImgurSuffix(url).value;
    assert !StartsWith(url, ImgurPattern) by {
      assert url[4] == ImgurHttpHost[4];
    }
  }

  /** The older v.redd.it rule raises `TypeError` on a submission with no media blob. */
  lemma LegacyVRedditWithoutMediaRaises(sub: Submission, tmpDir: string)
    requires sub.url.Some? && StartsWith(sub.url.value, VRedditPrefix)
    requires sub.media.None?
    ensures ResolveLegacy(sub, tmpDir) == Raised(TypeError)
  {
    var url := sub.url.value;
    assert !StartsWith(url, ImgurHttpHost) && !StartsWith(url, ImgurHost) by {
      assert url[8] == VRedditPrefix[8];
    }
  }
}
