/**
  Locating the local file behind a delivered Telegram message
  (`TelegramHelper.extract_media_path`).  Telegram echoes the message it
  delivered; for the five media contents the local path of the uploaded
  file sits in a content-specific place.
*/
module Delivery {
  import opened Maybe

  /** `{'local': {'path': ...}}`: a file as TDLib describes it. */
  datatype LocalFile = LocalFile(path: string)
  datatype File = File(local: LocalFile)

  /** One entry of `photo['sizes']`: its `type` letter and its file. */
  datatype PhotoSize = PhotoSize(sizeType: string, photo: File)

  /**
    `message['content']`, by its `@type`.  For video, animation, document and
    audio the file is the one at `content.<kind>.<kind>`.
  */
  datatype MessageContent =
    | MessagePhoto(sizes: seq<PhotoSize>)
    | MessageVideo(video: File)
    | MessageAnimation(animation: File)
    | MessageDocument(document: File)
    | MessageAudio(audio: File)
    | OtherContent(typeTag: string)   // any other `@type`: text, stickers, ...

  datatype Message = Message(content: MessageContent)

  /** The photo size `extract_media_path` keeps: the last one whose type is `'i'`. */
  function LastInputSize(sizes: seq<PhotoSize>): (r: Option<LocalFile>)
    ensures r.None? <==> forall j :: 0 <= j < |sizes| ==> sizes[j].sizeType != "i"
    ensures r.Some? ==> exists j :: 0 <= j < |sizes| && sizes[j].sizeType == "i" && r.value == sizes[j].photo.local
                                   && forall k :: j < k < |sizes| ==> sizes[k].sizeType != "i"
  {
    if |sizes| == 0 then None
    else if sizes[|sizes| - 1].sizeType == "i" then Some(sizes[|sizes| - 1].photo.local)
    else
      var r := LastInputSize(sizes[..|sizes| - 1]);
      assert forall k :: 0 <= k < |sizes| - 1 ==> sizes[..|sizes| - 1][k] == sizes[k];
      r
  }

  /** The local file a message's content refers to, if `extract_media_path` finds one. */
  function ContentFile(c: MessageContent): Option<LocalFile> {
    match c
    case MessagePhoto(sizes) => LastInputSize(sizes)
    case MessageVideo(f) => Some(f.local)
    case MessageAnimation(f) => Some(f.local)
    case MessageDocument(f) => Some(f.local)
    case MessageAudio(f) => Some(f.local)
    case OtherContent(_) => None
  }

  /**
    The path the delivery handler removes: the local path of the content's
    file, copied verbatim, or nothing.
  */
  function MediaPath(m: Message): (r: Option<string>)
    ensures m.content.OtherContent? ==> r.None?
    ensures m.content.MessageVideo? ==> r == Some(m.content.video.local.path)
    ensures m.content.MessageAnimation? ==> r == Some(m.content.animation.local.path)
    ensures m.content.MessageDocument? ==> r == Some(m.content.document.local.path)
    ensures m.content.MessageAudio? ==> r == Some(m.content.audio.local.path)
    ensures m.content.MessagePhoto? ==>
              (r.Some? <==> exists j :: 0 <= j < |m.content.sizes| && m.content.sizes[j].sizeType == "i")
    ensures m.content.MessagePhoto? && r.Some? ==>
              exists j :: 0 <= j < |m.content.sizes| && m.content.sizes[j].sizeType == "i"
                          && r.value == m.content.sizes[j].photo.local.path
                          && forall k :: j < k < |m.content.sizes| ==> m.content.sizes[k].sizeType != "i"
  {
    match ContentFile(m.content)
    case Some(local) => Some(local.path)
    case None => None
  }

  /**
    `extract_media_path` as written: photo sizes are scanned front to back
    and every `'i'` size overwrites the file found so far.
  */
  method ExtractMediaPath(m: Message) returns (path: Option<string>)
    ensures path == MediaPath(m)
  {
    var local: Option<LocalFile> := None;
    match m.content {
      case MessagePhoto(sizes) =>
        var i := 0;
        while i < |sizes|
          invariant 0 <= i <= |sizes|
          invariant local == LastInputSize(sizes[..i])
        {
          if sizes[i].sizeType == "i" {
            local := Some(sizes[i].photo.local);
          }
          assert sizes[..i + 1][..i] == sizes[..i];
          i := i + 1;
        }
        assert sizes[..i] == sizes;
      case MessageVideo(f) =>
        local := Some(f.local);
      case MessageAnimation(f) =>
        local := Some(f.local);
      case MessageDocument(f) =>
        local := Some(f.local);
      case MessageAudio(f) =>
        local := Some(f.local);
      case OtherContent(_) =>
    }
    path := if local.Some? then Some(local.value.path) else None;
  }
}
