/**
  Telegram media kinds and the extension rule that picks one for a file
  (`TelegramWrapper.determine_media_type`), together with the part of
  `os.path.splitext` that rule depends on.
*/
module MediaTypes {

  /** `TelegramMediaType`, in declaration order. */
  datatype MediaType = Image | Video | Animation | Document | Audio

  /** Every media type, in the order Python's enum iteration yields them. */
  const AllMediaTypes: seq<MediaType> := [Image, Video, Animation, Document, Audio]

  lemma AllMediaTypesComplete(t: MediaType)
    ensures t in AllMediaTypes
  {
  }

  /** `media_type.name.lower()`: the name used in statistics keys. */
  function TypeName(t: MediaType): (name: string)
    ensures 5 <= |name| && '_' !in name
  {
    match t
    case Image => "image"
    case Video => "video"
    case Animation => "animation"
    case Document => "document"
    case Audio => "audio"
  }

  lemma TypeNameInjective(a: MediaType, b: MediaType)
    requires TypeName(a) == TypeName(b)
    ensures a == b
  {
    // names of equal length differ in their first character
    assert TypeName(a)[0] == TypeName(b)[0];
  }

  /** `str.rfind`: the last index of `c` in `s`, or -1. */
  function RFind(s: string, c: char): (r: int)
    ensures -1 <= r < |s|
    ensures r >= 0 ==> s[r] == c
    ensures forall i :: r < i < |s| ==> s[i] != c
  {
    if |s| == 0 then -1
    else if s[|s| - 1] == c then |s| - 1
    else RFind(s[..|s| - 1], c)
  }

  /**
    `os.path.splitext(path)[1][1:]` for POSIX paths: the text after the last
    dot of the last path component, provided that component has a
    character other than a dot before that last dot (leading dots do not
    start an extension).
  */
  function PathExtension(path: string): string {
    var sep := RFind(path, '/');
    var dot := RFind(path, '.');
    if dot > sep && exists i :: sep + 1 <= i < dot && path[i] != '.' then
      path[dot + 1..]
    else
      ""
  }

  /**
    `determine_media_type`: `gif` is an animation, `jpg`/`png` an image,
    `mp4`/`avi`/`webm` a video, and anything else (no extension included)
    a document.  Audio is never chosen by extension.
  */
  function MediaTypeOf(path: string): (t: MediaType)
    ensures t == Animation <==> PathExtension(path) == "gif"
    ensures t == Image <==> PathExtension(path) in {"jpg", "png"}
    ensures t == Video <==> PathExtension(path) in {"mp4", "avi", "webm"}
    ensures t == Document <==> PathExtension(path) !in {"gif", "jpg", "png", "mp4", "avi", "webm"}
    ensures t != Audio
  {
    var ext := PathExtension(path);
    if ext == "gif" then Animation
    else if ext == "jpg" || ext == "png" then Image
    else if ext == "mp4" || ext == "avi" || ext == "webm" then Video
    else Document
  }

  /**
    Appending `"." + ext` to a base whose last character is neither a dot
    nor a slash makes `ext` the path's extension, as long as `ext` has no
    dot or slash of its own.  This is how downloaded files get named.
  */
  lemma ExtensionOfAppended(base: string, ext: string)
    requires |base| >= 1 && base[|base| - 1] != '.' && base[|base| - 1] != '/'
    requires '.' !in ext && '/' !in ext
    ensures PathExtension(base + "." + ext) == ext
  {
    var path := base + "." + ext;
    var dot := RFind(path, '.');
    var sep := RFind(path, '/');
    assert path[|base|] == '.';
    forall i | |base| < i < |path|
      ensures path[i] != '.' && path[i] != '/'
    {
      assert path[i] == ext[i - |base| - 1];
    }
    assert dot == |base|;
    assert sep < |base| - 1;
    assert path[|base| - 1] != '.';
    assert path[dot + 1..] == ext;
  }

  /** The media type of a downloaded file follows its appended extension. */
  lemma MediaTypeOfAppended(base: string, ext: string)
    requires |base| >= 1 && base[|base| - 1] != '.' && base[|base| - 1] != '/'
    requires '.' !in ext && '/' !in ext
    ensures ext == "gif" ==> MediaTypeOf(base + "." + ext) == Animation
    ensures ext == "jpg" || ext == "png" ==> MediaTypeOf(base + "." + ext) == Image
    ensures ext == "mp4" || ext == "avi" || ext == "webm" ==> MediaTypeOf(base + "." + ext) == Video
  {
    ExtensionOfAppended(base, ext);
  }

  /** A path with no dot at all has no extension, so it is a document. */
  lemma NoDotIsDocument(path: string)
    requires '.' !in path
    ensures MediaTypeOf(path) == Document
  {
    assert RFind(path, '.') == -1;
  }
}
