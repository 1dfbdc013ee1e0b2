/**
  The pure parts of `TelegramWrapper`: the authorization state machine
  driven by `authorizationState*` updates and the `set_tdlib_*` calls,
  the input-message contents built for media, chat selection in the
  `send_*_message` calls, and the message-sent subscriber set.  Every
  call into TDLib (`_td_client_send`) is modelled as a request the call
  emits; the JSON client, its receive thread and logging are not modelled.
*/
module Telegram {
  import opened Maybe
  import opened MediaTypes

  // ---- Authorization -------------------------------------------------------------

  /** `TelegramAuthState`. */
  datatype AuthState =
    | WaitRequest
    | WaitTdlibParameters
    | WaitEncryptionKey
    | WaitPhoneNumber
    | WaitMfaCode
    | WaitPassword
    | Ready

  /** The state a freshly constructed wrapper is in. */
  const InitialAuthState: AuthState := WaitRequest

  /** The fixed fields of `setTdlibParameters` next to the caller's three. */
  datatype TdlibParameters = TdlibParameters(
    databaseDirectory: string,
    apiId: int,
    apiHash: string,
    systemLanguageCode: string,
    deviceModel: string,
    systemVersion: string,
    applicationVersion: string,
    enableStorageOptimizer: bool)

  /** `inputFileLocal`: a file given by its local path. */
  datatype InputFile = InputFileLocal(path: string)

  /** The `inputMessage*` contents the wrapper builds. */
  datatype InputContent =
    | InputMessageAnimation(animation: InputFile, caption: string)
    | InputMessagePhoto(photo: InputFile, caption: string)
    | InputMessageDocument(document: InputFile, caption: string)
    | InputMessageAudio(audio: InputFile, caption: string)
    | InputMessageVideo(video: InputFile, caption: string, supportsStreaming: bool)
    | InputMessageText(text: string)

  /** A request handed to `_td_client_send`. */
  datatype Request =
    | CheckDatabaseEncryptionKey(key: string)
    | SetTdlibParameters(parameters: TdlibParameters)
    | SetAuthenticationPhoneNumber(phoneNumber: string)
    | CheckAuthenticationCode(code: string)
    | CheckAuthenticationPassword(password: string)
    | SendMessage(chatId: int, content: InputContent)
    | SendMessageAlbum(chatId: int, contents: seq<InputContent>)

  /** The state after an update, and what handling it sent. */
  datatype AuthStep = AuthStep(state: AuthState, sent: seq<Request>)

  /**
    The `@type` of the `authorizationState*` update that announces each
    state; `WAIT_REQUEST` is never announced, only entered by the wrapper.
  */
  function AnnouncedBy(s: AuthState): Option<string> {
    match s
    case WaitRequest => None
    case WaitTdlibParameters => Some("authorizationStateWaitTdlibParameters")
    case WaitEncryptionKey => Some("authorizationStateWaitEncryptionKey")
    case WaitPhoneNumber => Some("authorizationStateWaitPhoneNumber")
    case WaitMfaCode => Some("authorizationStateWaitCode")
    case WaitPassword => Some("authorizationStateWaitPassword")
    case Ready => Some("authorizationStateReady")
  }

  /** Different states are announced by different updates. */
  lemma AnnouncedByInjective(a: AuthState, b: AuthState)
    requires AnnouncedBy(a).Some? && AnnouncedBy(a) == AnnouncedBy(b)
    ensures a == b
  {
    var ta, tb := AnnouncedBy(a).value, AnnouncedBy(b).value;
    // the announcing tags differ at index 22, or in length
    assert |ta| == |tb| ==> ta[22] == tb[22];
  }

  /**
    `_process_authorization`: an update announcing a state moves the wrapper
    into it, and the encryption-key update also answers with the key
    `my_key`; any other update leaves the state as it was and sends nothing.
  */
  function ProcessAuthorization(state: AuthState, tag: string): (r: AuthStep)
    ensures forall s :: AnnouncedBy(s) == Some(tag) ==> r.state == s
    ensures AnnouncedBy(r.state) != Some(tag) ==> r == AuthStep(state, [])
    ensures r.sent == (if AnnouncedBy(WaitEncryptionKey) == Some(tag) then [CheckDatabaseEncryptionKey("my_key")] else [])
  {
    if tag == "authorizationStateWaitTdlibParameters" then AuthStep(WaitTdlibParameters, [])
    else if tag == "authorizationStateWaitEncryptionKey" then AuthStep(WaitEncryptionKey, [CheckDatabaseEncryptionKey("my_key")])
    else if tag == "authorizationStateWaitPhoneNumber" then AuthStep(WaitPhoneNumber, [])
    else if tag == "authorizationStateWaitCode" then AuthStep(WaitMfaCode, [])
    else if tag == "authorizationStateWaitPassword" then AuthStep(WaitPassword, [])
    else if tag == "authorizationStateReady" then AuthStep(Ready, [])
    else AuthStep(state, [])
  }

  /** Every state but `WAIT_REQUEST` is reachable from any state by its update. */
  lemma EveryAnnouncedStateReachable(from: AuthState, s: AuthState)
    requires s != WaitRequest
    ensures ProcessAuthorization(from, AnnouncedBy(s).value).state == s
  {
  }

  /** A credential a `set_tdlib_*` call submits. */
  datatype Credential =
    | Parameters(apiId: int, apiHash: string, databaseDirectory: string)
    | Phone(phone: string)
    | MfaCode(code: string)
    | Password(password: string)

  /** `tdlib_database_directory`'s default. */
  const DefaultDatabaseDirectory := "tdlib_db"

  /** The only state in which each `set_tdlib_*` call is accepted. */
  function ExpectedState(c: Credential): AuthState {
    match c
    case Parameters(_, _, _) => WaitTdlibParameters
    case Phone(_) => WaitPhoneNumber
    case MfaCode(_) => WaitMfaCode
    case Password(_) => WaitPassword
  }

  /** The request an accepted credential sends. */
  function RequestFor(c: Credential): Request {
    match c
    case Parameters(apiId, apiHash, dir) =>
      SetTdlibParameters(TdlibParameters(dir, apiId, apiHash, "en", "Desktop", "Linux", "0.1", true))
    case Phone(phone) => SetAuthenticationPhoneNumber(phone)
    case MfaCode(code) => CheckAuthenticationCode(code)
    case Password(password) => CheckAuthenticationPassword(password)
  }

  /** The result of a `set_tdlib_*` call: the new state and the request sent, or `TelegramAuthError`. */
  datatype Submission = Accepted(state: AuthState, request: Request) | TelegramAuthError(message: string)

  /** `TelegramAuthError`'s message for a credential that arrives out of turn. */
  function RejectionMessage(c: Credential): string {
    match c
    case Parameters(_, _, _) => "Not expecting TDLib parameters now."
    case Phone(_) => "Not expecting phone number now."
    case MfaCode(_) => "Not expecting MFA code now."
    case Password(_) => "Not expecting password now."
  }

  /**
    `set_tdlib_parameters`, `set_tdlib_phone`, `set_tdlib_mfa_code` and
    `set_tdlib_password`: accepted exactly in the credential's own wait
    state, in which case its request is sent and the wrapper waits for the
    next update; otherwise `TelegramAuthError` is raised, nothing is sent
    and the state (held by the caller) is unchanged.
  */
  function Submit(state: AuthState, c: Credential): (r: Submission)
    ensures r.Accepted? <==> state == ExpectedState(c)
    ensures r.Accepted? ==> r.state == WaitRequest && r.request == RequestFor(c)
    ensures r.TelegramAuthError? ==> r.message == RejectionMessage(c)
  {
    match c
    case Parameters(_, _, _) =>
      if state == WaitTdlibParameters then Accepted(WaitRequest, RequestFor(c)) else TelegramAuthError(RejectionMessage(c))
    case Phone(_) =>
      if state == WaitPhoneNumber then Accepted(WaitRequest, RequestFor(c)) else TelegramAuthError(RejectionMessage(c))
    case MfaCode(_) =>
      if state == WaitMfaCode then Accepted(WaitRequest, RequestFor(c)) else TelegramAuthError(RejectionMessage(c))
    case Password(_) =>
      if state == WaitPassword then Accepted(WaitRequest, RequestFor(c)) else TelegramAuthError(RejectionMessage(c))
  }

  /**
    The handshake: once the update announcing a credential's wait state
    arrives, that credential is accepted, from whatever state the wrapper
    was in; every other kind of credential is refused at that point.
  */
  lemma AnnouncedWaitAcceptsItsCredential(from: AuthState, c: Credential, other: Credential)
    ensures var s := ProcessAuthorization(from, AnnouncedBy(ExpectedState(c)).value).state;
            Submit(s, c).Accepted? && (Submit(s, other).Accepted? <==> ExpectedState(other) == ExpectedState(c))
  {
  }

  /**
    A credential is never accepted twice in a row: an accepted one leaves
    the wrapper in `WAIT_REQUEST`, where every `set_tdlib_*` call fails
    until TDLib announces the next wait state.
  */
  lemma NoSubmissionWithoutAnnouncement(state: AuthState, c: Credential, next: Credential)
    requires Submit(state, c).Accepted?
    ensures Submit(Submit(state, c).state, next).TelegramAuthError?
  {
  }

  /**
    `set_tdlib_parameters` called without a directory, when TDLib waits for
    the parameters: the request names `tdlib_db` as the database directory
    and carries the fixed language, device, system and version fields.
  */
  lemma DefaultParametersRequest(apiId: int, apiHash: string)
    ensures Submit(WaitTdlibParameters, Parameters(apiId, apiHash, DefaultDatabaseDirectory))
            == Accepted(WaitRequest, SetTdlibParameters(
                 TdlibParameters("tdlib_db", apiId, apiHash, "en", "Desktop", "Linux", "0.1", true)))
  {
  }

  /** The four kinds of credential wait in four different states. */
  lemma ExpectedStateSeparatesKinds(a: Credential, b: Credential)
    requires ExpectedState(a) == ExpectedState(b)
    ensures a.Parameters? == b.Parameters? && a.Phone? == b.Phone? && a.MfaCode? == b.MfaCode? && a.Password? == b.Password?
  {
  }

  // ---- Message contents -------------------------------------------------------------

  /** The media type a content carries, if it carries media. */
  function ContentMediaType(c: InputContent): Option<MediaType> {
    match c
    case InputMessageAnimation(_, _) => Some(Animation)
    case InputMessagePhoto(_, _) => Some(Image)
    case InputMessageDocument(_, _) => Some(Document)
    case InputMessageAudio(_, _) => Some(Audio)
    case InputMessageVideo(_, _, _) => Some(Video)
    case InputMessageText(_) => None
  }

  /** The file a content carries, if it carries media. */
  function ContentFile(c: InputContent): Option<InputFile> {
    match c
    case InputMessageAnimation(f, _) => Some(f)
    case InputMessagePhoto(f, _) => Some(f)
    case InputMessageDocument(f, _) => Some(f)
    case InputMessageAudio(f, _) => Some(f)
    case InputMessageVideo(f, _, _) => Some(f)
    case InputMessageText(_) => None
  }

  /** The caption of a media content, or the text of a text content. */
  function ContentText(c: InputContent): string {
    match c
    case InputMessageAnimation(_, caption) => caption
    case InputMessagePhoto(_, caption) => caption
    case InputMessageDocument(_, caption) => caption
    case InputMessageAudio(_, caption) => caption
    case InputMessageVideo(_, caption, _) => caption
    case InputMessageText(text) => text
  }

  /**
    `_get_media_fie_content`: the `inputMessage*` content of the media
    type's own kind, carrying the local file and caption verbatim; video is
    the fall-through branch and the only one marked streamable.
  */
  function MediaContent(path: string, t: MediaType, caption: string): (r: InputContent)
    ensures ContentMediaType(r) == Some(t)
    ensures ContentFile(r) == Some(InputFileLocal(path))
    ensures ContentText(r) == caption
    ensures r.InputMessageVideo? <==> t == Video
    ensures r.InputMessageVideo? ==> r.supportsStreaming
  {
    var media := InputFileLocal(path);
    if t == Animation then InputMessageAnimation(media, caption)
    else if t == Image then InputMessagePhoto(media, caption)
    else if t == Document then InputMessageDocument(media, caption)
    else if t == Audio then InputMessageAudio(media, caption)
    else
      assert t == Video;
      InputMessageVideo(media, caption, true)
  }

  /** Different (path, type, caption) triples make different contents. */
  lemma MediaContentInjective(p1: string, t1: MediaType, c1: string, p2: string, t2: MediaType, c2: string)
    requires MediaContent(p1, t1, c1) == MediaContent(p2, t2, c2)
    ensures p1 == p2 && t1 == t2 && c1 == c2
  {
    var r := MediaContent(p1, t1, c1);
    assert Some(t1) == ContentMediaType(r) == Some(t2);
    assert Some(InputFileLocal(p1)) == ContentFile(r) == Some(InputFileLocal(p2));
  }

  /** `TelegramAlbumMediaType`: the two kinds an album may hold. */
  datatype AlbumMediaType = AlbumImage | AlbumVideo

  /** `TelegramMediaType(x)`: album kinds share their values with the media types. */
  function AlbumToMediaType(a: AlbumMediaType): (t: MediaType)
    ensures t == Image || t == Video
  {
    match a
    case AlbumImage => Image
    case AlbumVideo => Video
  }

  /** One album entry: path, kind and caption. */
  datatype AlbumItem = AlbumItem(path: string, kind: AlbumMediaType, caption: string)

  /** The contents of an album, one per entry and in order. */
  function AlbumContents(items: seq<AlbumItem>): (r: seq<InputContent>)
    ensures |r| == |items|
    ensures forall i :: 0 <= i < |items| ==>
              ContentFile(r[i]) == Some(InputFileLocal(items[i].path))
              && ContentMediaType(r[i]) == Some(AlbumToMediaType(items[i].kind))
              && ContentText(r[i]) == items[i].caption
  {
    seq(|items|, i requires 0 <= i < |items| =>
      MediaContent(items[i].path, AlbumToMediaType(items[i].kind), items[i].caption))
  }

  // ---- Chat selection and sending ---------------------------------------------------

  /**
    The keyword arguments naming the target chat.  `chatId` is `None` when
    `chat_id` is not passed and `Some(v)` when it is, `v` being the value
    passed, which may itself be Python's `None`.
  */
  datatype Target = Target(chatId: Option<Option<int>>, chatTitle: Option<string>)

  /**
    The chat-id selection of `send_*_message`: a passed `chat_id` wins and
    the title is not consulted; otherwise a passed title is looked up in the
    map `update_chat_ids` fills; `None` means nothing is sent.
  */
  function SelectChat(target: Target, chatIds: map<string, int>): (r: Option<int>)
    ensures target.chatId.Some? ==> r == target.chatId.value
    ensures target.chatId.None? ==>
              (r.Some? <==> target.chatTitle.Some? && target.chatTitle.value in chatIds)
    ensures target.chatId.None? && r.Some? ==> r.value == chatIds[target.chatTitle.value]
  {
    match target.chatId
    case Some(id) => id
    case None =>
      match target.chatTitle
      case Some(title) => if title in chatIds then Some(chatIds[title]) else None
      case None => None
  }

  /** What a `send_*_message` call returns and sends. */
  datatype SendResult = SendResult(ok: bool, sent: seq<Request>)

  /** `send_media_message`; a missing `caption` is the empty caption. */
  function SendMediaMessage(target: Target, chatIds: map<string, int>, path: string, t: MediaType,
                            caption: Option<string>): (r: SendResult)
    ensures r.ok <==> SelectChat(target, chatIds).Some?
    ensures !r.ok ==> r.sent == []
    ensures r.ok ==> |r.sent| == 1 && r.sent[0].SendMessage?
                     && r.sent[0].chatId == SelectChat(target, chatIds).value
                     && ContentFile(r.sent[0].content) == Some(InputFileLocal(path))
                     && ContentMediaType(r.sent[0].content) == Some(t)
                     && ContentText(r.sent[0].content) == caption.GetOr("")
  {
    match SelectChat(target, chatIds)
    case Some(chatId) => SendResult(true, [SendMessage(chatId, MediaContent(path, t, caption.GetOr("")))])
    case None => SendResult(false, [])
  }

  /** `send_text_message`. */
  function SendTextMessage(target: Target, chatIds: map<string, int>, text: string): (r: SendResult)
    ensures r.ok <==> SelectChat(target, chatIds).Some?
    ensures !r.ok ==> r.sent == []
    ensures r.ok ==> r.sent == [SendMessage(SelectChat(target, chatIds).value, InputMessageText(text))]
  {
    match SelectChat(target, chatIds)
    case Some(chatId) => SendResult(true, [SendMessage(chatId, InputMessageText(text))])
    case None => SendResult(false, [])
  }

  /** `send_album_message`. */
  function SendAlbumMessage(target: Target, chatIds: map<string, int>, items: seq<AlbumItem>): (r: SendResult)
    ensures r.ok <==> SelectChat(target, chatIds).Some?
    ensures !r.ok ==> r.sent == []
    ensures r.ok ==> |r.sent| == 1 && r.sent[0].SendMessageAlbum?
                     && r.sent[0].chatId == SelectChat(target, chatIds).value
                     && |r.sent[0].contents| == |items|
                     && forall i :: 0 <= i < |items| ==>
                          ContentFile(r.sent[0].contents[i]) == Some(InputFileLocal(items[i].path))
                          && ContentMediaType(r.sent[0].contents[i]) == Some(AlbumToMediaType(items[i].kind))
                          && ContentText(r.sent[0].contents[i]) == items[i].caption
  {
    match SelectChat(target, chatIds)
    case Some(chatId) => SendResult(true, [SendMessageAlbum(chatId, AlbumContents(items))])
    case None => SendResult(false, [])
  }

  /** An explicit `chat_id` makes the title, and the map, irrelevant. */
  lemma ExplicitChatIdWins(id: Option<int>, t1: Option<string>, t2: Option<string>, m1: map<string, int>, m2: map<string, int>)
    ensures SelectChat(Target(Some(id), t1), m1) == SelectChat(Target(Some(id), t2), m2) == id
  {
  }

  /**
    A title the map does not know sends nothing, and so does a call naming
    no chat; a title added to the map by `update_chat_ids` is then found.
  */
  lemma UnknownTitleSendsNothing(title: string, chatIds: map<string, int>, id: int, text: string)
    requires title !in chatIds
    ensures SendTextMessage(Target(None, Some(title)), chatIds, text) == SendResult(false, [])
    ensures SendTextMessage(Target(None, None), chatIds, text) == SendResult(false, [])
    ensures SendTextMessage(Target(None, Some(title)), chatIds[title := id], text).sent
            == [SendMessage(id, InputMessageText(text))]
  {
  }

  // ---- Message-sent subscribers ------------------------------------------------------

  /** A subscriber, by identity. */
  type Callback = nat

  /** One invocation `callback(message)`. */
  datatype Call<M> = Call(callback: Callback, message: M)

  /** `subscribe_message_sent`: `callback` is a subscriber afterwards, and no one else changes. */
  function Subscribe(subs: set<Callback>, callback: Callback): (r: set<Callback>)
    ensures callback in r
    ensures forall c :: c != callback ==> (c in r <==> c in subs)
  {
    if callback !in subs then subs + {callback} else subs
  }

  /** `unsubscribe_message_sent`: `callback` is not a subscriber afterwards, and no one else changes. */
  function Unsubscribe(subs: set<Callback>, callback: Callback): (r: set<Callback>)
    ensures callback !in r
    ensures forall c :: c != callback ==> (c in r <==> c in subs)
  {
    if callback in subs then subs - {callback} else subs
  }

  /** Subscribing twice is subscribing once. */
  lemma SubscribeIdempotent(subs: set<Callback>, callback: Callback)
    ensures Subscribe(Subscribe(subs, callback), callback) == Subscribe(subs, callback)
  {
  }

  /** Unsubscribing a callback that never subscribed changes nothing. */
  lemma UnsubscribeAbsentIsNoOp(subs: set<Callback>, callback: Callback)
    requires callback !in subs
    ensures Unsubscribe(subs, callback) == subs
  {
  }

  /** Unsubscribing undoes a subscription of a callback that was not yet subscribed. */
  lemma UnsubscribeUndoesSubscribe(subs: set<Callback>, callback: Callback)
    requires callback !in subs
    ensures Unsubscribe(Subscribe(subs, callback), callback) == subs
  {
  }

  /**
    `_notify_message_sent`: every subscriber is called once with the
    message, in the set's iteration order, which the model leaves open.
  */
  method NotifyMessageSent<M>(subs: set<Callback>, message: M) returns (calls: seq<Call<M>>)
    ensures |calls| == |subs|
    ensures forall c :: c in subs <==> Call(c, message) in calls
    ensures forall i :: 0 <= i < |calls| ==> calls[i].message == message
    ensures forall i, j :: 0 <= i < j < |calls| ==> calls[i].callback != calls[j].callback
  {
    calls := [];
    var pending := subs;
    while pending != {}
      invariant pending <= subs
      invariant |calls| + |pending| == |subs|
      invariant forall c :: c in subs - pending <==> Call(c, message) in calls
      invariant forall i :: 0 <= i < |calls| ==> calls[i].message == message && calls[i].callback in subs - pending
      invariant forall i, j :: 0 <= i < j < |calls| ==> calls[i].callback != calls[j].callback
      decreases pending
    {
      var c :| c in pending;
      calls := calls + [Call(c, message)];
      pending := pending - {c};
    }
  }
}
