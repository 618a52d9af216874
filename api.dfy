/** The pure rules inside the network client (modules/api.py): the token
    guards of the `*FromConfig` wrappers, the optional paging cursor of the
    message-list request, the file extensions chosen for cached images and
    avatars, and the object key and metadata of an image upload. The
    network calls themselves, md5 and `mimetypes.guess_type` are not
    modelled; their outcomes are parameters. */
module Api {
  import opened Wrappers
  import opened Text

  /** The exceptions the client raises. `NotLoggedIn` carries its message;
      `RequestFailed` stands for every transport, status or decoding error. */
  datatype ApiError = NotLoggedIn(message: string) | RequestFailed

  const TokenEmptyMessage := "未登录: token 为空"
  const NotLoggedInMessage := "未登录"

  /** The operations whose wrapper reads the stored token. */
  datatype Operation =
    | UserInfo | ConversationList | MessageList | SendMessage | SendImageMessage | UploadImage

  /** The guard of a `*FromConfig` wrapper: the stored token ("" when
      absent) is used if non-empty, and otherwise the call raises. */
  function TokenFromConfig(op: Operation, stored: string): (r: Result<string, ApiError>)
    ensures r.Success? <==> stored != ""
    ensures r.Success? ==> r.value == stored
    ensures r.Failure? ==> r.error.NotLoggedIn?
    ensures r.Failure? && op == SendImageMessage ==> r.error.message == NotLoggedInMessage
    ensures r.Failure? && op != SendImageMessage ==> r.error.message == TokenEmptyMessage
  {
    if stored != "" then Success(stored)
    else if op == SendImageMessage then Failure(NotLoggedIn(NotLoggedInMessage))
    else Failure(NotLoggedIn(TokenEmptyMessage))
  }

  /** `AvatarUrlFromConfig`: without a token it answers "" and makes no
      request; with one, it is `GetAvatarUrl(token)`, whose user-info
      request may raise, and that error is passed on. */
  function AvatarUrlFromConfig(stored: string, getAvatarUrl: string -> Result<string, ApiError>)
    : (r: Result<string, ApiError>)
    ensures stored == "" ==> r == Success("")
    ensures stored != "" ==> r == getAvatarUrl(stored)
  {
    if stored == "" then Success("") else getAvatarUrl(stored)
  }

  // ---------------------------------------------------------------------
  // Message list

  const DefaultMsgCount := 50

  /** The fields of the `list_message_send` request; `msgId` is unset
      unless a cursor was given. */
  datatype ListMessageRequest = ListMessageRequest(
    chatId: string, chatType: int, msgCount: int, msgId: Option<string>)

  /** The cursor a request carries, "" when the field is unset. */
  function CursorOf(req: ListMessageRequest): string
  {
    if req.msgId.Some? then req.msgId.value else ""
  }

  /** `MessageList` sets the `msg_id` field only for a non-empty cursor;
      the cursor read back from the request is the one given. */
  function ListMessageRequestFor(chatId: string, chatType: int, msgCount: int, cursor: string)
    : (req: ListMessageRequest)
    ensures req.chatId == chatId && req.chatType == chatType && req.msgCount == msgCount
    ensures req.msgId.Some? <==> cursor != ""
    ensures CursorOf(req) == cursor
  {
    ListMessageRequest(chatId, chatType, msgCount, if cursor != "" then Some(cursor) else None)
  }

  /** `MessageListFromConfig` as the chat page calls it: the stored token
      and a request for the default page of 50 messages. */
  function MessageListFromConfig(stored: string, chatId: string, chatType: int, cursor: string)
    : (r: Result<(string, ListMessageRequest), ApiError>)
    ensures r.Success? <==> stored != ""
    ensures r.Success? ==> r.value.0 == stored && r.value.1.msgCount == DefaultMsgCount
    ensures r.Success? ==> r.value.1.chatId == chatId && r.value.1.chatType == chatType
    ensures r.Success? ==> CursorOf(r.value.1) == cursor
    ensures r.Success? ==> (r.value.1.msgId.None? <==> cursor == "")
    ensures r.Failure? ==> r.error == NotLoggedIn(TokenEmptyMessage)
  {
    match TokenFromConfig(MessageList, stored)
    case Failure(e) => Failure(e)
    case Success(token) => Success((token, ListMessageRequestFor(chatId, chatType, DefaultMsgCount, cursor)))
  }

  // ---------------------------------------------------------------------
  // Image cache

  /** The extension of a cached image, from the lower-cased URL, tested in
      the order png, jpg/jpeg, webp; anything else is ".img". */
  function CacheExtension(url: string): (ext: string)
    ensures ext in {".png", ".jpg", ".webp", ".img"}
    ensures ext == ".png" <==> Contains(Lower(url), ".png")
    ensures ext == ".jpg" <==>
      !Contains(Lower(url), ".png") && (Contains(Lower(url), ".jpg") || Contains(Lower(url), ".jpeg"))
    ensures ext == ".webp" <==>
      !Contains(Lower(url), ".png") && !Contains(Lower(url), ".jpg") && !Contains(Lower(url), ".jpeg")
      && Contains(Lower(url), ".webp")
  {
    var lower := Lower(url);
    if Contains(lower, ".png") then ".png"
    else if Contains(lower, ".jpg") || Contains(lower, ".jpeg") then ".jpg"
    else if Contains(lower, ".webp") then ".webp"
    else ".img"
  }

  /** Letter case in the URL never changes the cache extension. */
  lemma CacheExtensionIgnoresCase(url: string)
    ensures CacheExtension(Lower(url)) == CacheExtension(url)
  {
    LowerIdempotent(url);
  }

  /** `GetCachedImage`: "" for an empty URL, before the cache is looked at;
      otherwise the file named by the URL's md5 and its extension, if it is
      already cached or the download succeeds, and "" if the download fails. */
  function GetCachedImage(url: string, cacheDir: string, md5: string -> string,
                          cached: bool, downloaded: bool): (path: string)
    ensures url == "" ==> path == ""
    ensures path != "" ==> path == cacheDir + md5(url) + CacheExtension(url)
    ensures url != "" && (cached || downloaded) ==> path != ""
    ensures url != "" && !cached && !downloaded ==> path == ""
  {
    if url == "" then ""
    else
      var target := cacheDir + md5(url) + CacheExtension(url);
      if cached || downloaded then target else ""
  }

  // ---------------------------------------------------------------------
  // Avatar download

  /** The extension of a downloaded avatar, from the lower-cased
      content-type, tested in the order png, jpeg/jpg, webp; else ".img". */
  function AvatarExtension(contentType: string): (ext: string)
    ensures ext in {".png", ".jpg", ".webp", ".img"}
    ensures ext == ".png" <==> Contains(Lower(contentType), "png")
    ensures ext == ".jpg" <==>
      !Contains(Lower(contentType), "png")
      && (Contains(Lower(contentType), "jpeg") || Contains(Lower(contentType), "jpg"))
    ensures ext == ".webp" <==>
      !Contains(Lower(contentType), "png") && !Contains(Lower(contentType), "jpeg")
      && !Contains(Lower(contentType), "jpg") && Contains(Lower(contentType), "webp")
  {
    var ct := Lower(contentType);
    if Contains(ct, "png") then ".png"
    else if Contains(ct, "jpeg") || Contains(ct, "jpg") then ".jpg"
    else if Contains(ct, "webp") then ".webp"
    else ".img"
  }

  /** Letter case in the content-type never changes the avatar extension. */
  lemma AvatarExtensionIgnoresCase(contentType: string)
    ensures AvatarExtension(Lower(contentType)) == AvatarExtension(contentType)
  {
    LowerIdempotent(contentType);
  }

  /** `DownloadAvatarToCache`: "" for an empty URL without any request; a
      failed request raises; otherwise the file "avatar" in the cache
      directory with the extension of the response's content-type ("" when
      the header is missing). */
  function DownloadAvatarToCache(url: string, cacheDir: string,
                                 response: Result<string, ApiError>): (r: Result<string, ApiError>)
    ensures url == "" ==> r == Success("")
    ensures url != "" && response.Failure? ==> r == Failure(response.error)
    ensures url != "" && response.Success? ==>
      r.Success? && r.value == cacheDir + "avatar" + AvatarExtension(response.value)
  {
    if url == "" then Success("")
    else match response
      case Failure(e) => Failure(e)
      case Success(contentType) => Success(cacheDir + "avatar" + AvatarExtension(contentType))
  }

  // ---------------------------------------------------------------------
  // Image upload

  predicate IsSep(c: char)
  {
    c == '\\' || c == '/'
  }

  /** Python's `s.rfind(c)`: the last index of `c`, or -1. */
  function LastIndexOf(s: string, c: char): (i: int)
    ensures -1 <= i < |s|
    ensures i >= 0 ==> s[i] == c
    ensures forall k :: i < k < |s| ==> s[k] != c
  {
    if s == [] then -1
    else if s[|s| - 1] == c then |s| - 1
    else LastIndexOf(s[..|s| - 1], c)
  }

  /** Appending characters other than `c` leaves the last `c` where it was. */
  lemma {:induction false} LastIndexOfAppend(s: string, t: string, c: char)
    requires forall k :: 0 <= k < |t| ==> t[k] != c
    ensures LastIndexOf(s + t, c) == LastIndexOf(s, c)
  {
    if t == [] {
      assert s + t == s;
    } else {
      var init := t[..|t| - 1];
      LastIndexOfAppend(s, init, c);
      assert (s + t)[..|s + t| - 1] == s + init;
    }
  }

  /** The index of the last separator, or -1: the last path component
      starts after it. */
  function LastSep(p: string): (i: int)
    ensures -1 <= i < |p|
    ensures i >= 0 ==> IsSep(p[i])
    ensures forall k :: i < k < |p| ==> !IsSep(p[k])
  {
    if LastIndexOf(p, '\\') < LastIndexOf(p, '/') then LastIndexOf(p, '/')
    else LastIndexOf(p, '\\')
  }

  /** `os.path.splitext(p)[1]` with the Windows separators '\' and '/':
      from the last '.' of the last path component, unless everything
      before that dot in the component is dots. */
  function Extension(p: string): (ext: string)
    ensures ext == "" || (ext[0] == '.' && |ext| <= |p| && ext == p[|p| - |ext|..])
    ensures forall k :: 1 <= k < |ext| ==> ext[k] != '.' && !IsSep(ext[k])
  {
    var sep := LastSep(p);
    var dot := LastIndexOf(p, '.');
    if dot > sep && exists k :: sep < k < dot && p[k] != '.' then p[dot..] else ""
  }

  /** Adding ".suffix" to a name leaves the last separator where it was. */
  lemma DottedSep(p: string, suffix: string)
    requires forall k :: 0 <= k < |suffix| ==> !IsSep(suffix[k])
    ensures LastSep(p + "." + suffix) == LastSep(p)
  {
    DotSuffixNoSep(suffix);
    assert p + "." + suffix == p + ("." + suffix);
    LastSepAppend(p, "." + suffix);
  }

  /** ".suffix" has a separator only where the suffix has one. */
  lemma DotSuffixNoSep(suffix: string)
    requires forall k :: 0 <= k < |suffix| ==> !IsSep(suffix[k])
    ensures forall k :: 0 <= k < |"." + suffix| ==> !IsSep(("." + suffix)[k])
  {
    assert forall k :: 1 <= k < |"." + suffix| ==> ("." + suffix)[k] == suffix[k - 1];
  }

  /** Appending characters that are not separators leaves the last
      separator where it was. */
  lemma LastSepAppend(s: string, t: string)
    requires forall k :: 0 <= k < |t| ==> !IsSep(t[k])
    ensures LastSep(s + t) == LastSep(s)
  {
    LastIndexOfAppend(s, t, '\\');
    LastIndexOfAppend(s, t, '/');
  }

  /** Adding ".suffix" to a name puts its last dot just before the suffix. */
  lemma LastDotBeforeSuffix(p: string, suffix: string)
    requires forall k :: 0 <= k < |suffix| ==> suffix[k] != '.'
    ensures LastIndexOf(p + "." + suffix, '.') == |p|
  {
    LastIndexOfAppend(p + ".", suffix, '.');
  }

  /** `splitext` finds ".suffix" at the end of any name whose last
      component has a character other than '.' before the dot: "a.png",
      "a.b.png" and "C:\\dir\\x.png" all end in ".png". */
  lemma ExtensionOfDotted(p: string, suffix: string)
    requires forall k :: 0 <= k < |suffix| ==> suffix[k] != '.' && !IsSep(suffix[k])
    requires exists k :: LastSep(p) < k < |p| && p[k] != '.'
    ensures Extension(p + "." + suffix) == "." + suffix
  {
    var name := p + "." + suffix;
    DottedSep(p, suffix);
    LastDotBeforeSuffix(p, suffix);
    var k :| LastSep(p) < k < |p| && p[k] != '.';
    assert name[k] == p[k];
    assert name[|p|..] == "." + suffix;
  }

  /** A name whose last component is only dots before the final dot, such
      as ".bashrc" or "dir/..png", has no extension. */
  lemma DotsOnlyNoExtension(p: string, suffix: string)
    requires forall k :: 0 <= k < |suffix| ==> suffix[k] != '.' && !IsSep(suffix[k])
    requires forall k :: LastSep(p) < k < |p| ==> p[k] == '.'
    ensures Extension(p + "." + suffix) == ""
  {
    var name := p + "." + suffix;
    DottedSep(p, suffix);
    LastDotBeforeSuffix(p, suffix);
    assert forall k :: LastSep(p) < k < |p| ==> name[k] == p[k];
  }

  /** A name whose last component has no dot has no extension. */
  lemma NoDotNoExtension(p: string)
    requires forall k :: LastSep(p) < k < |p| ==> p[k] != '.'
    ensures Extension(p) == ""
  {
  }

  /** The upload suffix: the file name's extension without its dot, or
      "jpg" when there is none. It never contains a dot or a separator. */
  function UploadSuffix(filename: string): (suffix: string)
    ensures suffix != ""
    ensures forall k :: 0 <= k < |suffix| ==> suffix[k] != '.' && !IsSep(suffix[k])
    ensures |Extension(filename)| <= 1 ==> suffix == "jpg"
    ensures |Extension(filename)| > 1 ==> suffix == Extension(filename)[1..]
  {
    var e := Extension(filename);
    var ext := TrimStartChar(e, '.');
    OneLeadingDot(e);
    if ext == "" then "jpg" else ext
  }

  /** An extension has only its first dot for `lstrip('.')` to remove. */
  lemma OneLeadingDot(e: string)
    requires e == "" || e[0] == '.'
    requires forall k :: 1 <= k < |e| ==> e[k] != '.'
    ensures TrimStartChar(e, '.') == (if e == "" then "" else e[1..])
  {
    if e != "" {
      var t := e[1..];
      assert t == [] || t[0] != '.' by {
        if t != [] { assert t[0] == e[1]; }
      }
    }
  }

  /** The object key under which the image is stored: md5 of the bytes,
      a dot, and the suffix. */
  function ObjectKey(digest: string, suffix: string): (key: string)
    ensures |key| == |digest| + 1 + |suffix|
    ensures key[..|digest|] == digest && key[|digest|] == '.' && key[|digest| + 1..] == suffix
  {
    digest + "." + suffix
  }

  /** A file named "name.suffix" is uploaded with that suffix. */
  lemma UploadSuffixOfDotted(p: string, suffix: string)
    requires suffix != []
    requires forall k :: 0 <= k < |suffix| ==> suffix[k] != '.' && !IsSep(suffix[k])
    requires exists k :: LastSep(p) < k < |p| && p[k] != '.'
    ensures UploadSuffix(p + "." + suffix) == suffix
  {
    ExtensionOfDotted(p, suffix);
    assert ("." + suffix)[1..] == suffix;
  }

  /** For a hex digest, the extension of the object key is the upload
      suffix again: the key keeps the file type of the original name, and
      uploading under that key would choose the same suffix. */
  lemma ObjectKeyExtension(digest: string, filename: string)
    requires digest != []
    requires forall k :: 0 <= k < |digest| ==> digest[k] != '.' && !IsSep(digest[k])
    ensures Extension(ObjectKey(digest, UploadSuffix(filename))) == "." + UploadSuffix(filename)
    ensures UploadSuffix(ObjectKey(digest, UploadSuffix(filename))) == UploadSuffix(filename)
  {
    var suffix := UploadSuffix(filename);
    assert LastSep(digest) == -1;
    assert -1 < 0 < |digest| && digest[0] != '.';
    assert ObjectKey(digest, suffix) == digest + "." + suffix;
    ExtensionOfDotted(digest, suffix);
    UploadSuffixOfDotted(digest, suffix);
  }

  /** `mimetypes.guess_type(filename)[0] or "image/jpeg"`. */
  function MimeType(filename: string, guessType: string -> Option<string>): (mime: string)
    ensures mime != ""
    ensures guessType(filename).Some? && guessType(filename).value != "" ==> mime == guessType(filename).value
    ensures guessType(filename).None? ==> mime == "image/jpeg"
  {
    match guessType(filename)
    case Some(m) => if m != "" then m else "image/jpeg"
    case None => "image/jpeg"
  }

  /** The answer of the storage server to the upload: its "key" and "hash". */
  datatype UploadReply = UploadReply(key: Option<string>, hash: Option<string>)

  /** The outcomes of the first two foreign calls `UploadImage` makes: the
      upload-token request and opening the image for its size. */
  datatype UploadEnv = UploadEnv(
    qiniuToken: Result<string, ApiError>,
    imageSize: Result<(nat, nat), ApiError>)

  /** The form posted to the storage server: its upload token, the object
      key (also the file name of the part), the bytes and their MIME type. */
  datatype UploadRequest = UploadRequest(
    uploadToken: string, key: string, image: seq<Byte>, mimeType: string)

  /** The metadata `UploadImage` returns. */
  datatype UploadMeta = UploadMeta(
    fileKey: Option<string>,
    fileHash: Option<string>,
    fileSize: nat,
    fileType: string,
    imageWidth: nat,
    imageHeight: nat,
    fileSuffix: string)

  /** `UploadImage`: with no explicit token the stored one is required; the
      first failing foreign call raises; the image is posted under the key
      made of its md5 and the upload suffix; on success the metadata records
      the byte length, the guessed or default MIME type and the suffix, the
      image size, and the key and hash the server answered. */
  function UploadImageMeta(token: Option<string>, stored: string, image: seq<Byte>, filename: string,
                           guessType: string -> Option<string>, md5: seq<Byte> -> string,
                           env: UploadEnv, upload: UploadRequest -> Result<UploadReply, ApiError>)
    : (r: Result<UploadMeta, ApiError>)
    ensures token.None? && stored == "" ==> r == Failure(NotLoggedIn(TokenEmptyMessage))
    ensures r.Success? ==> env.qiniuToken.Success? && env.imageSize.Success?
    ensures r.Success? ==>
      var req := UploadRequest(env.qiniuToken.value, ObjectKey(md5(image), UploadSuffix(filename)),
                               image, MimeType(filename, guessType));
      && upload(req).Success?
      && r.value.fileKey == upload(req).value.key && r.value.fileHash == upload(req).value.hash
    ensures r.Success? ==> r.value.fileSize == |image|
    ensures r.Success? ==> r.value.fileSuffix == UploadSuffix(filename)
    ensures r.Success? ==> r.value.fileType == MimeType(filename, guessType)
    ensures r.Success? ==> (r.value.imageWidth, r.value.imageHeight) == env.imageSize.value
    ensures (token.Some? || stored != "") && env.qiniuToken.Success? && env.imageSize.Success?
            && upload(UploadRequest(env.qiniuToken.value, ObjectKey(md5(image), UploadSuffix(filename)),
                                    image, MimeType(filename, guessType))).Success?
            ==> r.Success?
  {
    var tokenOk := if token.Some? then Success(token.value) else TokenFromConfig(UploadImage, stored);
    if tokenOk.Failure? then Failure(tokenOk.error)
    else if env.qiniuToken.Failure? then Failure(env.qiniuToken.error)
    else if env.imageSize.Failure? then Failure(env.imageSize.error)
    else
      var (width, height) := env.imageSize.value;
      var suffix := UploadSuffix(filename);
      var mime := MimeType(filename, guessType);
      var reply := upload(UploadRequest(env.qiniuToken.value, ObjectKey(md5(image), suffix), image, mime));
      if reply.Failure? then Failure(reply.error)
      else Success(UploadMeta(reply.value.key, reply.value.hash, |image|, mime, width, height, suffix))
  }
}
