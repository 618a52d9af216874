# Chat page core of a WinUI 3 chat client, in Dafny

The client shows a conversation list with a search box, and a message
pane. The message pane loads a chat's history in pages of 50, newest first,
keyed by message id. This project models two parts of it.

- **The chat page (`ChatPage` in chat.py).** This is the state machine
  behind the message pane:
  - choosing a conversation;
  - requesting the newest page, then older pages when the top sentinel of
    the list becomes visible while the user is scrolling;
  - dropping deliveries made stale by a later selection (a generation
    token);
  - the in-flight flag and the paging cursor;
  - the pointer and wheel signals that gate automatic paging;
  - the conversation search (`_apply_filter`).

  Two pure rules from the rendering code are modelled too: the tag-chip
  colour parser and the thumbnail-URL suffix.
- **The pure rules inside the network client (modules/api.py).** These
  are:
  - the empty-token guards of the `*FromConfig` wrappers;
  - the optional paging cursor of the message-list request;
  - the file extensions chosen for cached images and avatars;
  - the upload suffix, object key and returned metadata of an image upload.

Each background fetch is split into two steps. The request is made on the
UI thread: `ChatPage.LoadMessages` returns the `Pending` record (token,
chat, direction, cursor) or nothing. One of two deliveries follows later,
in any order relative to other events: `UpdateUi` with a page, or
`ResetLoading` after a failure. The ghost set `issued` records every
request made. `Valid()` states the following:

- every request's token is at most the active one;
- the lookup is the one built beside the shown list;
- while the "loading" placeholder is shown, it is the whole list, no page
  has been received, and no backward page has been requested under the
  current token.

Modules:

| file | module | contents |
|---|---|---|
| wrappers.dfy | Wrappers | `Option`, `Result`, `Byte` |
| text.dfy | Text | Python's `strip()` (full `str.isspace` set), ASCII `lower()`, `lstrip(c)`, `sub in s` |
| seqs.dfy | Seqs | `reversed`, and keeping the elements that pass a test, in order |
| filter.dfy | ConversationFilter | the search query, the match rule, the shown list, the chat-id lookup |
| render.dfy | MessageRender | tag colours, tag chips, thumbnail URLs |
| api.dfy | Api | the modules/api.py rules |
| chat.dfy | ChatView | class `ChatPage` and its handlers |

Time is measured in integer milliseconds. The 1.0 s recency window and
the 1.0 s wheel timer are both 1000. The effects of the environment come
in as parameters: the current time, the viewport height, the page
delivered, md5, `mimetypes.guess_type`, and the outcomes of network calls.

Behaviour of the code that a reader might not expect, all of which the
model follows:

- **The paging cursor is recorded when the request is made**
  (chat.py:419), not when the page arrives. A failed backward request
  does not roll it back. The oldest id then still equals the cursor, so
  the sentinel stops paging that chat until another page arrives.
- **Selection clears the in-flight flag** (chat.py:201). Any delivery,
  stale ones included, clears it again in its `finally` (chat.py:470-471).
  So "at most one load in flight" does not hold across chat switches, and
  the model does not claim it.
- **A stale delivery does change state**: it clears the in-flight flag.
  It leaves the oldest id and the message list alone.
- **The recency window is 1.0 s in the code.** A comment beside it says
  2.0 s.
- **Reloading the conversation list filters with the empty query**
  (chat.py:669). Whatever is typed in the search box at that moment is
  ignored.

## Model

| member | source | states |
|---|---|---|
| Text.StripSpec | chat.py:686-687 | `strip()` yields a slice of the input with no white space at either end and only white space cut off around it |
| Text.TrimStartCharSpec | chat.py:547 | `lstrip('#')` leaves a suffix that does not start with '#'; everything removed was '#' |
| Text.LowerIdempotent | chat.py:678 | lower-casing twice is lower-casing once |
| Text.ContainsAt | chat.py:692 | `q in s` holds exactly when `q` occurs at some index of `s` |
| Text.ContainsPrefix | chat.py:574 | an occurrence in a prefix is an occurrence in the whole string |
| ConversationFilter.NormalizeQuery | chat.py:678 | the query is stripped then lower-cased: no longer than the input, no white space at either end, no upper-case ASCII letter |
| ConversationFilter.FilterSpec | chat.py:684-697 | a blank query lists every conversation in order; otherwise exactly the conversations whose stripped, lower-cased name or preview contains the query are listed, in their original order (a subsequence); filtering the result again changes nothing |
| ConversationFilter.LookupSpec | chat.py:697 | the lookup's keys are exactly the shown chat ids, and each maps to a shown conversation with that id |
| ConversationFilter.LookupSnoc | chat.py:697 | entering one more conversation overwrites its chat id's entry |
| ConversationFilter.LookupFindsEach | chat.py:697 | with distinct chat ids, every shown conversation is found under its own id |
| Seqs.KeepIsSubsequence | chat.py:684-692 | the listed conversations keep their original order |
| Seqs.KeepSound | chat.py:692-693 | only input elements that pass the test are listed |
| Seqs.KeepComplete | chat.py:692-697 | every input element that passes the test is listed |
| Seqs.KeepIdempotent | chat.py:684-697 | listing again with the same test changes nothing |
| Seqs.KeepAll | chat.py:687-688 | when every element passes, all of them are kept, in order |
| Seqs.KeepLength | chat.py:524-528 | no more elements are kept than the input has |
| Seqs.ReverseInvolution | chat.py:449-465 | `reversed(reversed(page))` is the page, so a backward page is inserted newest first |
| ChatView.ChatPage.constructor | chat.py:142-152 | the page starts with no conversations, no current chat, no paging state, token 0, not interacting, active, and an empty list |
| ChatView.ChatPage.ApplyFilter | chat.py:677-698 | the loop leaves the shown list equal to `Filter(conversations, query)` and the lookup built from it; `Valid()` is kept |
| ChatView.ChatPage.ListOne | chat.py:684-697 | one loop pass: the shown list and lookup grow by the conversation exactly when it passes the query |
| ChatView.ChatPage.OnConversationsLoaded | chat.py:667-669 | the new list replaces the old one and is shown in full, with its lookup |
| ChatView.ChatPage.OnSelectionChanged | chat.py:177-214 | no selection or an unknown id changes nothing and requests nothing; a known id becomes the current chat with its title, oldest and cursor ids are cleared, the token goes up by exactly one, so no earlier request is accepted any more, the list is just the placeholder, and the newest page is requested under the new token unless the chat id is empty |
| ChatView.ChatPage.Select | chat.py:193-210 | the reset half of selection: current chat, title, cleared paging state and flag, token plus one, placeholder only, every earlier request now older than the token |
| ChatView.ChatPage.LoadMessages | chat.py:400-424 | nothing changes and nothing is requested for an empty chat id, while a load is in flight, or, paging backwards, without an oldest id or with the oldest id already used as cursor; otherwise a backward request records the cursor at once, the flag is set, and the request carries the given or the active token and the cursor ("" for the newest page) |
| ChatView.ChatPage.UpdateUi | chat.py:432-471 | an inactive page, another token, another current chat or an empty page leaves oldest id and list alone; otherwise the oldest id becomes the page's last message id, a first page replaces the list by the page reversed and scrolls to its end, a backward page yields reverse(page) + old list with the old first item as anchor; the flag always ends false |
| ChatView.ChatPage.ShowPage | chat.py:452-454 | the first-page loop leaves exactly the messages in display order |
| ChatView.ChatPage.PrependPage | chat.py:465-466 | inserting each message of the backward page at the front yields the page in reading order before the old list |
| ChatView.ChatPage.ResetLoading | chat.py:476-477 | the failure delivery only clears the flag; the oldest id and cursor stay |
| ChatView.ChatPage.OnSentinelViewportChanged | chat.py:227-241 | a backward page of the current chat is requested, under the active token with the oldest id as cursor, exactly when the page is active, idle, the viewport height is positive, the oldest id is set and not the last cursor, the user is interacting or touched the list less than 1000 ms ago, and the current chat has an id; otherwise nothing changes |
| ChatView.ChatPage.OnPointerPressed | chat.py:325-327 | interacting, time stamped |
| ChatView.ChatPage.OnPointerReleased | chat.py:328-330 | not interacting, time stamped |
| ChatView.ChatPage.OnPointerExited | chat.py:331-332 | not interacting, time not stamped |
| ChatView.ChatPage.OnWheel | chat.py:333-343 | interacting, time stamped, any armed timer replaced by one due 1000 ms later |
| ChatView.ChatPage.OnWheelTimerElapsed | chat.py:340-342 | an armed timer that is due clears the interacting flag; otherwise nothing changes |
| ChatView.ChatPage.OnUnloaded | chat.py:356-357 | the page stops accepting deliveries |
| ChatView.ChatPage.OnSendClick | chat.py:155-161 | a text is handed to the sender exactly when there is a current chat and the input is not empty, with that chat and text |
| ChatView.ChatPage.OnTextSent | chat.py:166-168 | the input is cleared and the newest page of the current chat is requested under the active token, unless a load is in flight or there is no chat id; the cursor is untouched |
| ChatView.ChatPage.OnImageSent | chat.py:392-393 | the same reload as after a text, input untouched |
| MessageRender.ParseHexByte | chat.py:550 | two characters parse exactly when both are hex digits; their value is fixed by the round trips below and `PairLower` |
| MessageRender.HexDigitLower | chat.py:550 | `int(c, 16)` accepts a letter digit in either case and gives it the same value |
| MessageRender.PairLower | chat.py:550 | a pair of digits parses to the same byte in either case |
| MessageRender.ParseColorLower | chat.py:549-554 | six or eight digits give the same colour in either case |
| MessageRender.TrimHashesLower | chat.py:547 | lower-casing commutes with dropping the leading '#' |
| MessageRender.TagColorIgnoresCase | chat.py:546-560 | the tag colour does not depend on the case of its hex digits ("#ff5733" is "#FF5733") |
| MessageRender.ParseColor | chat.py:549-554 | six or eight characters parse exactly when all are hex digits; six give alpha 255 |
| MessageRender.TagColor | chat.py:546-560 | after dropping leading '#', a missing colour, a length other than 6 or 8, or a non-hex digit gives gray; six digits are opaque |
| MessageRender.StripHashes | chat.py:547 | any number of leading '#' is dropped before parsing |
| MessageRender.ArgbRoundTrip | chat.py:549-551 | every colour written as AARRGGBB, with any number of '#', in upper or lower case, reads back as itself |
| MessageRender.RgbRoundTrip | chat.py:552-554 | every colour written as RRGGBB, in upper or lower case, reads back with the same channels and alpha 255 |
| MessageRender.TagChips | chat.py:523-562 | the chips, appended one tag at a time, are `ChipOf` the tags with text, one for one and in tag order |
| MessageRender.TagChipAt | chat.py:524-562 | the chip at each position is drawn for a tag of the list that has text |
| MessageRender.TagChipsSound | chat.py:524-528 | every chip comes from a tag with text; no more chips than tags |
| MessageRender.TagChipsComplete | chat.py:524-562 | every tag with text gets its chip; when all tags have text, chip k is the chip of tag k |
| MessageRender.ThumbnailUrl | chat.py:574 | the URL, then '&' if it already has a '?' and '?' otherwise, then the suffix |
| MessageRender.ThumbnailHasQuery | chat.py:574 | a thumbnail URL always contains '?'; for a URL without one, '?' followed by the suffix occurs in it |
| MessageRender.MessageImageThumbExample | chat.py:574 | a message image URL without a query gets "?imageView2/2/w/400" |
| MessageRender.MessageAvatarThumbExample | chat.py:645 | a message avatar URL that has a query gets "&imageView2/2/w/60/h/60" |
| MessageRender.ConversationAvatarThumbExample | chat.py:724 | a conversation avatar URL without a query gets "?imageView2/2/w/80/h/80" |
| Api.TokenFromConfig | modules/api.py:109-114 | the stored token is used exactly when it is not empty; otherwise "not logged in" is raised, with the short message for sending an image |
| Api.AvatarUrlFromConfig | modules/api.py:117-122 | without a token the avatar URL is "" and nothing is requested; with one, the avatar lookup's answer, its error included |
| Api.ListMessageRequestFor | modules/api.py:233-241 | the cursor field is set exactly when the cursor is not empty, and reads back as the cursor |
| Api.MessageListFromConfig | modules/api.py:280-285 | with a token, the request for 50 messages of the given chat id and chat type with the given cursor; without one, "not logged in" |
| Api.CacheExtension | modules/api.py:475-479 | .png, .jpg, .webp or .img, tested in that order on the lower-cased URL |
| Api.CacheExtensionIgnoresCase | modules/api.py:476 | letter case in the URL never changes the extension |
| Api.GetCachedImage | modules/api.py:465-500 | "" for an empty URL; otherwise the md5-named file with the URL's extension when cached or downloaded, and "" when the download fails |
| Api.AvatarExtension | modules/api.py:144-151 | .png, .jpg, .webp or .img, tested in that order on the lower-cased content type |
| Api.AvatarExtensionIgnoresCase | modules/api.py:144 | letter case in the content type never changes the extension |
| Api.DownloadAvatarToCache | modules/api.py:125-156 | "" for an empty URL; a failed download raises; otherwise the file "avatar" with the content type's extension |
| Api.Extension | modules/api.py:388 | `splitext`: "" or a tail of the name that starts with its only dot and has no separator |
| Api.LastIndexOf | modules/api.py:388 | the index of the last occurrence of a character, or -1 |
| Api.LastIndexOfAppend | modules/api.py:388 | appending characters other than `c` leaves the last `c` where it was |
| Api.LastSep | modules/api.py:388 | the index of the last '\\' or '/', or -1: the last path component starts after it |
| Api.ExtensionOfDotted | modules/api.py:388 | any name whose last component has a character other than '.' before its final ".suffix" has extension ".suffix" ("a.b.png", "C:\\dir\\x.png") |
| Api.DotsOnlyNoExtension | modules/api.py:388 | a last component that is only dots before the final dot (".bashrc") has no extension |
| Api.NoDotNoExtension | modules/api.py:388 | a last component without a dot has no extension |
| Api.UploadSuffix | modules/api.py:388 | the extension without its dot, or "jpg" when there is none; never empty, no dot, no separator |
| Api.ObjectKey | modules/api.py:389 | the digest, a dot, then the suffix |
| Api.UploadSuffixOfDotted | modules/api.py:388 | a file named "name.suffix" is uploaded with that suffix |
| Api.ObjectKeyExtension | modules/api.py:388-389 | for a digest without dots or separators, the object key's extension is the upload suffix again, and the key would choose the same suffix |
| Api.MimeType | modules/api.py:390 | the guessed MIME type, or "image/jpeg" when there is no guess |
| Api.UploadImageMeta | modules/api.py:372-411 | without a given token an empty stored one raises; the first failing foreign call raises; the image is posted with the upload token under the key md5 + "." + suffix and the MIME type; on success the metadata carries byte length, MIME type, suffix, image size and the server's key and hash |

## Left out

- XAML construction, item templates, scroll-into-view, avatars and image
  loading are left out. The list is a sequence of message bubbles and a
  placeholder.
- `_render_single_msg` is assumed to succeed for every message. Its
  internal `try` could skip a message whose rendering fails.
- Threads, `DispatcherQueue.TryEnqueue`, thread pools and
  `threading.Timer` become discrete events that the environment calls in
  any order.
- The wheel timer runs on its own thread in the source. Here its expiry
  is an event with a due time.
- The clipboard paste, its confirm dialog and the image upload trigger
  (chat.py:260-323) are left out, as UI.
- The chat page's upload thread (chat.py:375-398) lies outside
  `ChatPage`. Only the reload it triggers is modelled there; the upload
  rules themselves are `Api.UploadImageMeta`.
- All network and protobuf work is left out: httpx, the Qiniu upload,
  protobuf decoding and PIL image size. Their outcomes are parameters.
- md5 and `mimetypes.guess_type` are opaque function parameters.
- modules/req.py, modules/config.py, login.py, home.py and main.py are
  not part of this model. They are a worker pool, JSON file I/O, and form
  UI and bootstrap.
- Timestamp formatting is left out, because it depends on the wall clock
  and the time zone.
- Interaction time is integer milliseconds, not float seconds.
- The camelCase/snake_case key fallbacks are merged into single fields.
- An id that is None and an empty id are both "unset", as Python's
  truthiness treats them.
- Text.Lower: only ASCII letters are lower-cased. Python's `lower()`
  also folds other scripts.
- MessageRender.ParseHexByte: clean hex digits only. Python's
  `int(s, 16)` also accepts signs, white space and underscores, which
  this model treats as parse failures (gray).
- MessageRender.TagChips: tag entries that are not dictionaries, and a
  `tag` field that is not a list, are not modelled. Tags are typed.
