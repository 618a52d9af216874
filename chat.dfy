/** The chat page's selection, paging and interaction state (chat.py,
    class `ChatPage`). Every background fetch is split in two: the request,
    made on the UI thread (`LoadMessages`), and one of two deliveries the
    environment may schedule later, in any order with the other events:
    `UpdateUi` with a page of messages, or `ResetLoading` after a failure. */
module ChatView {
  import opened Wrappers
  import opened Text
  import opened Seqs
  import opened ConversationFilter
  import opened MessageRender

  /** Time is counted in milliseconds; both windows are one second. */
  const RecentInteractionWindow := 1000
  const WheelResetDelay := 1000

  const NoChatTitle := "请选择一个会话"
  const UnknownChatTitle := "未知"

  /** An entry of the message list: the "loading" placeholder or a message. */
  datatype Item = Placeholder | Bubble(msg: Message)

  /** A message-page request in flight: the token it was issued under, the
      chat, whether it pages backwards, and the cursor it sends ("" for the
      newest page). */
  datatype Pending = Pending(token: int, chatId: string, chatType: int, isLoadMore: bool, cursor: string)

  /** A text message handed to the sending thread. */
  datatype OutgoingText = OutgoingText(chatId: string, chatType: int, text: string)

  /** Python truthiness of an optional message id. */
  predicate IsSet(id: Option<string>)
  {
    id.Some? && id.value != ""
  }

  /** Rendered messages, in the given order. */
  function Bubbles(msgs: seq<Message>): (items: seq<Item>)
    ensures |items| == |msgs|
    ensures forall k :: 0 <= k < |msgs| ==> items[k] == Bubble(msgs[k])
    ensures Placeholder !in items
  {
    seq(|msgs|, k requires 0 <= k < |msgs| => Bubble(msgs[k]))
  }

  function TitleFor(conv: Conversation): string
  {
    if conv.name == "" then UnknownChatTitle else conv.name
  }

  class ChatPage {
    var conversations: seq<Conversation>
    var shown: seq<Conversation>
    var lookup: map<string, Conversation>
    var current: Option<Conversation>
    var title: string
    var inputText: string
    var oldestMsgId: Option<string>
    var lastPagingMsgId: Option<string>
    var isLoadingMore: bool
    var activeLoadToken: int
    var isUserInteracting: bool
    var lastInteractionTime: int
    var isActive: bool
    /** When the wheel timer fires, if one is armed. */
    var wheelTimerDue: Option<int>
    var items: seq<Item>
    /** Every message-page request made so far. */
    ghost var issued: set<Pending>

    /** The lookup is the one built beside the shown list; no request
        carries a token newer than the active one; and while the placeholder
        is shown it is the whole list, no page has arrived, and no
        backward page was requested under the active token. */
    ghost predicate Valid()
      reads this`lookup, this`shown, this`issued, this`activeLoadToken, this`items, this`oldestMsgId
    {
      && lookup == LookupOf(shown)
      && (forall p :: p in issued ==> p.token <= activeLoadToken)
      && (Placeholder in items ==>
            && items == [Placeholder]
            && oldestMsgId.None?
            && forall p :: p in issued && p.token == activeLoadToken ==> !p.isLoadMore)
    }

    constructor ()
      ensures Valid()
      ensures conversations == [] && shown == [] && lookup == map[] && current.None?
      ensures title == NoChatTitle && inputText == ""
      ensures oldestMsgId.None? && lastPagingMsgId.None? && !isLoadingMore && activeLoadToken == 0
      ensures !isUserInteracting && lastInteractionTime == 0 && isActive && wheelTimerDue.None?
      ensures items == [] && issued == {}
    {
      conversations, shown, lookup, current := [], [], map[], None;
      title, inputText := NoChatTitle, "";
      oldestMsgId, lastPagingMsgId, isLoadingMore, activeLoadToken := None, None, false, 0;
      isUserInteracting, lastInteractionTime, isActive, wheelTimerDue := false, 0, true, None;
      items, issued := [], {};
    }

    // -------------------------------------------------------------------
    // Conversation list

    /** `_apply_filter`: rebuilds the shown list and the lookup from all
        conversations, keeping those that match the query. */
    method ApplyFilter(query: string)
      requires Valid()
      modifies this`shown, this`lookup
      ensures Valid()
      ensures shown == Filter(conversations, query)
    {
      var q := NormalizeQuery(query);
      shown := [];
      lookup := map[];
      var i := 0;
      while i < |conversations|
        invariant 0 <= i <= |conversations|
        invariant shown == Keep(conversations[..i], ShownFor(q))
        invariant lookup == LookupOf(shown)
      {
        ListOne(i, q);
        i := i + 1;
      }
      assert conversations[..|conversations|] == conversations;
    }

    /** One pass of the `_apply_filter` loop: conversation `i` is listed
        and entered in the lookup when it is shown for `q`. */
    method ListOne(i: nat, q: string)
      requires i < |conversations|
      requires shown == Keep(conversations[..i], ShownFor(q)) && lookup == LookupOf(shown)
      modifies this`shown, this`lookup
      ensures shown == Keep(conversations[..i + 1], ShownFor(q)) && lookup == LookupOf(shown)
    {
      var conv := conversations[i];
      KeepStep(conversations, i, ShownFor(q));
      if Shows(conv, q) {
        LookupSnoc(shown, conv);
        shown := shown + [conv];
        lookup := lookup[conv.chatId := conv];
      }
    }

    /** The delivery of the conversation-list fetch: the list is replaced
        and shown unfiltered. */
    method OnConversationsLoaded(convs: seq<Conversation>)
      requires Valid()
      modifies this`conversations, this`shown, this`lookup
      ensures Valid()
      ensures conversations == convs && shown == convs && lookup == LookupOf(convs)
    {
      conversations := convs;
      ApplyFilter("");
      assert Strip("") == [];
      FilterSpec(convs, "");
    }

    // -------------------------------------------------------------------
    // Selection and message loading

    /** `on_selection_changed`: an unknown or absent id changes nothing;
        a known one becomes the current chat, paging is reset, the token
        moves on by one (so every earlier request is now stale), the list
        shows only the placeholder, and the newest page is requested. */
    method OnSelectionChanged(selected: Option<string>) returns (req: Option<Pending>)
      requires Valid()
      modifies this`current, this`title, this`oldestMsgId, this`lastPagingMsgId
      modifies this`isLoadingMore, this`activeLoadToken, this`items, this`issued
      ensures Valid()
      ensures selected.None? || selected.value !in lookup ==> unchanged(this) && req.None?
      ensures selected.Some? && selected.value in lookup ==>
        var conv := lookup[selected.value];
        && conv.chatId == selected.value
        && current == Some(conv) && title == TitleFor(conv)
        && oldestMsgId.None? && lastPagingMsgId.None?
        && activeLoadToken == old(activeLoadToken) + 1
        && items == [Placeholder]
        && (forall p :: p in old(issued) ==> !Accepts(p))
        && (req.Some? <==> conv.chatId != "")
        && isLoadingMore == req.Some?
        && (req.Some? ==> req.value == Pending(activeLoadToken, conv.chatId, conv.chatType, false, ""))
        && issued == old(issued) + (if req.Some? then {req.value} else {})
    {
      req := None;
      if selected.None? {
        return;
      }
      var chatId := selected.value;
      if chatId !in lookup {
        return;
      }
      var conv := lookup[chatId];
      LookupSpec(shown);
      Select(conv);
      req := LoadMessages(conv, false, Some(activeLoadToken));
    }

    /** The reset half of `on_selection_changed`: the chat becomes current,
        paging state is cleared and a fresh token outdates every earlier
        request. */
    method Select(conv: Conversation)
      requires Valid()
      modifies this`current, this`title, this`oldestMsgId, this`lastPagingMsgId
      modifies this`isLoadingMore, this`activeLoadToken, this`items
      ensures Valid()
      ensures current == Some(conv) && title == TitleFor(conv)
      ensures oldestMsgId.None? && lastPagingMsgId.None? && !isLoadingMore
      ensures activeLoadToken == old(activeLoadToken) + 1
      ensures items == [Placeholder]
      ensures forall p :: p in issued ==> p.token < activeLoadToken
    {
      current := Some(conv);
      title := TitleFor(conv);
      oldestMsgId := None;
      lastPagingMsgId := None;
      isLoadingMore := false;
      activeLoadToken := activeLoadToken + 1;
      items := [Placeholder];
    }

    /** `_load_messages` up to the start of its thread. Nothing happens for
        a chat without id or while a load is in flight, nor, when paging
        backwards, without an oldest id or with the one already used as a
        cursor. Otherwise a backward request records its cursor at once,
        the in-flight flag is set, and the request is issued under the
        given token (default: the active one). */
    method LoadMessages(conv: Conversation, isLoadMore: bool, loadToken: Option<int>)
      returns (req: Option<Pending>)
      requires Valid()
      requires loadToken.Some? ==> loadToken.value <= activeLoadToken
      modifies this`lastPagingMsgId, this`isLoadingMore, this`issued
      ensures Valid()
      ensures req.None? <==>
        || conv.chatId == ""
        || old(isLoadingMore)
        || (isLoadMore && (!IsSet(oldestMsgId) || oldestMsgId == old(lastPagingMsgId)))
      ensures req.None? ==> unchanged(this)
      ensures req.Some? ==>
        && isLoadingMore
        && req.value == Pending(if loadToken.Some? then loadToken.value else activeLoadToken,
                                conv.chatId, conv.chatType, isLoadMore,
                                if isLoadMore then oldestMsgId.value else "")
        && lastPagingMsgId == (if isLoadMore then oldestMsgId else old(lastPagingMsgId))
        && issued == old(issued) + {req.value}
    {
      if conv.chatId == "" {
        return None;
      }
      if isLoadingMore {
        return None;
      }
      var msgId := if isLoadMore && oldestMsgId.Some? then oldestMsgId.value else "";
      if isLoadMore {
        if msgId == "" {
          return None;
        }
        if Some(msgId) == lastPagingMsgId {
          return None;
        }
        lastPagingMsgId := Some(msgId);
      }
      isLoadingMore := true;
      var token := if loadToken.Some? then loadToken.value else activeLoadToken;
      req := Some(Pending(token, conv.chatId, conv.chatType, isLoadMore, msgId));
      issued := issued + {req.value};
    }

    /** Whether a delivery for `p` may still touch the page: the page is
        shown, no selection happened since the request, and the request's
        chat is the current one. */
    predicate Accepts(p: Pending)
      reads this`isActive, this`activeLoadToken, this`current
    {
      isActive && p.token == activeLoadToken && (current.None? || current.value.chatId == p.chatId)
    }

    /** `update_ui`, given the fetched page (newest message first). A stale
        delivery or an empty page changes neither the oldest id nor the
        list. Otherwise the oldest id becomes the page's last message; a
        first page replaces the list by the page in reading order (oldest
        first) and scrolls to its end; a backward page is put in front of
        the list, the previous first entry being the scroll anchor. In
        every case the in-flight flag ends false. */
    method UpdateUi(p: Pending, page: seq<Message>) returns (scrollTo: Option<Item>)
      requires Valid() && p in issued
      modifies this`oldestMsgId, this`items, this`isLoadingMore
      ensures Valid()
      ensures !isLoadingMore
      ensures !old(Accepts(p)) || page == [] ==>
        oldestMsgId == old(oldestMsgId) && items == old(items) && scrollTo.None?
      ensures old(Accepts(p)) && page != [] ==>
        && oldestMsgId == Some(page[|page| - 1].msgId)
        && (!p.isLoadMore ==> items == Bubbles(Reverse(page)) && scrollTo == Some(Bubble(page[0])))
        && (p.isLoadMore ==>
              && items == Bubbles(Reverse(page)) + old(items)
              && scrollTo == (if old(items) == [] then None else Some(old(items)[0])))
    {
      scrollTo := None;
      if Accepts(p) && page != [] {
        oldestMsgId := Some(page[|page| - 1].msgId);
        var display := Reverse(page);
        if !p.isLoadMore {
          ShowPage(display);
          scrollTo := Some(items[|items| - 1]);
        } else {
          assert Placeholder !in items;
          scrollTo := if items == [] then None else Some(items[0]);
          ReverseInvolution(page);
          PrependPage(Reverse(display));
          assert Placeholder !in items;
        }
      }
      isLoadingMore := false;
    }

    /** The first-page loop: the list is cleared and the messages appended
        in display order. */
    method ShowPage(display: seq<Message>)
      requires display != []
      modifies this`items
      ensures items == Bubbles(display)
      ensures items[|items| - 1] == Bubble(display[|display| - 1])
    {
      items := [];
      var i := 0;
      while i < |display|
        invariant 0 <= i <= |display|
        invariant items == Bubbles(display[..i])
      {
        items := items + [Bubble(display[i])];
        i := i + 1;
      }
      assert display[..|display|] == display;
    }

    /** The backward-page loop: each message of the page, newest first, is
        inserted at the front, so the page ends up before the old entries
        in reading order. */
    method PrependPage(newestFirst: seq<Message>)
      modifies this`items
      ensures items == Bubbles(Reverse(newestFirst)) + old(items)
    {
      var i := 0;
      while i < |newestFirst|
        invariant 0 <= i <= |newestFirst|
        invariant items == Bubbles(Reverse(newestFirst[..i])) + old(items)
      {
        ReverseSnoc(newestFirst, i);
        items := [Bubble(newestFirst[i])] + items;
        i := i + 1;
      }
      assert newestFirst[..|newestFirst|] == newestFirst;
    }

    /** `reset_loading`, the delivery after a failed fetch: only the
        in-flight flag changes; the cursor recorded by the request stays. */
    method ResetLoading()
      modifies this`isLoadingMore
      ensures !isLoadingMore
    {
      isLoadingMore := false;
    }

    // -------------------------------------------------------------------
    // Backward paging and user interaction

    /** The sentinel's condition for paging backwards. */
    predicate WantsOlder(viewportHeight: real, now: int)
      reads this
    {
      && isActive && !isLoadingMore
      && viewportHeight > 0.0
      && IsSet(oldestMsgId) && oldestMsgId != lastPagingMsgId
      && (isUserInteracting || now - lastInteractionTime < RecentInteractionWindow)
    }

    /** `on_sentinel_viewport_changed`: a backward page of the current chat
        is requested, under the active token and with the oldest id as
        cursor, exactly when the sentinel condition holds. */
    method OnSentinelViewportChanged(viewportHeight: real, now: int) returns (req: Option<Pending>)
      requires Valid()
      modifies this`lastPagingMsgId, this`isLoadingMore, this`issued
      ensures Valid()
      ensures req.Some? <==> old(WantsOlder(viewportHeight, now)) && current.Some? && current.value.chatId != ""
      ensures req.None? ==> unchanged(this)
      ensures req.Some? ==>
        && req.value == Pending(activeLoadToken, current.value.chatId, current.value.chatType,
                                true, oldestMsgId.value)
        && lastPagingMsgId == oldestMsgId && isLoadingMore
        && issued == old(issued) + {req.value}
    {
      req := None;
      if !isActive || isLoadingMore {
        return;
      }
      if viewportHeight > 0.0 {
        if IsSet(oldestMsgId) && oldestMsgId != lastPagingMsgId {
          var recent := now - lastInteractionTime < RecentInteractionWindow;
          if isUserInteracting || recent {
            if current.Some? {
              req := LoadMessages(current.value, true, Some(activeLoadToken));
            }
          }
        }
      }
    }

    method OnPointerPressed(now: int)
      modifies this`isUserInteracting, this`lastInteractionTime
      ensures isUserInteracting && lastInteractionTime == now
    {
      isUserInteracting := true;
      lastInteractionTime := now;
    }

    method OnPointerReleased(now: int)
      modifies this`isUserInteracting, this`lastInteractionTime
      ensures !isUserInteracting && lastInteractionTime == now
    {
      isUserInteracting := false;
      lastInteractionTime := now;
    }

    /** Leaving the list ends the interaction without stamping the time. */
    method OnPointerExited()
      modifies this`isUserInteracting
      ensures !isUserInteracting
    {
      isUserInteracting := false;
    }

    /** A wheel tick stamps the time, marks the user as interacting, and
        replaces any armed timer by one that fires a second later. */
    method OnWheel(now: int)
      modifies this`isUserInteracting, this`lastInteractionTime, this`wheelTimerDue
      ensures isUserInteracting && lastInteractionTime == now
      ensures wheelTimerDue == Some(now + WheelResetDelay)
    {
      lastInteractionTime := now;
      isUserInteracting := true;
      wheelTimerDue := Some(now + WheelResetDelay);
    }

    /** The wheel timer, if armed and due, clears the interacting flag; a
        cancelled or not yet due timer does nothing. */
    method OnWheelTimerElapsed(now: int)
      modifies this`isUserInteracting, this`wheelTimerDue
      ensures old(wheelTimerDue).Some? && now >= old(wheelTimerDue).value ==>
        !isUserInteracting && wheelTimerDue.None?
      ensures !(old(wheelTimerDue).Some? && now >= old(wheelTimerDue).value) ==>
        isUserInteracting == old(isUserInteracting) && wheelTimerDue == old(wheelTimerDue)
    {
      if wheelTimerDue.Some? && now >= wheelTimerDue.value {
        isUserInteracting := false;
        wheelTimerDue := None;
      }
    }

    /** `_on_unloaded`: the page stops accepting deliveries and paging. */
    method OnUnloaded()
      modifies this`isActive
      ensures !isActive
    {
      isActive := false;
    }

    // -------------------------------------------------------------------
    // Sending

    method OnInputChanged(text: string)
      modifies this`inputText
      ensures inputText == text
    {
      inputText := text;
    }

    /** `on_send_click`: nothing is sent without a current chat or text. */
    method OnSendClick() returns (out: Option<OutgoingText>)
      ensures out.Some? <==> current.Some? && inputText != ""
      ensures out.Some? ==> out.value == OutgoingText(current.value.chatId, current.value.chatType, inputText)
    {
      if current.None? || inputText == "" {
        return None;
      }
      out := Some(OutgoingText(current.value.chatId, current.value.chatType, inputText));
    }

    /** `clear_ui` after a text was sent: the input is cleared and the
        newest page of the current chat is requested under the active
        token, subject to the guards of `LoadMessages`. */
    method OnTextSent() returns (req: Option<Pending>)
      requires Valid()
      modifies this`inputText, this`lastPagingMsgId, this`isLoadingMore, this`issued
      ensures Valid()
      ensures inputText == ""
      ensures lastPagingMsgId == old(lastPagingMsgId)
      ensures req.Some? <==> current.Some? && current.value.chatId != "" && !old(isLoadingMore)
      ensures req.None? ==> isLoadingMore == old(isLoadingMore) && issued == old(issued)
      ensures req.Some? ==>
        && req.value == Pending(activeLoadToken, current.value.chatId, current.value.chatType, false, "")
        && isLoadingMore && issued == old(issued) + {req.value}
    {
      inputText := "";
      req := ReloadCurrent();
    }

    /** `on_done` after an image was sent: the same reload, input untouched. */
    method OnImageSent() returns (req: Option<Pending>)
      requires Valid()
      modifies this`lastPagingMsgId, this`isLoadingMore, this`issued
      ensures Valid()
      ensures lastPagingMsgId == old(lastPagingMsgId)
      ensures req.Some? <==> current.Some? && current.value.chatId != "" && !old(isLoadingMore)
      ensures req.None? ==> isLoadingMore == old(isLoadingMore) && issued == old(issued)
      ensures req.Some? ==>
        && req.value == Pending(activeLoadToken, current.value.chatId, current.value.chatType, false, "")
        && isLoadingMore && issued == old(issued) + {req.value}
    {
      req := ReloadCurrent();
    }

    /** `_load_messages(self._current_chat)` with the default token; with
        no current chat the call fails before changing anything. */
    method ReloadCurrent() returns (req: Option<Pending>)
      requires Valid()
      modifies this`lastPagingMsgId, this`isLoadingMore, this`issued
      ensures Valid()
      ensures lastPagingMsgId == old(lastPagingMsgId)
      ensures req.Some? <==> current.Some? && current.value.chatId != "" && !old(isLoadingMore)
      ensures req.None? ==> isLoadingMore == old(isLoadingMore) && issued == old(issued)
      ensures req.Some? ==>
        && req.value == Pending(activeLoadToken, current.value.chatId, current.value.chatType, false, "")
        && isLoadingMore && issued == old(issued) + {req.value}
    {
      req := None;
      if current.Some? {
        req := LoadMessages(current.value, false, None);
      }
    }
  }
}
