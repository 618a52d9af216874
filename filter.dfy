/** The conversation search of the chat page (chat.py, `_apply_filter`):
    which conversations are listed for a query, in which order, and the
    chat-id lookup that selection uses. */
module ConversationFilter {
  import opened Text
  import opened Seqs

  /** One entry of the conversation list, after the camelCase/snake_case
      key variants have been merged into single fields. */
  datatype Conversation = Conversation(
    chatId: string,
    chatType: int,
    name: string,
    chatContent: string,
    avatarUrl: string)

  /** The normalised query: stripped, then lower-cased. */
  function NormalizeQuery(query: string): (q: string)
    ensures |q| <= |query|
    ensures q != [] ==> !IsSpace(q[0]) && !IsSpace(q[|q| - 1])
    ensures forall i :: 0 <= i < |q| ==> !('A' <= q[i] <= 'Z')
  {
    var s := Strip(query);
    StripSpec(query);
    LowerEnds(s);
    Lower(s)
  }

  /** A conversation matches `q` when its stripped name or stripped chat
      preview contains `q`, ignoring ASCII case. */
  predicate Matches(c: Conversation, q: string)
  {
    Contains(Lower(Strip(c.name)), q) || Contains(Lower(Strip(c.chatContent)), q)
  }

  /** Whether the loop body lists `c` for the normalised query `q`:
      everything is listed for an empty query. */
  predicate Shows(c: Conversation, q: string)
  {
    q == [] || Matches(c, q)
  }

  /** `Shows` for a fixed normalised query, as a test on conversations. */
  function ShownFor(q: string): Conversation -> bool
  {
    c => Shows(c, q)
  }

  /** The list shown for the text typed in the search box. */
  function Filter(convs: seq<Conversation>, query: string): seq<Conversation>
  {
    Keep(convs, ShownFor(NormalizeQuery(query)))
  }

  /** The chat-id lookup rebuilt beside the list: every listed conversation
      is entered under its chat id, a later one replacing an earlier one. */
  function LookupOf(shown: seq<Conversation>): map<string, Conversation>
  {
    if shown == [] then map[]
    else
      var c := shown[|shown| - 1];
      LookupOf(shown[..|shown| - 1])[c.chatId := c]
  }

  /** The lookup has exactly the listed chat ids as keys, and under each
      id a listed conversation with that id. */
  lemma {:induction false} LookupSpec(shown: seq<Conversation>)
    ensures LookupOf(shown).Keys == set c | c in shown :: c.chatId
    ensures forall id :: id in LookupOf(shown) ==> LookupOf(shown)[id] in shown && LookupOf(shown)[id].chatId == id
  {
    if shown != [] {
      var c := shown[|shown| - 1];
      var init := shown[..|shown| - 1];
      LookupSpec(init);
      assert forall d :: d in shown <==> d in init || d == c by {
        assert shown == init + [c];
      }
    }
  }

  /** Listing one more conversation enters it under its chat id. */
  lemma LookupSnoc(shown: seq<Conversation>, c: Conversation)
    ensures LookupOf(shown + [c]) == LookupOf(shown)[c.chatId := c]
  {
    assert (shown + [c])[..|shown|] == shown;
  }

  /** The search box contract: a blank query lists everything in order;
      otherwise exactly the matching conversations are listed, in order;
      filtering is idempotent. */
  lemma FilterSpec(convs: seq<Conversation>, query: string)
    ensures Strip(query) == [] ==> Filter(convs, query) == convs
    ensures IsSubsequence(Filter(convs, query), convs)
    ensures forall c :: c in Filter(convs, query) <==> c in convs && Shows(c, NormalizeQuery(query))
    ensures Filter(Filter(convs, query), query) == Filter(convs, query)
  {
    var q := NormalizeQuery(query);
    var keep := ShownFor(q);
    if Strip(query) == [] {
      KeepAll(convs, keep);
    }
    KeepIsSubsequence(convs, keep);
    forall c | c in convs && Shows(c, q) ensures c in Filter(convs, query) {
      KeepComplete(convs, keep, c);
    }
    forall c | c in Filter(convs, query) ensures c in convs && Shows(c, q) {
      KeepSound(convs, keep, c);
    }
    KeepIdempotent(convs, keep);
  }

  /** With distinct chat ids, the lookup finds each listed conversation
      under its own id. */
  lemma {:induction false} LookupFindsEach(shown: seq<Conversation>, c: Conversation)
    requires forall i, j :: 0 <= i < j < |shown| ==> shown[i].chatId != shown[j].chatId
    requires c in shown
    ensures c.chatId in LookupOf(shown) && LookupOf(shown)[c.chatId] == c
  {
    var last := shown[|shown| - 1];
    var init := shown[..|shown| - 1];
    if c != last {
      assert c in init by {
        assert shown == init + [last];
      }
      LookupFindsEach(init, c);
      var i :| 0 <= i < |init| && init[i] == c;
      assert shown[i] == c;
    }
  }
}
