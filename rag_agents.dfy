/** `ChatManager` itself: `generate_response`, which routes a prompt, runs
    one exchange with the chosen agent, appends a stall message when the
    agent sounds stuck and filters the history it returns, and
    `show_chat_history`, which records every shown entry in
    `rag_messages`. */
module RagAgents {
  import opened Wrappers
  import opened PyStr
  import opened Mermaid
  import opened ChatTypes
  import opened Routing
  import opened History

  // ------------------------------------------------------------------
  // `generate_response`
  // ------------------------------------------------------------------

  /** One exchange `user_proxy.initiate_chat(agent, message=...)` runs: the
      agent's name and the prompt it is sent, to the chat history the
      exchange produces. The language model behind it is not modelled. */
  type Converse = (string, string) -> seq<Message>

  /** The agent a prompt is routed to. */
  function AgentFor(prompt: string): string {
    if IsOrgRelated(prompt) then GraphAgentName else TextAgentName
  }

  /** The prompt the chosen agent is sent. */
  function SentPrompt(prompt: string, docs: Documents): string {
    if IsOrgRelated(prompt) then OrgPrompt(OrgBlocks(docs.org), prompt)
    else PersonalPrompt(docs.personal, prompt)
  }

  /** The chat history the exchange produces. */
  function Conversation(prompt: string, docs: Documents, converse: Converse): seq<Message> {
    converse(AgentFor(prompt), SentPrompt(prompt, docs))
  }

  /** What `generate_response` returns: the filtered history, the stall
      message appended first when the agent sounded stuck, or the
      `KeyError` that `should_stop` raised. Whatever it returns gives away
      none of the reference material. */
  function Respond(prompt: string, docs: Documents, converse: Converse): (r: Result<seq<Message>, Error>)
    ensures r.Ok? ==> forall i :: 0 <= i < |r.value| ==> !Leaks(r.value[i])
  {
    var h := Conversation(prompt, docs, converse);
    match ShouldStop(h)
    case Err(e) => Err(e)
    case Ok(stop) => Ok(Sanitise(WithStall(h, stop, IsOrgRelated(prompt))))
  }

  /** The `response` object of an exchange: its chat history is a list that
      `generate_response` appends to in place. */
  class ChatResult {
    var chatHistory: seq<Message>

    constructor (h: seq<Message>)
      ensures chatHistory == h
    {
      chatHistory := h;
    }

    /** `response.chat_history.append(entry)`. */
    method Append(entry: Message)
      modifies this
      ensures chatHistory == old(chatHistory) + [entry]
    {
      chatHistory := chatHistory + [entry];
    }
  }

  /** The loop `mermaid_blocks += extract_mermaid_blocks(content)` over the
      organisation documents, in their order. */
  method CollectOrgBlocks(org: seq<Doc>) returns (blocks: seq<string>)
    ensures blocks == OrgBlocks(org)
    ensures FenceFree(blocks)
  {
    blocks := [];
    var i := 0;
    while i < |org|
      invariant 0 <= i <= |org|
      invariant blocks == OrgBlocks(org[..i])
    {
      assert org[..i + 1][..i] == org[..i];
      blocks := blocks + ExtractMermaidBlocks(org[i].content);
      i := i + 1;
    }
    assert org[..i] == org;
    OrgBlocksAreFenceFree(org);
  }

  /** `ChatManager.generate_response`, with the documents already loaded and
      the exchange given as `converse`. */
  method GenerateResponse(prompt: string, docs: Documents, converse: Converse) returns (r: Result<seq<Message>, Error>)
    ensures r == Respond(prompt, docs, converse)
  {
    var org := IsOrgRelated(prompt);
    var agent, sent;
    if org {
      var blocks := CollectOrgBlocks(docs.org);
      agent, sent := GraphAgentName, OrgPrompt(blocks, prompt);
    } else {
      agent, sent := TextAgentName, PersonalPrompt(docs.personal, prompt);
    }
    var response := new ChatResult(converse(agent, sent));
    var stop := ShouldStop(response.chatHistory);
    if stop.Err? {
      return Err(stop.error);
    }
    if stop.value {
      response.Append(StallMessage(org));
    }
    r := Ok(Sanitise(response.chatHistory));
  }

  /** `generate_response` raises exactly when one of the last three entries
      of the exchange lacks a role, or is an agent's reply without a
      content. */
  lemma RespondFails(prompt: string, docs: Documents, converse: Converse)
    ensures var t := LastThree(Conversation(prompt, docs, converse));
      Respond(prompt, docs, converse).Err? <==> exists i :: 0 <= i < |t| && !Readable(t[i])
  {
    ShouldStopMeaning(Conversation(prompt, docs, converse));
  }

  /** What `generate_response` returns is the exchange filtered, followed
      by the stall message exactly when the agent sounded stuck (the filter
      never drops it); an entry that gives nothing away is never dropped. */
  lemma RespondKeepsTheExchange(prompt: string, docs: Documents, converse: Converse)
    ensures var h := Conversation(prompt, docs, converse);
      var r := Respond(prompt, docs, converse);
      r.Ok? ==>
        && r.value == Sanitise(h) + (if ShouldStop(h) == Ok(true) then [StallMessage(IsOrgRelated(prompt))] else [])
        && forall m :: m in h && !Leaks(m) ==> m in r.value
  {
    var h := Conversation(prompt, docs, converse);
    var r := Respond(prompt, docs, converse);
    if r.Ok? {
      if ShouldStop(h) == Ok(true) {
        var stall := StallMessage(IsOrgRelated(prompt));
        StallMessageIsKept(IsOrgRelated(prompt));
        SanitiseAppend(h, [stall]);
        assert Sanitise([stall]) == [stall];
      }
      forall m | m in h && !Leaks(m) ensures m in r.value {
        SanitiseCounts(h, m);
        assert m in multiset(Sanitise(h));
      }
    }
  }

  /** When the agent sounds stuck, the returned history ends with the stall
      message of the branch taken: the filter never drops it. */
  lemma RespondEndsWithStall(prompt: string, docs: Documents, converse: Converse)
    requires ShouldStop(Conversation(prompt, docs, converse)) == Ok(true)
    ensures var r := Respond(prompt, docs, converse);
      r.Ok? && |r.value| > 0 && r.value[|r.value| - 1] == StallMessage(IsOrgRelated(prompt))
  {
    var h := Conversation(prompt, docs, converse);
    var stall := StallMessage(IsOrgRelated(prompt));
    StallMessageIsKept(IsOrgRelated(prompt));
    SanitiseAppend(h, [stall]);
    assert Sanitise([stall]) == [stall];
  }

  /** When the agent does not sound stuck, the returned history is the
      exchange filtered, with nothing added. */
  lemma RespondWithoutStall(prompt: string, docs: Documents, converse: Converse)
    requires ShouldStop(Conversation(prompt, docs, converse)) == Ok(false)
    ensures Respond(prompt, docs, converse) == Ok(Sanitise(Conversation(prompt, docs, converse)))
  {
  }

  // ------------------------------------------------------------------
  // The prompt sent is never shown back
  // ------------------------------------------------------------------

  /** A content whose first `n` characters open, lower-cased, with a marker
      leaks. */
  lemma LeaksByOpening(m: Message, n: nat, k: nat)
    requires k < |LeakMarkers| && m.content.Some? && |LeakMarkers[k]| <= n <= |m.content.value|
    requires Lower(m.content.value[..n])[..|LeakMarkers[k]|] == LeakMarkers[k]
    ensures Leaks(m)
  {
    var text := m.content.value;
    LowerSlice(text, 0, n);
    assert text[0..n] == text[..n];
    assert Lower(text)[0..|LeakMarkers[k]|] == LeakMarkers[k];
    ContainsAt(Lower(text), LeakMarkers[k], 0);
  }

  /** `p` opens with `w` when it opens with `pre` and `pre` opens with `w`. */
  lemma OpensWith(p: string, pre: string, w: string)
    requires |pre| <= |p| && p[..|pre|] == pre && |w| <= |pre| && pre[..|w|] == w
    ensures p[..|w|] == w
  {
    assert p[..|w|] == p[..|pre|][..|w|];
  }

  /** The organisation instructions open with "Based on the following ". */
  lemma OrgPreambleOpening()
    ensures |OrgPreamble| >= 23 && OrgPreamble[..23] == "Based on the following "
  {
  }

  /** The personal instructions open with "Use the following ". */
  lemma PersonalPreambleOpening()
    ensures |PersonalPreamble| >= 18 && PersonalPreamble[..18] == "Use the following "
  {
  }

  /** Lower-cased, the two openings start with markers 2 and 3. */
  lemma OpeningsAreMarkers()
    ensures Lower("Based on the following ")[..22] == LeakMarkers[2]
    ensures Lower("Use the following ")[..17] == LeakMarkers[3]
  {
    assert Lower("Based on the following ") == "based on the following ";
    assert Lower("Use the following ") == "use the following ";
  }

  /** An agent that repeats the organisation prompt it was sent has its
      reply filtered out. */
  lemma OrgPromptIsHidden(blocks: seq<string>, prompt: string, role: Option<string>)
    ensures Leaks(Message(role, Some(OrgPrompt(blocks, prompt))))
  {
    var p, w := OrgPrompt(blocks, prompt), "Based on the following ";
    OrgPromptFrame(blocks, prompt);
    OrgPreambleOpening();
    OpensWith(p, OrgPreamble, w);
    OpeningsAreMarkers();
    LeaksByOpening(Message(role, Some(p)), |w|, 2);
  }

  /** An agent that repeats the personal prompt it was sent has its reply
      filtered out. */
  lemma PersonalPromptIsHidden(notes: seq<Doc>, prompt: string, role: Option<string>)
    ensures Leaks(Message(role, Some(PersonalPrompt(notes, prompt))))
  {
    var p, w := PersonalPrompt(notes, prompt), "Use the following ";
    PersonalPromptFrame(notes, prompt);
    PersonalPreambleOpening();
    OpensWith(p, PersonalPreamble, w);
    OpeningsAreMarkers();
    LeaksByOpening(Message(role, Some(p)), |w|, 3);
  }

  /** Whichever branch is taken, an exchange entry that repeats the prompt
      sent is not in what `generate_response` returns. */
  lemma SentPromptNeverReturned(prompt: string, docs: Documents, converse: Converse, role: Option<string>)
    ensures var r := Respond(prompt, docs, converse);
      r.Ok? ==> Message(role, Some(SentPrompt(prompt, docs))) !in r.value
  {
    if IsOrgRelated(prompt) {
      OrgPromptIsHidden(OrgBlocks(docs.org), prompt, role);
    } else {
      PersonalPromptIsHidden(docs.personal, prompt, role);
    }
  }

  // ------------------------------------------------------------------
  // `show_chat_history` and `rag_messages`
  // ------------------------------------------------------------------

  /** The session state a `ChatManager` keeps: `st.session_state.rag_messages`. */
  class ChatManager {
    var ragMessages: seq<StoredMessage>

    /** Set-up on each run of the page: `rag_messages` keeps the list the
        session already holds, and starts empty only in a fresh session. */
    constructor (session: Option<seq<StoredMessage>>)
      ensures session.Some? ==> ragMessages == session.value
      ensures session.None? ==> ragMessages == []
    {
      if session.Some? {
        ragMessages := session.value;
      } else {
        ragMessages := [];
      }
    }

    /** One pass of the loop of `show_chat_history`, without its rendering:
        a blank entry is skipped, any other one is recorded with its avatar,
        and a role without an avatar raises before anything is recorded. */
    method ShowEntry(entry: Message) returns (err: Option<Error>)
      modifies this
      ensures err.Some? <==> !Displayable(entry)
      ensures err.Some? ==> err.value == NoUserImage && ragMessages == old(ragMessages)
      ensures err.None? ==> ragMessages == old(ragMessages) + Shown(entry)
    {
      var role, content := EntryRole(entry), EntryText(entry);
      if content == [] {
        return None;
      }
      var avatar := GetAvatar(role);
      if avatar.Err? {
        return Some(avatar.error);
      }
      ragMessages := ragMessages + [StoredMessage(role, content, avatar.value)];
      return None;
    }

    /** The pass of `show_chat_history` at entry `i`, after a clean pass
        over the entries before it: either it raises, and the whole history
        is then recorded as `Record` says, or the pass stays clean. */
    method ShowNext(h: seq<Message>, i: nat, ghost start: seq<StoredMessage>) returns (err: Option<Error>)
      requires i < |h| && ragMessages == start + Record(h[..i]).stored && Record(h[..i]).error == None
      modifies this
      ensures err.Some? ==> ragMessages == start + Record(h).stored && err == Record(h).error
      ensures err.None? ==> ragMessages == start + Record(h[..i + 1]).stored && Record(h[..i + 1]).error == None
    {
      err := ShowEntry(h[i]);
      if err.Some? {
        RecordStopsAfter(h, i, Record(h[..i]).stored);
      } else {
        RecordStep(h, i);
      }
    }

    /** `ChatManager.show_chat_history` without its rendering: every entry
        with a non-blank content is recorded with its avatar; the first one
        whose role has none raises, and what was recorded before stays. */
    method ShowChatHistory(h: seq<Message>) returns (err: Option<Error>)
      modifies this
      ensures ragMessages == old(ragMessages) + Record(h).stored
      ensures err == Record(h).error
    {
      ghost var start := ragMessages;
      var i := 0;
      while i < |h|
        invariant 0 <= i <= |h|
        invariant ragMessages == start + Record(h[..i]).stored
        invariant Record(h[..i]).error == None
      {
        err := ShowNext(h, i, start);
        if err.Some? {
          return;
        }
        i := i + 1;
      }
      assert h[..i] == h;
      return None;
    }
  }

  /** Showing a history in which every non-blank entry has a known role
      records all of them, in order, and raises nothing. */
  lemma ShowingDisplayableHistory(h: seq<Message>)
    requires forall i :: 0 <= i < |h| ==> Displayable(h[i])
    ensures Record(h) == Recording(Kept(h), None)
    ensures |Record(h).stored| == NonBlankCount(h)
  {
    RecordDisplayable(h);
    KeptCount(h);
  }
}
