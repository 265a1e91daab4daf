/** The second half of `ChatManager.generate_response` and the bookkeeping of
    `show_chat_history`: deciding that the agent is stuck, the message that
    ends such a chat, the filter that hides injected reference material, the
    avatar of each role, the words a reply is streamed in, and what a
    rendered history leaves in `rag_messages`. */
module History {
  import opened Wrappers
  import opened PyStr
  import opened ChatTypes
  import Config

  // ------------------------------------------------------------------
  // Stall detector: `should_stop`
  // ------------------------------------------------------------------

  /** `chat_history[-3:]`: the last three entries, or all of them if fewer. */
  function LastThree(h: seq<Message>): (tail: seq<Message>)
    ensures |tail| == if |h| < 3 then |h| else 3
    ensures h == h[..|h| - |tail|] + tail
  {
    if |h| <= 3 then h else h[|h| - 3..]
  }

  /** A reply holds one of the termination phrases, compared as written. */
  predicate SoundsStuck(reply: string) {
    AnyIn(Config.TerminationPhrases, reply)
  }

  /** The entry comes from one of the two answering agents. */
  predicate IsAgentReply(m: Message) {
    m.role.Some? && IsAgentRole(m.role.value)
  }

  /** `should_stop` can read the entry: it has a role, and a content when the
      role is an agent's. */
  predicate Readable(m: Message) {
    m.role.Some? && (IsAgentRole(m.role.value) ==> m.content.Some?)
  }

  /** An agent reply as `should_stop` compares it: stripped, then lower-cased. */
  function Reply(m: Message): string
    requires IsAgentReply(m) && m.content.Some?
  {
    Lower(Strip(m.content.value))
  }

  /** The list comprehension of `should_stop`: the stripped, lower-cased
      content of every agent entry, in order. Reading `msg["role"]` of an
      entry without a role, or `msg["content"]` of an agent entry without a
      content, raises `KeyError`, and the first such entry decides which. */
  function AgentReplies(msgs: seq<Message>): (r: Result<seq<string>, Error>)
    ensures r.Ok? ==> |r.value| <= |msgs|
  {
    if msgs == [] then Ok([])
    else if msgs[0].role.None? then Err(KeyError("role"))
    else if !IsAgentRole(msgs[0].role.value) then AgentReplies(msgs[1..])
    else if msgs[0].content.None? then Err(KeyError("content"))
    else match AgentReplies(msgs[1..])
      case Err(e) => Err(e)
      case Ok(rest) => Ok([Reply(msgs[0])] + rest)
  }

  /** `ChatManager.should_stop`: every agent reply among the last three
      entries sounds stuck. */
  function ShouldStop(h: seq<Message>): Result<bool, Error> {
    match AgentReplies(LastThree(h))
    case Err(e) => Err(e)
    case Ok(replies) => Ok(AllPass(replies, SoundsStuck))
  }

  /** The comprehension succeeds exactly on readable entries. */
  lemma {:induction false} AgentRepliesReadable(msgs: seq<Message>)
    ensures AgentReplies(msgs).Ok? <==> forall i :: 0 <= i < |msgs| ==> Readable(msgs[i])
  {
    if msgs != [] {
      AgentRepliesReadable(msgs[1..]);
      assert forall i :: 1 <= i < |msgs| ==> msgs[i] == msgs[1..][i - 1];
    }
  }

  /** A readable entry in front that is not an agent's adds nothing. */
  lemma AgentRepliesSkip(msgs: seq<Message>)
    requires msgs != [] && Readable(msgs[0]) && !IsAgentReply(msgs[0])
    ensures AgentReplies(msgs) == AgentReplies(msgs[1..])
  {
  }

  /** A readable agent entry in front adds its reply in front. */
  lemma AgentRepliesTake(msgs: seq<Message>)
    requires msgs != [] && Readable(msgs[0]) && IsAgentReply(msgs[0]) && AgentReplies(msgs[1..]).Ok?
    ensures AgentReplies(msgs) == Ok([Reply(msgs[0])] + AgentReplies(msgs[1..]).value)
  {
  }

  /** Every entry is readable and, when it is an agent's, passes the test. */
  predicate EveryReplyPasses(msgs: seq<Message>, test: string -> bool) {
    forall i :: 0 <= i < |msgs| ==> Readable(msgs[i]) && (IsAgentReply(msgs[i]) ==> test(Reply(msgs[i])))
  }

  /** `EveryReplyPasses` splits into the first entry and the rest. */
  lemma EveryReplyPassesCons(msgs: seq<Message>, test: string -> bool)
    requires msgs != []
    ensures EveryReplyPasses(msgs, test)
            <==> (Readable(msgs[0]) && (IsAgentReply(msgs[0]) ==> test(Reply(msgs[0]))))
                 && EveryReplyPasses(msgs[1..], test)
  {
    assert forall i :: 1 <= i < |msgs| ==> msgs[i] == msgs[1..][i - 1];
  }

  /** A test holds of every item. */
  predicate AllPass(xs: seq<string>, test: string -> bool) {
    forall j :: 0 <= j < |xs| ==> test(xs[j])
  }

  /** On readable entries the comprehension succeeds, and a test holds of
      all its replies exactly when it holds of every agent entry's reply. */
  lemma {:induction false} AgentRepliesAll(msgs: seq<Message>, test: string -> bool)
    requires forall i :: 0 <= i < |msgs| ==> Readable(msgs[i])
    ensures AgentReplies(msgs).Ok?
    ensures AllPass(AgentReplies(msgs).value, test) <==> EveryReplyPasses(msgs, test)
  {
    if msgs != [] {
      var rest := msgs[1..];
      assert forall i :: 0 <= i < |rest| ==> rest[i] == msgs[i + 1];
      AgentRepliesAll(rest, test);
      if IsAgentReply(msgs[0]) {
        AgentRepliesAllTake(msgs, test);
      } else {
        AgentRepliesAllSkip(msgs, test);
      }
    }
  }

  /** `AgentRepliesAll` across an entry that is not an agent's. */
  lemma AgentRepliesAllSkip(msgs: seq<Message>, test: string -> bool)
    requires msgs != [] && Readable(msgs[0]) && !IsAgentReply(msgs[0])
    requires AgentReplies(msgs[1..]).Ok?
    requires AllPass(AgentReplies(msgs[1..]).value, test) <==> EveryReplyPasses(msgs[1..], test)
    ensures AgentReplies(msgs).Ok?
    ensures AllPass(AgentReplies(msgs).value, test) <==> EveryReplyPasses(msgs, test)
  {
    EveryReplyPassesCons(msgs, test);
    AgentRepliesSkip(msgs);
  }

  /** `AgentRepliesAll` across an agent entry. */
  lemma AgentRepliesAllTake(msgs: seq<Message>, test: string -> bool)
    requires msgs != [] && Readable(msgs[0]) && IsAgentReply(msgs[0])
    requires AgentReplies(msgs[1..]).Ok?
    requires AllPass(AgentReplies(msgs[1..]).value, test) <==> EveryReplyPasses(msgs[1..], test)
    ensures AgentReplies(msgs).Ok?
    ensures AllPass(AgentReplies(msgs).value, test) <==> EveryReplyPasses(msgs, test)
  {
    var r, rs := Reply(msgs[0]), AgentReplies(msgs[1..]).value;
    AgentRepliesTake(msgs);
    assert AllPass(AgentReplies(msgs).value, test) <==> test(r) && AllPass(rs, test) by {
      AllPassAppend([r], rs, test);
      assert [r][0] == r;
    }
    assert EveryReplyPasses(msgs, test) <==> test(r) && EveryReplyPasses(msgs[1..], test) by {
      EveryReplyPassesCons(msgs, test);
    }
  }

  /** A test holds of all of `a + b` exactly when it holds of all of `a` and all of `b`. */
  lemma AllPassAppend(a: seq<string>, b: seq<string>, test: string -> bool)
    ensures AllPass(a + b, test) <==> AllPass(a, test) && AllPass(b, test)
  {
    if AllPass(a, test) && AllPass(b, test) {
      forall j | 0 <= j < |a + b| ensures test((a + b)[j]) {
        if j < |a| {
          assert (a + b)[j] == a[j];
        } else {
          assert (a + b)[j] == b[j - |a|];
        }
      }
    }
    if AllPass(a + b, test) {
      forall j | 0 <= j < |a| ensures test(a[j]) {
        assert (a + b)[j] == a[j];
      }
      forall j | 0 <= j < |b| ensures test(b[j]) {
        assert (a + b)[|a| + j] == b[j];
      }
    }
  }

  /** `should_stop` answers exactly when the last three entries are readable,
      and answers yes exactly when every agent reply among them, stripped and
      lower-cased, holds a termination phrase; only the last three count. */
  lemma ShouldStopMeaning(h: seq<Message>)
    ensures var t := LastThree(h);
      && (ShouldStop(h).Ok? <==> forall i :: 0 <= i < |t| ==> Readable(t[i]))
      && (ShouldStop(h) == Ok(true) <==>
            forall i :: 0 <= i < |t| ==> Readable(t[i]) && (IsAgentReply(t[i]) ==> SoundsStuck(Reply(t[i]))))
  {
    AgentRepliesReadable(LastThree(h));
    if forall i :: 0 <= i < |LastThree(h)| ==> Readable(LastThree(h)[i]) {
      AgentRepliesAll(LastThree(h), SoundsStuck);
    }
  }

  /** The first unreadable entry among the last three decides the error:
      `KeyError("role")` if it has no role, `KeyError("content")` otherwise. */
  lemma {:induction false} AgentRepliesError(msgs: seq<Message>, i: nat)
    requires i < |msgs| && !Readable(msgs[i])
    requires forall k :: 0 <= k < i ==> Readable(msgs[k])
    ensures AgentReplies(msgs) == Err(KeyError(if msgs[i].role.None? then "role" else "content"))
  {
    if i > 0 {
      AgentRepliesError(msgs[1..], i - 1);
    }
  }

  /** With no agent reply among the last three entries, `all` over nothing
      holds: `should_stop` answers yes, an empty history included. */
  lemma NoAgentReplyStops(h: seq<Message>)
    requires var t := LastThree(h); forall i :: 0 <= i < |t| ==> t[i].role.Some? && !IsAgentReply(t[i])
    ensures ShouldStop(h) == Ok(true)
  {
    ShouldStopMeaning(h);
  }

  /** Entries before the last three never change the answer. */
  lemma ShouldStopSeesLastThree(earlier: seq<Message>, h: seq<Message>)
    requires |h| >= 3
    ensures ShouldStop(earlier + h) == ShouldStop(h)
  {
    assert LastThree(earlier + h) == LastThree(h);
  }

  /** "I'm unable to provide", "I am sorry" and "I apologize" start with a
      capital letter and so never occur in a lower-cased reply: only the
      other four phrases can make a reply sound stuck. */
  lemma CapitalPhrasesNeverMatch(content: string)
    ensures var reply := Lower(Strip(content));
      && !Contains(reply, Config.TerminationPhrases[0])
      && !Contains(reply, Config.TerminationPhrases[1])
      && !Contains(reply, Config.TerminationPhrases[6])
      && (SoundsStuck(reply) <==> exists k :: 2 <= k < 6 && Contains(reply, Config.TerminationPhrases[k]))
  {
    PhrasesWithCapitals();
    CapitalsNeverMatch(Config.TerminationPhrases, Strip(content));
  }

  /** Phrases 0, 1 and 6 of the seven start with a capital letter. */
  lemma PhrasesWithCapitals()
    ensures var ps := Config.TerminationPhrases;
      |ps| == 7 && ps[0] != [] && ps[1] != [] && ps[6] != []
      && IsUpper(ps[0][0]) && IsUpper(ps[1][0]) && IsUpper(ps[6][0])
  {
  }

  /** Among seven phrases, those that start with a capital never occur in
      lower-cased text, so only the middle four can. */
  lemma CapitalsNeverMatch(ps: seq<string>, s: string)
    requires |ps| == 7 && ps[0] != [] && ps[1] != [] && ps[6] != []
    requires IsUpper(ps[0][0]) && IsUpper(ps[1][0]) && IsUpper(ps[6][0])
    ensures !Contains(Lower(s), ps[0]) && !Contains(Lower(s), ps[1]) && !Contains(Lower(s), ps[6])
    ensures AnyIn(ps, Lower(s)) <==> exists k :: 2 <= k < 6 && Contains(Lower(s), ps[k])
  {
    CapitalNeverContained(s, ps[0], 0);
    CapitalNeverContained(s, ps[1], 0);
    CapitalNeverContained(s, ps[6], 0);
    AnyInOfTheMiddle(ps, Lower(s));
  }

  /** Among seven phrases, with the first two and the last absent, only the
      middle four can be found. */
  lemma AnyInOfTheMiddle(ps: seq<string>, s: string)
    requires |ps| == 7 && !Contains(s, ps[0]) && !Contains(s, ps[1]) && !Contains(s, ps[6])
    ensures AnyIn(ps, s) <==> exists k :: 2 <= k < 6 && Contains(s, ps[k])
  {
    if AnyIn(ps, s) {
      var k :| 0 <= k < |ps| && Contains(s, ps[k]);
      assert 2 <= k < 6;
    }
  }

  /** A text with no whitespace at either end that ends in one of `ps` (in
      any case) holds that phrase once stripped and lower-cased. */
  lemma FoundAtEnd(a: string, b: string, ps: seq<string>, k: nat)
    requires k < |ps| && Lower(b) == ps[k]
    requires a != [] && !IsSpace(a[0]) && b != [] && !IsSpace(b[|b| - 1])
    ensures AnyIn(ps, Lower(Strip(a + b)))
  {
    var s := a + b;
    assert Strip(s) == s by {
      assert s[0] == a[0] && s[|s| - 1] == b[|b| - 1];
      StripKeeps(s);
    }
    assert Lower(s)[|a|..|s|] == ps[k] by {
      assert s[|a|..|s|] == b;
      LowerSlice(s, |a|, |s|);
    }
    ContainsAt(Lower(s), ps[k], |a|);
  }

  /** "I am sorry, please clarify" sounds stuck through "please clarify". */
  lemma SorryPleaseClarifySoundsStuck()
    ensures SoundsStuck(Lower(Strip("I am sorry, please clarify")))
  {
    var a, b := "I am sorry, ", "please clarify";
    PleaseClarifyIsAPhrase();
    SorryPleaseClarifyPieces();
    FoundAtEnd(a, b, Config.TerminationPhrases, 4);
  }

  lemma SorryPleaseClarifyPieces()
    ensures "I am sorry, " + "please clarify" == "I am sorry, please clarify"
  {
  }

  /** "please clarify" is termination phrase 4, lower case already. */
  lemma PleaseClarifyIsAPhrase()
    ensures Lower("please clarify") == Config.TerminationPhrases[4]
  {
    assert Lower("please clarify") == "please clarify";
  }

  /** Three agent replies "I am sorry, please clarify" stop the chat (through
      "please clarify"; "I am sorry" itself cannot match). */
  lemma SorryPleaseClarifyStops()
    ensures var m := Message(Some(ChatTypes.TextAgentName), Some("I am sorry, please clarify"));
      ShouldStop([m, m, m]) == Ok(true)
  {
    SorryPleaseClarifySoundsStuck();
    ThreeStuckRepliesStop(Message(Some(ChatTypes.TextAgentName), Some("I am sorry, please clarify")));
  }

  /** The same stuck agent reply three times over stops the chat. */
  lemma ThreeStuckRepliesStop(m: Message)
    requires IsAgentReply(m) && m.content.Some? && SoundsStuck(Reply(m))
    ensures ShouldStop([m, m, m]) == Ok(true)
  {
    var hs := [m, m, m];
    assert LastThree(hs) == hs;
    assert forall i :: 0 <= i < |hs| ==> hs[i] == m;
    EveryReplyStuckStops(hs);
  }

  /** When every entry among the last three is readable and every agent reply
      among them sounds stuck, `should_stop` answers yes. */
  lemma EveryReplyStuckStops(h: seq<Message>)
    requires var t := LastThree(h);
      forall i :: 0 <= i < |t| ==> Readable(t[i]) && (IsAgentReply(t[i]) ==> SoundsStuck(Reply(t[i])))
    ensures ShouldStop(h) == Ok(true)
  {
    ShouldStopMeaning(h);
  }

  // ------------------------------------------------------------------
  // The message that ends a stuck chat
  // ------------------------------------------------------------------

  /** What the organisation agent is made to say when it is stuck. */
  const OrgStallText: string := "Ending the chat as " + "no relevant answer " + "can be provided."

  /** What the personal-notes agent is made to say when it is stuck. The
      source's two literals meet without a space: "helpfulanswer". */
  const PersonalStallText: string := "Ending the chat as " + "no helpful" + "answer can be provided."

  /** The entry appended when `should_stop` answers yes, attributed to the
      agent of the branch taken. */
  function StallMessage(org: bool): Message {
    if org then Message(Some(GraphAgentName), Some(OrgStallText))
    else Message(Some(TextAgentName), Some(PersonalStallText))
  }

  /** The history after the stall check: one stall message more at the end
      when the agent sounded stuck, untouched otherwise. */
  function WithStall(h: seq<Message>, stop: bool, org: bool): (r: seq<Message>)
    ensures stop ==> |r| == |h| + 1 && r[..|h|] == h && r[|h|] == StallMessage(org)
    ensures !stop ==> r == h
  {
    if stop then h + [StallMessage(org)] else h
  }

  /** The stall message is attributed to the agent of its branch, and is a
      readable agent reply. */
  lemma StallMessageIsAgentReply(org: bool)
    ensures Readable(StallMessage(org)) && IsAgentReply(StallMessage(org))
    ensures StallMessage(org).role == Some(if org then GraphAgentName else TextAgentName)
  {
  }

  /** A text with no whitespace at either end whose middle piece starts with
      one of `ps` (in any case) holds that phrase once stripped and
      lower-cased. */
  lemma FoundInMiddle(a: string, b: string, c: string, ps: seq<string>, k: nat)
    requires k < |ps| && |ps[k]| <= |b| && Lower(b)[..|ps[k]|] == ps[k]
    requires a != [] && !IsSpace(a[0]) && c != [] && !IsSpace(c[|c| - 1])
    ensures AnyIn(ps, Lower(Strip(a + b + c)))
  {
    var text := a + b + c;
    assert text[0] == a[0] && text[|text| - 1] == c[|c| - 1];
    StripKeeps(text);
    LowerAppend(a + b, c);
    LowerAppend(a, b);
    var reply := Lower(text);
    assert reply[|a|..|a| + |ps[k]|] == Lower(b)[..|ps[k]|];
    ContainsAt(reply, ps[k], |a|);
  }

  /** The organisation stall message holds "no relevant answer" and so itself
      sounds stuck: a history ending in it stops again. */
  lemma OrgStallSoundsStuck()
    ensures SoundsStuck(Reply(StallMessage(true)))
  {
    var a, b, c := "Ending the chat as ", "no relevant answer ", "can be provided.";
    assert Lower(b) == b;
    assert b[..18] == Config.TerminationPhrases[5];
    FoundInMiddle(a, b, c, Config.TerminationPhrases, 5);
  }

  // ------------------------------------------------------------------
  // History sanitiser
  // ------------------------------------------------------------------

  /** What gives away injected reference material in a message. */
  const LeakMarkers: seq<string> := ["```mermaid", "# personal", "based on the following", "use the following"]

  /** The lower-cased content (empty when there is none) holds a marker. */
  predicate Leaks(m: Message) {
    AnyIn(LeakMarkers, Lower(m.content.GetOr("")))
  }

  /** `a` is `b` with some entries left out, the rest in their order. */
  predicate IsSubsequence<T(==)>(a: seq<T>, b: seq<T>)
    decreases |b|
  {
    || a == []
    || (b != [] && ((a[0] == b[0] && IsSubsequence(a[1..], b[1..])) || IsSubsequence(a, b[1..])))
  }

  /** The filtered history `generate_response` returns: every entry that
      does not leak, in order. */
  function Sanitise(h: seq<Message>): (kept: seq<Message>)
    ensures |kept| <= |h|
    ensures forall i :: 0 <= i < |kept| ==> !Leaks(kept[i])
  {
    if h == [] then []
    else (if Leaks(h[0]) then [] else [h[0]]) + Sanitise(h[1..])
  }

  /** The kept entries are the history's own, in their order. */
  lemma {:induction false} SanitiseIsSubsequence(h: seq<Message>)
    ensures IsSubsequence(Sanitise(h), h)
  {
    if h != [] {
      SanitiseIsSubsequence(h[1..]);
      if Leaks(h[0]) {
        assert Sanitise(h) == Sanitise(h[1..]);
      } else {
        assert Sanitise(h) == [h[0]] + Sanitise(h[1..]);
        assert Sanitise(h)[0] == h[0] && Sanitise(h)[1..] == Sanitise(h[1..]);
      }
    }
  }

  /** Each message is kept as often as it occurs exactly when it does not
      leak, and never otherwise. */
  lemma {:induction false} SanitiseCounts(h: seq<Message>, m: Message)
    ensures multiset(Sanitise(h))[m] == if Leaks(m) then 0 else multiset(h)[m]
  {
    if h != [] {
      SanitiseCounts(h[1..], m);
      assert h == [h[0]] + h[1..];
    }
  }

  /** Filtering two histories one after the other is filtering their concatenation. */
  lemma {:induction false} SanitiseAppend(a: seq<Message>, b: seq<Message>)
    ensures Sanitise(a + b) == Sanitise(a) + Sanitise(b)
  {
    if a != [] {
      assert (a + b)[1..] == a[1..] + b;
      SanitiseAppend(a[1..], b);
    } else {
      assert a + b == b;
    }
  }

  /** A history without leaks passes unchanged; in particular filtering twice
      is filtering once. */
  lemma {:induction false} SanitiseKeepsClean(h: seq<Message>)
    requires forall i :: 0 <= i < |h| ==> !Leaks(h[i])
    ensures Sanitise(h) == h
  {
    if h != [] {
      SanitiseKeepsClean(h[1..]);
    }
  }

  /** Filtering is idempotent. */
  lemma SanitiseIdempotent(h: seq<Message>)
    ensures Sanitise(Sanitise(h)) == Sanitise(h)
  {
    SanitiseKeepsClean(Sanitise(h));
  }

  /** A message without content reads as "" and holds no marker, so it stays. */
  lemma NoContentIsKept(role: Option<string>)
    ensures !Leaks(Message(role, None))
  {
    forall k | 0 <= k < |LeakMarkers| ensures !Contains(Lower(""), LeakMarkers[k]) {
      assert LeakMarkers[k] != [];
    }
  }

  /** A content without backticks, without `#` and without a double `l`
      holds no marker. */
  lemma KeptByMissingLetters(m: Message)
    requires var text := Lower(m.content.GetOr(""));
      Avoids(text, '`') && Avoids(text, '#') && AvoidsPair(text, 'l', 'l')
    ensures !Leaks(m)
  {
    var text := Lower(m.content.GetOr(""));
    forall k | 0 <= k < |LeakMarkers| ensures !Contains(text, LeakMarkers[k]) {
      var w := LeakMarkers[k];
      if k == 0 {
        assert w[0] == '`';
        NotContainedAvoiding(text, w, 0);
      } else if k == 1 {
        assert w[0] == '#';
        NotContainedAvoiding(text, w, 0);
      } else if k == 2 {
        assert w[15] == 'l' && w[16] == 'l';
        NotContainedAvoidingPair(text, w, 15);
      } else {
        assert w[10] == 'l' && w[11] == 'l';
        NotContainedAvoidingPair(text, w, 10);
      }
    }
  }

  /** A piece of text free of what makes a marker. */
  predicate MarkerFree(s: string) {
    Avoids(s, '`') && Avoids(s, '#') && AvoidsPair(s, 'l', 'l')
  }

  /** Lower-casing adds no backtick and no `#`, and makes an `l` only of an
      `l` or an `L`. */
  lemma LowerMarkerFree(s: string)
    requires MarkerFree(s) && Avoids(s, 'L')
    ensures MarkerFree(Lower(s))
  {
    forall j | 0 <= j < |s| - 1 ensures !(Lower(s)[j] == 'l' && Lower(s)[j + 1] == 'l') {
      assert Lower(s)[j] == LowerChar(s[j]) && Lower(s)[j + 1] == LowerChar(s[j + 1]);
    }
  }

  /** Two marker-free pieces without a capital `L`, not meeting on a double
      `l`, make one. */
  lemma MarkerFreeAppend(a: string, b: string)
    requires MarkerFree(a) && Avoids(a, 'L') && MarkerFree(b) && Avoids(b, 'L')
    requires a != [] && b != [] ==> !(a[|a| - 1] == 'l' && b[0] == 'l')
    ensures MarkerFree(a + b) && Avoids(a + b, 'L')
  {
    AvoidsAppend(a, b, '`');
    AvoidsAppend(a, b, '#');
    AvoidsAppend(a, b, 'L');
    AvoidsPairAppend(a, b, 'l', 'l');
  }

  /** The organisation stall text holds no marker letter and no capital `L`. */
  lemma OrgStallTextLetters()
    ensures MarkerFree(OrgStallText) && Avoids(OrgStallText, 'L')
  {
    var p1, p2, p3 := "Ending the chat as ", "no relevant answer ", "can be provided.";
    assert MarkerFree(p1) && Avoids(p1, 'L');
    assert MarkerFree(p2) && Avoids(p2, 'L');
    assert MarkerFree(p3) && Avoids(p3, 'L');
    MarkerFreeAppend(p1, p2);
    MarkerFreeAppend(p1 + p2, p3);
  }

  /** The personal stall text holds no marker letter and no capital `L`. */
  lemma PersonalStallTextLetters()
    ensures MarkerFree(PersonalStallText) && Avoids(PersonalStallText, 'L')
  {
    var p1, p2, p3 := "Ending the chat as ", "no helpful", "answer can be provided.";
    assert MarkerFree(p1) && Avoids(p1, 'L');
    assert MarkerFree(p2) && Avoids(p2, 'L');
    assert MarkerFree(p3) && Avoids(p3, 'L');
    MarkerFreeAppend(p1, p2);
    MarkerFreeAppend(p1 + p2, p3);
  }

  /** Neither stall message holds a marker, so the filter always lets it
      through. */
  lemma StallMessageIsKept(org: bool)
    ensures !Leaks(StallMessage(org))
  {
    var text := StallMessage(org).content.value;
    if org {
      OrgStallTextLetters();
    } else {
      PersonalStallTextLetters();
    }
    LowerMarkerFree(text);
    KeptByMissingLetters(StallMessage(org));
  }

  // ------------------------------------------------------------------
  // Avatars and streaming
  // ------------------------------------------------------------------

  /** The brain emoji shown for the system prompt. */
  const Brain: string := "\U{1F9E0}"
  /** The office-worker emoji (woman, zero-width joiner, briefcase) shown for
      the user and for both agents. */
  const OfficeWorker: string := "\U{1F469}\U{200D}\U{1F4BC}"

  /** The roles `_get_avatar` knows. */
  predicate KnownRole(role: string) {
    role == "user_proxy" || role == "user" || IsAgentRole(role)
  }

  /** The exception reading the undefined `Config.USER_IMAGE` raises. */
  const NoUserImage: Error := AttributeError("USER_IMAGE")

  /** `ChatManager._get_avatar`. Any other role reads `Config.USER_IMAGE`,
      which `Config` does not define: an `AttributeError`. */
  function GetAvatar(role: string): (r: Result<string, Error>)
    ensures r.Ok? <==> KnownRole(role)
    ensures r.Ok? ==> r.value == (if role == "user_proxy" then Brain else OfficeWorker)
    ensures r.Err? ==> r.error == NoUserImage
  {
    if role == "user_proxy" then Ok(Brain)
    else if role == "user" then Ok(OfficeWorker)
    else if role == TextAgentName || role == GraphAgentName then Ok(OfficeWorker)
    else Err(NoUserImage)
  }

  /** The pieces `ChatManager.stream_response` yields: each word of
      `text.split()` with a space after it (the pause between pieces is not
      modelled). */
  function StreamResponse(text: string): (chunks: seq<string>)
    ensures |chunks| == |Split(text)|
  {
    EachFollowedBy(Split(text), " ")
  }

  /** Words without whitespace, each followed by a space, split back into
      the same words. */
  lemma {:induction false} SplitSpaced(words: seq<string>)
    requires forall k :: 0 <= k < |words| ==> words[k] != [] && NoSpace(words[k])
    ensures Split(Concat(EachFollowedBy(words, " "))) == words
  {
    if words != [] {
      var w, rest := words[0], words[1..];
      assert Split(Concat(EachFollowedBy(rest, " "))) == rest by {
        assert forall k :: 0 <= k < |rest| ==> rest[k] == words[k + 1];
        SplitSpaced(rest);
      }
      var tail := Concat(EachFollowedBy(rest, " "));
      assert Concat(EachFollowedBy(words, " ")) == w + [' '] + tail by {
        var chunks := EachFollowedBy(words, " ");
        assert chunks[0] == w + " " && chunks[1..] == EachFollowedBy(rest, " ");
      }
      assert Split(w + [' '] + tail) == [w] + rest by {
        SplitAtSpace(w, ' ', tail);
        SplitWord(w);
      }
    }
  }

  /** What the stream adds up to holds the reply's words, in order: only the
      whitespace between them changes. */
  lemma StreamKeepsWords(text: string)
    ensures Split(Concat(StreamResponse(text))) == Split(text)
    ensures forall i :: 0 <= i < |Split(text)| ==> StreamResponse(text)[i] == Split(text)[i] + " "
  {
    SplitSpaced(Split(text));
    forall i | 0 <= i < |Split(text)| ensures StreamResponse(text)[i] == Split(text)[i] + " " {
      EachFollowedByAt(Split(text), " ", i);
    }
  }

  // ------------------------------------------------------------------
  // What `show_chat_history` records
  // ------------------------------------------------------------------

  /** One item of `rag_messages`. */
  datatype StoredMessage = StoredMessage(role: string, content: string, avatar: string)

  /** What a pass of `show_chat_history` over a history leaves behind: the
      items it appended and the exception that ended it early, if any. */
  datatype Recording = Recording(stored: seq<StoredMessage>, error: Option<Error>)

  /** `entry.get("role", "assistant")`. */
  function EntryRole(m: Message): string {
    m.role.GetOr("assistant")
  }

  /** `entry.get("content", "").strip()`. */
  function EntryText(m: Message): string {
    Strip(m.content.GetOr(""))
  }

  /** The entry is skipped: its content is nothing but whitespace, so
      `EntryText` is empty (see `Strip`). */
  predicate IsBlank(m: Message) {
    AllSpace(m.content.GetOr(""))
  }

  /** The entry is skipped or its role has an avatar. */
  predicate Displayable(m: Message) {
    IsBlank(m) || KnownRole(EntryRole(m))
  }

  /** The item recorded for a displayable, non-blank entry. */
  function Stored(m: Message): StoredMessage
    requires !IsBlank(m) && KnownRole(EntryRole(m))
  {
    StoredMessage(EntryRole(m), EntryText(m), GetAvatar(EntryRole(m)).value)
  }

  /** The loop of `show_chat_history`, entry by entry: blank entries are
      skipped, the others recorded with their avatar, and the first entry
      whose role has no avatar raises. */
  function Record(h: seq<Message>): (rec: Recording)
    ensures |rec.stored| <= |h|
    decreases |h|
  {
    if h == [] then Recording([], None)
    else
      var prev := Record(h[..|h| - 1]);
      var m := h[|h| - 1];
      if prev.error.Some? || IsBlank(m) then prev
      else match GetAvatar(EntryRole(m))
        case Err(e) => Recording(prev.stored, Some(e))
        case Ok(avatar) => Recording(prev.stored + [StoredMessage(EntryRole(m), EntryText(m), avatar)], None)
  }

  /** The non-blank entries whose role has an avatar, recorded, in order. */
  function Kept(h: seq<Message>): seq<StoredMessage> {
    if h == [] then []
    else
      var m := h[|h| - 1];
      Kept(h[..|h| - 1]) + (if IsBlank(m) || !KnownRole(EntryRole(m)) then [] else [Stored(m)])
  }

  /** The number of non-blank entries. */
  function NonBlankCount(h: seq<Message>): nat {
    if h == [] then 0 else NonBlankCount(h[..|h| - 1]) + (if IsBlank(h[|h| - 1]) then 0 else 1)
  }

  /** A displayable history is recorded in full: every non-blank entry, in
      order, with its role, its stripped content and its avatar. */
  lemma {:induction false} RecordDisplayable(h: seq<Message>)
    requires forall i :: 0 <= i < |h| ==> Displayable(h[i])
    ensures Record(h) == Recording(Kept(h), None)
    decreases |h|
  {
    if h != [] {
      var init := h[..|h| - 1];
      forall i | 0 <= i < |init| ensures Displayable(init[i]) {
        assert init[i] == h[i];
      }
      RecordDisplayable(init);
      assert Displayable(h[|h| - 1]);
    }
  }

  /** Once a pass has raised, the entries after it change nothing. */
  lemma {:induction false} RecordErrorSticks(h: seq<Message>, n: nat, r: Recording)
    requires n <= |h| && Record(h[..n]) == r && r.error.Some?
    ensures Record(h) == r
    decreases |h|
  {
    if n < |h| {
      var init := h[..|h| - 1];
      assert init[..n] == h[..n];
      RecordErrorSticks(init, n, r);
    } else {
      assert h[..n] == h;
    }
  }

  /** The first non-blank entry whose role has no avatar ends the pass with
      `AttributeError`, after the entries before it were recorded. */
  lemma RecordStopsAt(h: seq<Message>, i: nat)
    requires i < |h| && !Displayable(h[i])
    requires forall k :: 0 <= k < i ==> Displayable(h[k])
    ensures Record(h) == Recording(Kept(h[..i]), Some(NoUserImage))
  {
    var pre := h[..i];
    assert Record(pre) == Recording(Kept(pre), None) by {
      forall k | 0 <= k < i ensures Displayable(pre[k]) {
        assert pre[k] == h[k];
      }
      RecordDisplayable(pre);
    }
    RecordStopsAfter(h, i, Kept(pre));
  }

  /** What one displayable entry adds: nothing when it is blank, its item otherwise. */
  function Shown(m: Message): (items: seq<StoredMessage>)
    requires Displayable(m)
    ensures |items| == if IsBlank(m) then 0 else 1
  {
    if IsBlank(m) then [] else [Stored(m)]
  }

  /** A clean pass meeting a displayable entry adds what the entry shows and stays clean. */
  lemma RecordStep(h: seq<Message>, i: nat)
    requires i < |h| && Displayable(h[i]) && Record(h[..i]).error.None?
    ensures Record(h[..i + 1]) == Recording(Record(h[..i]).stored + Shown(h[i]), None)
  {
    assert h[..i + 1][..i] == h[..i];
  }

  /** A clean pass up to an entry it cannot display raises there and then stops. */
  lemma {:induction false} RecordStopsAfter(h: seq<Message>, i: nat, done: seq<StoredMessage>)
    requires i < |h| && !Displayable(h[i]) && Record(h[..i]) == Recording(done, None)
    ensures Record(h) == Recording(done, Some(NoUserImage))
    decreases |h|
  {
    var init := h[..|h| - 1];
    if |h| == i + 1 {
      assert init == h[..i];
    } else {
      assert init[..i] == h[..i] && init[i] == h[i];
      RecordStopsAfter(init, i, done);
    }
  }

  /** A pass raises exactly when some non-blank entry has a role without an
      avatar. */
  lemma RecordFails(h: seq<Message>)
    ensures Record(h).error.Some? <==> exists i :: 0 <= i < |h| && !Displayable(h[i])
  {
    if exists i :: 0 <= i < |h| && !Displayable(h[i]) {
      var i := FirstUndisplayable(h);
      RecordStopsAt(h, i);
    } else {
      RecordDisplayable(h);
    }
  }

  /** The first entry that cannot be displayed. */
  function FirstUndisplayable(h: seq<Message>): (i: nat)
    requires exists i :: 0 <= i < |h| && !Displayable(h[i])
    ensures i < |h| && !Displayable(h[i])
    ensures forall k :: 0 <= k < i ==> Displayable(h[k])
  {
    if !Displayable(h[0]) then 0
    else
      var j := FirstUndisplayable(h[1..]);
      assert forall k :: 1 <= k < j + 1 ==> h[k] == h[1..][k - 1];
      j + 1
  }

  /** Every non-blank entry of a displayable history adds exactly one item. */
  lemma {:induction false} KeptCount(h: seq<Message>)
    requires forall i :: 0 <= i < |h| ==> Displayable(h[i])
    ensures |Kept(h)| == NonBlankCount(h)
    decreases |h|
  {
    if h != [] {
      var init := h[..|h| - 1];
      forall i | 0 <= i < |init| ensures Displayable(init[i]) {
        assert init[i] == h[i];
      }
      KeptCount(init);
      assert Displayable(h[|h| - 1]);
    }
  }

  /** A pass over a prefix records a prefix of what the whole pass records. */
  lemma {:induction false} RecordPrefix(h: seq<Message>, n: nat)
    requires n <= |h|
    ensures var short, full := Record(h[..n]).stored, Record(h).stored;
      |short| <= |full| && full[..|short|] == short
    decreases |h|
  {
    if n < |h| {
      var init := h[..|h| - 1];
      assert init[..n] == h[..n];
      RecordPrefix(init, n);
    } else {
      assert h[..n] == h;
    }
  }

  /** An entry without a role is shown as "assistant", which has no avatar:
      unless blank, it ends the pass. */
  lemma RoleLessEntryFails(m: Message)
    requires m.role.None? && !IsBlank(m)
    ensures !Displayable(m)
  {
  }
}
