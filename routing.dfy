/** The first half of `ChatManager.generate_response`: deciding which agent
    a prompt goes to and assembling the prompt that agent receives. */
module Routing {
  import opened PyStr
  import opened Mermaid
  import opened ChatTypes
  import Config

  // ------------------------------------------------------------------
  // Classifier
  // ------------------------------------------------------------------

  /** `any(keyword in prompt.lower() for keyword in Config.ORG_KEYWORDS)`. */
  function IsOrgRelated(prompt: string): (r: bool)
    ensures r <==> exists k :: 0 <= k < |Config.OrgKeywords| && Contains(Lower(prompt), Config.OrgKeywords[k])
  {
    AnyIn(Config.OrgKeywords, Lower(prompt))
  }

  /** No keyword fits in an empty prompt, so it goes to the personal notes. */
  lemma EmptyPromptIsPersonal()
    ensures !IsOrgRelated("")
  {
    assert Lower("") == [];
    NoneInEmpty(Config.OrgKeywords);
  }

  /** Upper and lower case do not change the route. */
  lemma ClassifierIgnoresCase(prompt: string)
    ensures IsOrgRelated(Lower(prompt)) == IsOrgRelated(prompt)
  {
    LowerIdempotent(prompt);
  }

  /** Text around an organisation prompt keeps it an organisation prompt. */
  lemma ClassifierKeepsOrgInContext(before: string, prompt: string, after: string)
    requires IsOrgRelated(prompt)
    ensures IsOrgRelated(before + prompt + after)
  {
    var k :| 0 <= k < |Config.OrgKeywords| && Contains(Lower(prompt), Config.OrgKeywords[k]);
    LowerAppend(before + prompt, after);
    LowerAppend(before, prompt);
    ContainsWithin(Lower(before), Lower(prompt), Lower(after), Config.OrgKeywords[k]);
  }

  /** A keyword found in the lower-cased prompt sends it to the organisation agent. */
  lemma OrgByKeywordAt(prompt: string, k: nat, i: nat)
    requires k < |Config.OrgKeywords|
    requires i + |Config.OrgKeywords[k]| <= |prompt|
    requires Lower(prompt)[i..i + |Config.OrgKeywords[k]|] == Config.OrgKeywords[k]
    ensures IsOrgRelated(prompt)
  {
    ContainsAt(Lower(prompt), Config.OrgKeywords[k], i);
  }

  /** Every keyword has an `r`, an `l` or an `e` followed by `a`, so a prompt
      without any of them goes to the personal notes. */
  lemma PersonalByMissingLetters(prompt: string)
    requires Avoids(Lower(prompt), 'r') && Avoids(Lower(prompt), 'l')
    requires AvoidsPair(Lower(prompt), 'e', 'a')
    ensures !IsOrgRelated(prompt)
  {
    var s := Lower(prompt);
    forall k | 0 <= k < |Config.OrgKeywords| ensures !Contains(s, Config.OrgKeywords[k]) {
      var w := Config.OrgKeywords[k];
      if k == 3 {
        NotContainedAvoidingPair(s, w, 1);
      } else if k == 5 {
        NotContainedAvoiding(s, w, 0);
      } else {
        // Every other keyword has an `r`.
        if k == 0 { assert w[1] == 'r'; NotContainedAvoiding(s, w, 1); }
        else if k == 1 { assert w[1] == 'r'; NotContainedAvoiding(s, w, 1); }
        else if k == 2 { assert w[2] == 'r'; NotContainedAvoiding(s, w, 2); }
        else if k == 4 { assert w[6] == 'r'; NotContainedAvoiding(s, w, 6); }
        else if k == 6 { assert w[0] == 'r'; NotContainedAvoiding(s, w, 0); }
        else if k == 7 { assert w[4] == 'r'; NotContainedAvoiding(s, w, 4); }
        else { assert w[3] == 'r'; NotContainedAvoiding(s, w, 3); }
      }
    }
  }

  /** A prompt whose second piece opens with keyword `k` is an organisation prompt. */
  lemma OrgByLeadingKeyword(a: string, b: string, k: nat)
    requires k < |Config.OrgKeywords| && |Config.OrgKeywords[k]| <= |b|
    requires Lower(b)[..|Config.OrgKeywords[k]|] == Config.OrgKeywords[k]
    ensures IsOrgRelated(a + b)
  {
    var n := |Config.OrgKeywords[k]|;
    LowerAppend(a, b);
    assert Lower(a + b)[|a|..|a| + n] == Lower(b)[..n];
    OrgByKeywordAt(a + b, k, |a|);
  }

  /** The second piece of the manager question opens with "manager". */
  lemma ManagerPiece()
    ensures Lower("manager report to?")[..7] == Config.OrgKeywords[4]
  {
    assert Lower("manager report to?")[..7] == "manager";
  }

  /** "Who does the engineering manager report to?" goes to the organisation agent. */
  lemma ManagerQuestionIsOrg()
    ensures IsOrgRelated("Who does the engineering manager report to?")
  {
    var a, b := "Who does the engineering ", "manager report to?";
    ManagerPiece();
    ManagerQuestionPieces();
    OrgByLeadingKeyword(a, b, 4);
  }

  lemma ManagerQuestionPieces()
    ensures "Who does the engineering " + "manager report to?" == "Who does the engineering manager report to?"
  {
  }

  /** A prompt made of two pieces, each free of the letters every keyword needs, is personal. */
  lemma PersonalByPieces(a: string, b: string)
    requires Avoids(Lower(a), 'r') && Avoids(Lower(a), 'l') && AvoidsPair(Lower(a), 'e', 'a')
    requires Avoids(Lower(b), 'r') && Avoids(Lower(b), 'l') && AvoidsPair(Lower(b), 'e', 'a')
    requires a != [] && b != [] ==> !(Lower(a)[|a| - 1] == 'e' && Lower(b)[0] == 'a')
    ensures !IsOrgRelated(a + b)
  {
    LowerAppend(a, b);
    AvoidsAppend(Lower(a), Lower(b), 'r');
    AvoidsAppend(Lower(a), Lower(b), 'l');
    AvoidsPairAppend(Lower(a), Lower(b), 'e', 'a');
    PersonalByMissingLetters(a + b);
  }

  /** The first piece of the meeting question holds no `r`, `l` or "ea",
      and ends with a space. */
  lemma MeetingQuestionHead()
    ensures var a := Lower("What did I note ");
      Avoids(a, 'r') && Avoids(a, 'l') && AvoidsPair(a, 'e', 'a') && a[15] == ' '
  {
    MeetingQuestionHeadLower();
    var a := "what did i note ";
    assert Avoids(a, 'r') && Avoids(a, 'l') && AvoidsPair(a, 'e', 'a') && a[15] == ' ';
  }

  lemma MeetingQuestionHeadLower()
    ensures Lower("What did I note ") == "what did i note "
  {
  }

  /** The second piece of the meeting question holds no `r`, `l` or "ea". */
  lemma MeetingQuestionTail()
    ensures var b := Lower("about today's meeting?");
      Avoids(b, 'r') && Avoids(b, 'l') && AvoidsPair(b, 'e', 'a')
  {
    assert Lower("about today's meeting?") == "about today's meeting?";
  }

  /** "What did I note about today's meeting?" goes to the personal notes. */
  lemma MeetingQuestionIsPersonal()
    ensures !IsOrgRelated("What did I note about today's meeting?")
  {
    var a, b := "What did I note ", "about today's meeting?";
    MeetingQuestionHead();
    MeetingQuestionTail();
    MeetingQuestionJoins();
    PersonalByPieces(a, b);
  }

  lemma MeetingQuestionJoins()
    ensures "What did I note " + "about today's meeting?" == "What did I note about today's meeting?"
  {
  }

  // ------------------------------------------------------------------
  // Prompt assembly
  // ------------------------------------------------------------------

  /** The instructions heading an organisation prompt. The source's adjacent
      string literals are glued without spaces, and so are these. */
  const OrgPreamble: string :=
    "Based on the following " + "organization charts,"
    + "answer the user's question."
    + "Only use this information " + "to determine reporting lines,"
    + "structure, or team relationships."
    + "Do not include any " + "Mermaid diagrams or"
    + "raw reference material " + "in your response:\n\n"

  /** The instructions heading a personal-notes prompt. */
  const PersonalPreamble: string :=
    "Use the following " + "personal notes to"
    + "answer the user's question."
    + "Do not include any " + "raw personal notes"
    + "or reference material " + "in your response:\n\n"

  /** What separates the reference material from the user's question. */
  const QuestionLead: string := "\n\nUser's question: "

  /** The diagrams of every organisation document, document by document and
      in the order each document holds them (`mermaid_blocks += ...`). */
  function OrgBlocks(org: seq<Doc>): seq<string> {
    if org == [] then []
    else OrgBlocks(org[..|org| - 1]) + ExtractMermaidBlocks(org[|org| - 1].content)
  }

  /** The organisation prompt: the diagrams, each back in its fence, joined
      by blank lines between the preamble and the question. */
  function OrgPrompt(blocks: seq<string>, prompt: string): string {
    OrgPreamble + Join("\n\n", Rewrapped(blocks)) + QuestionLead + prompt
  }

  /** One personal note under its `# fname` heading. */
  function Headed(note: Doc): string {
    "# " + note.name + "\n" + note.content
  }

  /** Every note under its heading, in order. */
  function HeadedNotes(notes: seq<Doc>): (entries: seq<string>)
    ensures |entries| == |notes|
    ensures forall j :: 0 <= j < |notes| ==> entries[j] == Headed(notes[j])
  {
    if notes == [] then [] else [Headed(notes[0])] + HeadedNotes(notes[1..])
  }

  /** The personal prompt: the headed notes joined by blank lines between the
      preamble and the question. */
  function PersonalPrompt(notes: seq<Doc>, prompt: string): string {
    PersonalPreamble + Join("\n\n", HeadedNotes(notes)) + QuestionLead + prompt
  }

  /** Adding a document adds its diagrams after the earlier ones. */
  lemma {:induction false} OrgBlocksAppend(org: seq<Doc>, more: seq<Doc>)
    ensures OrgBlocks(org + more) == OrgBlocks(org) + OrgBlocks(more)
    decreases |more|
  {
    if more == [] {
      assert org + more == org;
    } else {
      var init, last := more[..|more| - 1], more[|more| - 1];
      var x := ExtractMermaidBlocks(last.content);
      calc {
        OrgBlocks(org + more);
        { assert org + more == (org + init) + [last]; }
        OrgBlocks((org + init) + [last]);
        { OrgBlocksSnoc(org + init, last); }
        OrgBlocks(org + init) + x;
        { OrgBlocksAppend(org, init); }
        OrgBlocks(org) + OrgBlocks(init) + x;
        { assert more == init + [last]; OrgBlocksSnoc(init, last); }
        OrgBlocks(org) + OrgBlocks(more);
      }
    }
  }

  /** One more document adds its own diagrams at the end. */
  lemma OrgBlocksSnoc(org: seq<Doc>, doc: Doc)
    ensures OrgBlocks(org + [doc]) == OrgBlocks(org) + ExtractMermaidBlocks(doc.content)
  {
    assert (org + [doc])[..|org|] == org;
  }

  /** No collected diagram holds a fence, so each can be fenced again safely. */
  lemma {:induction false} OrgBlocksAreFenceFree(org: seq<Doc>)
    ensures FenceFree(OrgBlocks(org))
    decreases |org|
  {
    if org != [] {
      var init := org[..|org| - 1];
      OrgBlocksAreFenceFree(init);
      var a, x := OrgBlocks(init), ExtractMermaidBlocks(org[|org| - 1].content);
      assert OrgBlocks(org) == a + x;
      forall j | 0 <= j < |a + x| ensures !Contains((a + x)[j], Fence) {
        if j >= |a| {
          assert (a + x)[j] == x[j - |a|];
        }
      }
    }
  }

  /** Neither the preamble nor the question lead holds a backtick. */
  lemma OrgTextHasNoBacktick()
    ensures Avoids(OrgPreamble, '`') && Avoids(QuestionLead, '`')
  {
    var p1, p2, p3 := "Based on the following ", "organization charts,", "answer the user's question.";
    var p4, p5, p6 := "Only use this information ", "to determine reporting lines,", "structure, or team relationships.";
    var p7, p8, p9, p10 := "Do not include any ", "Mermaid diagrams or", "raw reference material ", "in your response:\n\n";
    AvoidsAppend(p1, p2, '`');
    AvoidsAppend(p1 + p2, p3, '`');
    AvoidsAppend(p1 + p2 + p3, p4, '`');
    AvoidsAppend(p1 + p2 + p3 + p4, p5, '`');
    AvoidsAppend(p1 + p2 + p3 + p4 + p5, p6, '`');
    AvoidsAppend(p1 + p2 + p3 + p4 + p5 + p6, p7, '`');
    AvoidsAppend(p1 + p2 + p3 + p4 + p5 + p6 + p7, p8, '`');
    AvoidsAppend(p1 + p2 + p3 + p4 + p5 + p6 + p7 + p8, p9, '`');
    AvoidsAppend(p1 + p2 + p3 + p4 + p5 + p6 + p7 + p8 + p9, p10, '`');
  }

  /** Scanning the organisation prompt for diagrams finds the diagrams it was
      built from, each with the newline its fence adds, and then whatever the
      user's question itself holds. */
  lemma OrgPromptRoundTrip(blocks: seq<string>, prompt: string)
    requires FenceFree(blocks)
    ensures ExtractMermaidBlocks(OrgPrompt(blocks, prompt))
            == EachFollowedBy(blocks, "\n") + ExtractMermaidBlocks(prompt)
  {
    OrgTextHasNoBacktick();
    ExtractAroundJoinedFences(OrgPreamble, blocks, QuestionLead, prompt);
  }

  /** In `s`, which holds `n` characters and then the blank-line-joined
      `items` followed by `tail`, item `j` sits at its offset; a blank line
      follows it when another item does, and `tail` follows the last one. */
  predicate ItemLaidOut(s: string, n: nat, items: seq<string>, tail: string, j: nat)
    requires j < |items|
  {
    var o := n + JoinOffset("\n\n", items, j);
    var e := o + |items[j]|;
    && e <= |s| && s[o..e] == items[j]
    && (j + 1 < |items| ==>
          && n + JoinOffset("\n\n", items, j + 1) == e + 2
          && e + 2 <= |s| && s[e..e + 2] == "\n\n")
    && (j + 1 == |items| ==> s[e..] == tail)
  }

  lemma FramedJoinLayout(pre: string, items: seq<string>, lead: string, q: string, j: nat)
    requires j < |items|
    ensures ItemLaidOut(pre + Join("\n\n", items) + lead + q, |pre|, items, lead + q, j)
  {
    var joined := Join("\n\n", items);
    JoinLaidOut(items, j);
    JoinedLayout(pre, joined, lead + q, items, j);
    assert pre + joined + lead + q == pre + joined + (lead + q);
  }

  /** `JoinLayout` for blank-line joins, as an `ItemLaidOut` with nothing around. */
  lemma JoinLaidOut(items: seq<string>, j: nat)
    requires j < |items|
    ensures ItemLaidOut(Join("\n\n", items), 0, items, [], j)
  {
    var joined, sep := Join("\n\n", items), "\n\n";
    JoinLayout(sep, items, j);
    var o := JoinOffset(sep, items, j);
    var e := o + |items[j]|;
    assert e <= |joined| && joined[o..e] == items[j];
    if j + 1 < |items| {
      assert JoinOffset(sep, items, j + 1) == e + 2 && e + 2 <= |joined| && joined[e..e + 2] == sep;
    } else {
      assert e == |joined|;
      assert joined[e..] == [];
    }
  }

  /** Framing a layout by `pre` and `post` moves it by `|pre|`. */
  lemma JoinedLayout(pre: string, joined: string, post: string, items: seq<string>, j: nat)
    requires j < |items| && ItemLaidOut(joined, 0, items, [], j)
    ensures ItemLaidOut(pre + joined + post, |pre|, items, post, j)
  {
    var body := pre + joined;
    var o := JoinOffset("\n\n", items, j);
    var e := o + |items[j]|;
    assert (body + post)[|pre| + o..|pre| + e] == items[j] by {
      WindowAfter(pre, joined, o, e);
      WindowBefore(body, post, |pre| + o, |pre| + e);
    }
    if j + 1 < |items| {
      assert (body + post)[|pre| + e..|pre| + e + 2] == "\n\n" by {
        WindowAfter(pre, joined, e, e + 2);
        WindowBefore(body, post, |pre| + e, |pre| + e + 2);
      }
    } else {
      assert e == |joined|;
      assert (body + post)[|body|..] == post;
    }
  }

  /** `Rewrapped` fences each block where it stands. */
  lemma {:induction false} RewrappedAt(blocks: seq<string>, j: nat)
    requires j < |blocks|
    ensures Rewrapped(blocks)[j] == Fenced(blocks[j])
  {
    if j > 0 {
      RewrappedAt(blocks[1..], j - 1);
    }
  }

  /** Every diagram appears in the organisation prompt in its own fence, in
      order, a blank line between neighbours, and the question lead and the
      question right after the last one. */
  lemma OrgPromptLayout(blocks: seq<string>, prompt: string, j: nat)
    requires j < |blocks|
    ensures ItemLaidOut(OrgPrompt(blocks, prompt), |OrgPreamble|, Rewrapped(blocks), QuestionLead + prompt, j)
    ensures Rewrapped(blocks)[j] == Opener + blocks[j] + "\n" + Fence
  {
    RewrappedAt(blocks, j);
    FramedJoinLayout(OrgPreamble, Rewrapped(blocks), QuestionLead, prompt, j);
  }

  /** Every note appears in the personal prompt under its heading, in order,
      a blank line between neighbours, and the question lead and the question
      right after the last one. */
  lemma PersonalPromptLayout(notes: seq<Doc>, prompt: string, j: nat)
    requires j < |notes|
    ensures ItemLaidOut(PersonalPrompt(notes, prompt), |PersonalPreamble|, HeadedNotes(notes), QuestionLead + prompt, j)
    ensures HeadedNotes(notes)[j] == "# " + notes[j].name + "\n" + notes[j].content
  {
    FramedJoinLayout(PersonalPreamble, HeadedNotes(notes), QuestionLead, prompt, j);
  }

  /** With nothing to show, the prompt is the preamble, the lead and the question. */
  lemma PromptWithoutMaterial(prompt: string)
    ensures OrgPrompt([], prompt) == OrgPreamble + QuestionLead + prompt
    ensures PersonalPrompt([], prompt) == PersonalPreamble + QuestionLead + prompt
  {
  }

  /** `pre + mid + lead + q` starts with `pre` and ends with `lead + q`. */
  lemma FramedBy(pre: string, mid: string, lead: string, q: string)
    ensures var p, tail := pre + mid + lead + q, lead + q;
      |pre| + |tail| <= |p| && p[..|pre|] == pre && p[|p| - |tail|..] == tail
  {
    assert pre + mid + lead + q == pre + mid + (lead + q);
  }

  /** The organisation prompt opens with its instructions and closes with
      the user's question, verbatim. */
  lemma OrgPromptFrame(blocks: seq<string>, prompt: string)
    ensures var p, tail := OrgPrompt(blocks, prompt), QuestionLead + prompt;
      |OrgPreamble| + |tail| <= |p| && p[..|OrgPreamble|] == OrgPreamble && p[|p| - |tail|..] == tail
  {
    var mid := Join("\n\n", Rewrapped(blocks));
    FramedBy(OrgPreamble, mid, QuestionLead, prompt);
  }

  /** The personal prompt opens with its instructions and closes with the
      user's question, verbatim. */
  lemma PersonalPromptFrame(notes: seq<Doc>, prompt: string)
    ensures var p, tail := PersonalPrompt(notes, prompt), QuestionLead + prompt;
      |PersonalPreamble| + |tail| <= |p| && p[..|PersonalPreamble|] == PersonalPreamble && p[|p| - |tail|..] == tail
  {
    var mid := Join("\n\n", HeadedNotes(notes));
    FramedBy(PersonalPreamble, mid, QuestionLead, prompt);
  }
}
