# On-boarding mentor chat manager, modelled in Dafny

This project models the `ChatManager` of the on-boarding mentor's RAG page
(`pages/rag_agents.py`). That page routes a user's question to one of two
agents:

- **GraphRAG_Agent** takes organisation questions. It gets the Mermaid
  organisation charts pulled out of the organisation documents.
- **TextRAG_Agent** takes everything else. It gets the personal notes, each
  under a `# file name` heading.

After the agent has answered, the page does the following:

- it appends a stall message when every recent agent reply sounds stuck;
- it filters out of the returned history every message that would give
  away the injected reference material;
- when it shows a history, it records every non-blank entry with its role's
  avatar in the session's `rag_messages` list.

The language model is not part of the model. One exchange with an agent is
a function parameter (`RagAgents.Converse`) from the agent's name and the
prompt it is sent to the chat history it produces. Every property below
holds whatever that history is. The loaded documents are a parameter too: a
sequence of (file name, content) pairs per category.

## Modules

- `Wrappers`: `Option`, which stands for a dictionary key that may be
  missing, and `Result`, which stands for a call that may raise.
- `PyStr`: the Python string built-ins the page relies on. These are `in`
  on strings, `any`, ASCII `lower()`, `strip()`, `split()` and `sep.join`.
- `Config`: `ORG_KEYWORDS` and `TERMINATION_PHRASES`.
- `ChatTypes`: chat messages, documents, the two agent names and the
  exceptions the code can raise.
- `Mermaid`: `extract_mermaid_blocks`, written as a left-to-right scanner
  and proved equal to leftmost, lazy, non-overlapping `re.findall`
  matching.
- `Routing`: the keyword classifier and the two prompt layouts.
- `History`: `should_stop`, the stall message, the leak filter,
  `_get_avatar`, `stream_response` and the entry-by-entry specification of
  what `show_chat_history` records.
- `RagAgents`: `generate_response` as a method (it builds `mermaid_blocks`
  in a loop and appends to the response's history in place), and the
  `ChatManager` class whose `rag_messages` field `show_chat_history` grows.

## Model

| member | source | states |
|---|---|---|
| PyStr.AnyIn | pages/rag_agents.py:142-143 | `any(sub in s for sub in subs)` holds exactly when some listed string occurs in `s` |
| PyStr.LowerChar | pages/rag_agents.py:141 | lower-casing one character leaves no ASCII capital, changes nothing else, and moves a capital by 32 |
| PyStr.LowerIdempotent | pages/rag_agents.py:141 | lower-casing twice is lower-casing once |
| PyStr.LowerContains | pages/rag_agents.py:141-143 | a string that occurs in a text also occurs, lower-cased, in the lower-cased text |
| PyStr.CapitalNeverContained | pages/rag_agents.py:116 | a string holding an ASCII capital never occurs in lower-cased text |
| PyStr.TrimStart | pages/rag_agents.py:116 | `lstrip()` removes exactly a whitespace prefix and leaves non-space first |
| PyStr.TrimEnd | pages/rag_agents.py:116 | `rstrip()` removes exactly a whitespace suffix and leaves non-space last |
| PyStr.Strip | pages/rag_agents.py:218 | `strip()` is empty exactly for all-whitespace text, and otherwise starts and ends with non-space |
| PyStr.StripIsSlice | pages/rag_agents.py:218 | `strip()` is the slice of the text between a leading and a trailing whitespace run |
| PyStr.StripKeeps | pages/rag_agents.py:116 | text with no whitespace at either end is its own `strip()` |
| PyStr.LeadingWord | pages/rag_agents.py:135 | the first word is a space-free prefix ended by whitespace or the end of the text |
| PyStr.Split | pages/rag_agents.py:135 | `split()` yields only non-empty, space-free words |
| PyStr.SplitAtSpace | pages/rag_agents.py:135 | any whitespace character separates the words on its two sides |
| PyStr.SplitWord | pages/rag_agents.py:135 | a non-empty, space-free run splits into itself |
| PyStr.JoinLayout | pages/rag_agents.py:150-151 | `sep.join(xs)` puts item `j` at its offset, followed by `sep` when another item follows and by the end of the text otherwise |
| PyStr.NoneInEmpty | pages/rag_agents.py:142-143 | no non-empty string occurs in the empty text |
| Mermaid.OpensAtStartsWith | pages/rag_agents.py:53 | the character-by-character opener test agrees with "```mermaid\n" starting there |
| Mermaid.ClosesAtStartsWith | pages/rag_agents.py:53 | the closing-fence test agrees with "```" starting there |
| Mermaid.FindOpen | pages/rag_agents.py:53 | the opener found starts at or after the scan position |
| Mermaid.FindOpenIsFirst | pages/rag_agents.py:53-54 | no opener starts between the scan position and the one found, nor anywhere if none is found |
| Mermaid.FindCloseIsFirst | pages/rag_agents.py:53 | the lazy `(.*?)` stops at the first closing fence after the opener |
| Mermaid.Spans | pages/rag_agents.py:53-54 | every match opens with the opener and closes at a fence, and the matches are in order and do not overlap |
| Mermaid.Bodies | pages/rag_agents.py:54 | one captured text per match, in match order |
| Mermaid.ExtractFromIsBodies | pages/rag_agents.py:53-54 | the scanner returns exactly the bodies of the matches `Spans` lists |
| Mermaid.SpansAreFindAll | pages/rag_agents.py:53-54 | the scanner's matches are the leftmost, shortest, non-overlapping ones, as `re.findall` reports them |
| Mermaid.FindAllEmpty | pages/rag_agents.py:53-54 | there are no matches exactly when no match can start anywhere |
| Mermaid.UnclosedOpenerEndsMatching | pages/rag_agents.py:53-54 | an opener with no closing fence after it ends the matching: nothing after it can match |
| Mermaid.FindAllIsUnique | pages/rag_agents.py:53-54 | the leftmost-match list is unique, so the scanner is the only answer |
| Mermaid.ExtractMermaidBlocks | pages/rag_agents.py:52-54 | no returned block holds "```" |
| Mermaid.MatchBodyHasNoFence | pages/rag_agents.py:53 | the text a match captures never holds a closing fence |
| Mermaid.ExtractSkipsPlainText | pages/rag_agents.py:53-54 | text without a backtick adds no block and does not disturb the scan |
| Mermaid.ExtractShift | pages/rag_agents.py:53-54 | scanning a text that ends another text finds the same blocks as scanning it alone |
| Mermaid.FencedBlockAt | pages/rag_agents.py:150-151 | a re-fenced, fence-free block is matched whole, and its body is the block plus its newline |
| Mermaid.ExtractJoinedFences | pages/rag_agents.py:150-151 | fence-free blocks, re-fenced and joined by blank lines, are extracted again in order, each with the newline its fence adds |
| Mermaid.ExtractAroundJoinedFences | pages/rag_agents.py:150-159 | a backtick-free preamble and lead around the joined fences contribute no blocks |
| Mermaid.ReExtractingABlockFindsNothing | pages/rag_agents.py:52-54 | extracting from an extracted block finds nothing |
| Routing.IsOrgRelated | pages/rag_agents.py:141-143 | a prompt is organisation-related exactly when some `ORG_KEYWORDS` entry occurs in the lower-cased prompt |
| Routing.EmptyPromptIsPersonal | pages/rag_agents.py:141-143 | the empty prompt goes to the personal branch |
| Routing.ClassifierIgnoresCase | pages/rag_agents.py:141 | upper and lower case do not change the route |
| Routing.ClassifierKeepsOrgInContext | pages/rag_agents.py:141-143 | text added around an organisation prompt keeps it one |
| Routing.OrgByKeywordAt | pages/rag_agents.py:16-18 | a keyword spelled anywhere in the lower-cased prompt routes it to the organisation agent |
| Routing.PersonalByMissingLetters | pages/rag_agents.py:16-18 | a prompt with no `r`, no `l` and no "ea" can match no keyword, so it goes to the personal notes |
| Routing.ManagerQuestionIsOrg | pages/rag_agents.py:16-18 | "Who does the engineering manager report to?" is an organisation question |
| Routing.MeetingQuestionIsPersonal | pages/rag_agents.py:141-143 | "What did I note about today's meeting?" is a personal question |
| Routing.HeadedNotes | pages/rag_agents.py:178-180 | one entry per note, and entry `j` is "# " + its file name + "\n" + its content |
| Routing.OrgBlocksAppend | pages/rag_agents.py:145-149 | collecting over two runs of documents is collecting over each, in order |
| Routing.OrgBlocksSnoc | pages/rag_agents.py:146-149 | one more document adds its own diagrams after the earlier ones |
| Routing.OrgBlocksAreFenceFree | pages/rag_agents.py:145-149 | no collected diagram holds "```" |
| Routing.RewrappedAt | pages/rag_agents.py:150-151 | entry `j` of the re-wrapped list is block `j` in its own "```mermaid\n" … "\n```" fence |
| Routing.OrgTextHasNoBacktick | pages/rag_agents.py:152-159 | neither the organisation instructions nor the question lead holds a backtick |
| Routing.OrgPromptRoundTrip | pages/rag_agents.py:150-159 | extracting diagrams from the organisation prompt gives back the diagrams it was built from, in order, each with its newline, followed by whatever the question holds |
| Routing.OrgPromptLayout | pages/rag_agents.py:150-159 | in the organisation prompt, block `j` sits after the preamble as "```mermaid\n" + block + "\n```", with a blank line before the next block or the question lead |
| Routing.PersonalPromptLayout | pages/rag_agents.py:178-188 | in the personal prompt, note `j` sits after the preamble as "# " + name + "\n" + content, with a blank line before the next note or the question lead |
| Routing.PromptWithoutMaterial | pages/rag_agents.py:150-188 | with no diagrams or notes, the prompt is the preamble, the question lead and the question |
| Routing.OrgPromptFrame | pages/rag_agents.py:152-160 | the organisation prompt opens with its instructions and ends with "\n\nUser's question: " + the prompt |
| Routing.PersonalPromptFrame | pages/rag_agents.py:182-188 | the personal prompt opens with its instructions and ends with "\n\nUser's question: " + the prompt |
| History.LastThree | pages/rag_agents.py:117 | `chat_history[-3:]` is the last min(3, n) entries |
| History.AgentReplies | pages/rag_agents.py:115-119 | the comprehension yields at most one reply per entry |
| History.AgentRepliesReadable | pages/rag_agents.py:115-119 | the comprehension succeeds exactly when every entry has a role, and every agent entry a content |
| History.AgentRepliesError | pages/rag_agents.py:116-118 | the first unreadable entry decides the exception: `KeyError('role')` or `KeyError('content')` |
| History.ShouldStopMeaning | pages/rag_agents.py:113-122 | `should_stop` raises exactly on an unreadable entry among the last three, and answers yes exactly when every agent reply among them, stripped and lower-cased, holds a termination phrase |
| History.NoAgentReplyStops | pages/rag_agents.py:121-122 | with no agent reply among the last three, `all` over nothing answers yes, an empty history included |
| History.ShouldStopSeesLastThree | pages/rag_agents.py:117 | entries before the last three never change the answer |
| History.CapitalPhrasesNeverMatch | pages/rag_agents.py:19-27 | "I'm unable to provide", "I am sorry" and "I apologize" never match a lower-cased reply, so only the four other phrases can |
| History.FoundAtEnd | pages/rag_agents.py:116-122 | a reply that ends with a phrase, and has no whitespace at either end, holds it after strip and lower |
| History.SorryPleaseClarifySoundsStuck | pages/rag_agents.py:116-122 | "I am sorry, please clarify" sounds stuck through "please clarify" |
| History.ThreeStuckRepliesStop | pages/rag_agents.py:113-122 | three stuck agent replies stop the chat |
| History.SorryPleaseClarifyStops | pages/rag_agents.py:113-122 | three "I am sorry, please clarify" replies stop the chat |
| History.WithStall | pages/rag_agents.py:170-202 | when `should_stop` answers yes, exactly one message is appended and the earlier entries are unchanged; otherwise the history is untouched |
| History.StallMessageIsAgentReply | pages/rag_agents.py:171-202 | the stall message carries the name of the branch's agent and is a readable agent reply |
| History.OrgStallSoundsStuck | pages/rag_agents.py:173-174 | the organisation stall message itself holds "no relevant answer" |
| History.Sanitise | pages/rag_agents.py:205-212 | no kept entry holds a leak marker, and the filter never grows the history |
| History.SanitiseIsSubsequence | pages/rag_agents.py:205-212 | the kept entries are the history's own, in their order |
| History.SanitiseCounts | pages/rag_agents.py:205-212 | a message is kept as often as it occurs when it holds no marker, and never when it does |
| History.SanitiseAppend | pages/rag_agents.py:205-212 | filtering a concatenation is concatenating the filtered parts |
| History.SanitiseKeepsClean | pages/rag_agents.py:205-212 | a history without leaks passes unchanged |
| History.SanitiseIdempotent | pages/rag_agents.py:205-212 | filtering twice is filtering once |
| History.NoContentIsKept | pages/rag_agents.py:207 | a message without content reads as "" and is kept |
| History.KeptByMissingLetters | pages/rag_agents.py:207-211 | a content whose lower-cased form has no backtick, no `#` and no "ll" holds no marker |
| History.StallMessageIsKept | pages/rag_agents.py:173-211 | neither stall message holds a marker, so the filter always keeps it |
| History.GetAvatar | pages/rag_agents.py:124-132 | exactly the known roles get an avatar: the brain for `user_proxy` and the office worker for `user` and the agents; any other role raises the `Config.USER_IMAGE` error |
| History.StreamResponse | pages/rag_agents.py:134-136 | one chunk per word of `text.split()` |
| PyStr.EachFollowedByAt | pages/rag_agents.py:136 | item `i` of the result is item `i` of the input followed by the suffix (one space for the stream, a newline for the re-fenced diagrams) |
| History.SplitSpaced | pages/rag_agents.py:135-136 | space-free words, each followed by a space and put together, split back into the same words |
| History.StreamKeepsWords | pages/rag_agents.py:134-136 | the streamed text holds the reply's words in order, so only whitespace changes |
| History.Record | pages/rag_agents.py:216-225 | a pass never records more items than the history has entries |
| History.Shown | pages/rag_agents.py:218-225 | a displayable entry adds one item, or none when it is blank |
| History.RecordStep | pages/rag_agents.py:216-225 | a clean pass meeting a displayable entry adds what that entry shows and stays clean |
| History.RecordDisplayable | pages/rag_agents.py:216-225 | a history whose non-blank entries all have avatars is recorded in full, in order, with no exception |
| History.KeptCount | pages/rag_agents.py:218-225 | each non-blank entry adds exactly one item and blank entries add none |
| History.RecordErrorSticks | pages/rag_agents.py:222 | once a pass has raised, later entries change nothing |
| History.RecordStopsAt | pages/rag_agents.py:216-225 | the first non-blank entry whose role has no avatar raises, and the items recorded before it stay |
| History.RecordFails | pages/rag_agents.py:216-225 | a pass raises exactly when some non-blank entry's role has no avatar |
| History.FirstUndisplayable | pages/rag_agents.py:216-222 | the first entry that cannot be shown exists when one does, and every entry before it can be |
| History.RecordPrefix | pages/rag_agents.py:216-225 | a pass over a prefix records a prefix of what the whole pass records |
| History.RoleLessEntryFails | pages/rag_agents.py:217-222 | an entry without a role is shown as "assistant" and, unless blank, raises |
| RagAgents.Respond | pages/rag_agents.py:139-213 | whatever `generate_response` returns holds no leak marker |
| RagAgents.ChatResult.Append | pages/rag_agents.py:171 | `response.chat_history.append(entry)` adds the entry at the end |
| RagAgents.CollectOrgBlocks | pages/rag_agents.py:145-149 | the loop collects every organisation document's diagrams, in document order, and none holds a fence |
| RagAgents.GenerateResponse | pages/rag_agents.py:139-213 | the method returns what the specification `Respond` prescribes |
| RagAgents.RespondFails | pages/rag_agents.py:113-122 | `generate_response` raises exactly when one of the exchange's last three entries lacks a role, or is an agent reply without content |
| RagAgents.RespondKeepsTheExchange | pages/rag_agents.py:170-212 | the result is the filtered exchange followed by the stall message exactly when the agent sounded stuck, and every entry without a marker is kept |
| RagAgents.RespondEndsWithStall | pages/rag_agents.py:170-212 | when the agent sounds stuck, the result ends with the branch's stall message |
| RagAgents.RespondWithoutStall | pages/rag_agents.py:197-213 | when it does not, the result is the exchange filtered, with nothing added |
| RagAgents.OrgPromptIsHidden | pages/rag_agents.py:152-212 | a reply repeating the organisation prompt is filtered out |
| RagAgents.PersonalPromptIsHidden | pages/rag_agents.py:182-212 | a reply repeating the personal prompt is filtered out |
| RagAgents.SentPromptNeverReturned | pages/rag_agents.py:144-213 | whichever branch is taken, an entry repeating the prompt sent is not in the result |
| RagAgents.ChatManager.constructor | pages/rag_agents.py:110-111 | `rag_messages` starts as the session's list, or empty when the session holds none |
| RagAgents.ChatManager.ShowEntry | pages/rag_agents.py:217-225 | one entry: a blank one adds nothing, a role without an avatar raises `AttributeError` and adds nothing, any other entry appends its role, trimmed content and avatar to `rag_messages` |
| RagAgents.ChatManager.ShowNext | pages/rag_agents.py:217-225 | one pass of the loop after a clean prefix: on a raise, `rag_messages` already holds everything `Record` stores for the whole history, otherwise the clean prefix grows by one entry |
| RagAgents.ChatManager.ShowChatHistory | pages/rag_agents.py:215-225 | `rag_messages` grows by exactly what the entry-by-entry specification `Record` records (the non-blank entries, trimmed, with role and avatar, in order), and the method raises exactly when `Record` does |
| RagAgents.ShowingDisplayableHistory | pages/rag_agents.py:216-225 | showing a history whose roles all have avatars records every non-blank entry, one item each, and raises nothing |

## Left out

- `DocumentLoader.load_documents` (pages/rag_agents.py:30-46) is file-system I/O. The documents are a parameter, in the order given; the order `os.listdir` would produce is not modelled.
- `AgentFactory`, `LLMSetup`, `initiate_chat` and `content_str` (pages/rag_agents.py:57-96, 163-168, 190-195) call the agent framework and the language models. The exchange is the `Converse` parameter, and its history is arbitrary. `max_turns` and the `reflection_with_llm` summary are not modelled.
- Streamlit rendering is left out:
  - `container.chat_message`, `st.write_stream`, `st.markdown` and the `time.sleep` pacing (pages/rag_agents.py:137, 227-255);
  - `st.session_state` itself: the Dafny `ChatManager` holds the session's `rag_messages`, and its constructor takes the list the session already has, if any (pages/rag_agents.py:110-111);
  - the module-level `run` function.
- `streamlit_app.py` and `tests/conftest.py` are not part of this model. They hold page wiring and test path set-up.
- A dictionary value that is present but `None` is not distinguished from a missing key. `Message` fields are `Option`s, and `None` is read as a missing key. This changes four behaviours:
  - a `None` content makes `content.lower()` in the filter (pages/rag_agents.py:207) raise `AttributeError`, but the model reads it as "" and keeps the entry (`History.NoContentIsKept`);
  - a `None` content makes `content.strip()` in `show_chat_history` (pages/rag_agents.py:218) raise `AttributeError`, but the model treats the entry as blank and skips it;
  - a `None` role does not raise in `should_stop`, because `None in agent_roles` is false (pages/rag_agents.py:118), but the model raises `KeyError('role')`;
  - a `None` content on an agent reply among the last three makes `msg["content"].strip()` in `should_stop` (pages/rag_agents.py:116) raise `AttributeError`, but the model raises `KeyError('content')` (`History.AgentReplies`, `History.AgentRepliesError`, `RagAgents.RespondFails`).
- History.StreamResponse: models only the chunks `stream_response` yields, not the generator's laziness or pacing.

Where the code does something a reader might not expect, the model follows the code:

- `Config.USER_IMAGE` is never defined in `Config` (pages/rag_agents.py:12-27). So `_get_avatar` on an unknown role raises `AttributeError`; it does not return a default avatar. The exception propagates out of `show_chat_history` and leaves the items already recorded in place (`History.GetAvatar`, `History.RecordStopsAt`).
- `entry.get("role", "assistant")` gives a role-less entry the role "assistant". `_get_avatar` does not know that role, so such an entry raises unless it is blank (`History.RoleLessEntryFails`).
- `should_stop` indexes `msg["role"]` and `msg["content"]` directly. A missing key raises `KeyError`, and `generate_response` propagates it (`History.AgentRepliesError`, `RagAgents.RespondFails`).
- The phrases "I'm unable to provide", "I am sorry" and "I apologize" hold capitals. They are compared with lower-cased replies, so they never match (`History.CapitalPhrasesNeverMatch`).
- The personal stall text is the literal the code builds: "Ending the chat as no helpfulanswer can be provided.", without a space between "helpful" and "answer".
- Adjacent string literals in both prompt preambles are glued without spaces, exactly as in the code.
- The extracted diagrams are not trimmed. Each is re-fenced as "```mermaid\n" + block + "\n```", so a block that already ends in a newline gains a second one (`Routing.OrgPromptRoundTrip`).
- `lower()` is modelled on ASCII letters only. Non-ASCII case folding is not modelled.
