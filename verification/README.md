# Persona portal conversation layer, in Dafny

A verified model of the conversation logic in `streamlit_app.py`. This is the
Streamlit app in which marketing teams put questions to AI-generated investor
personas. The model covers four parts:

- **Segment list and persona filter.** The sorted, de-duplicated list of
  segments offered by the filter. The loop that builds the persona grid from
  the segment records: per matching record, the male persona, then the female
  one, when present.
- **The chat-completion request** (`build_messages`):
  - the fixed system instruction;
  - the persona's introduction as a user message;
  - the last (at most four) earlier exchanges with that persona, oldest first,
    as user/assistant pairs;
  - the new question.
- **`ask_persona`.** It builds the introduction and reads the persona's
  history, defaulting to empty. It calls the model. Only when the call
  answers does it append one `(question, answer)` exchange to that persona's
  history.
- **The "Ask GPT" action.** A blank question is refused. In "ask all" mode the
  listed personas are asked one after another, and the first failed call ends
  the round. Otherwise the selected persona is asked, with a warning when
  there is none.

Modules:

- `Wrappers` holds `Option`.
- `Text` holds the Python string behaviour used: `isspace`/`strip`, code-point
  ordering and sorted insertion, `join`, `str(int)` and substring containment.
- `Personas` holds the records, the segment list and filtering.
- `Messages` holds the request.
- `Conversation` holds the model service, the per-persona history, the session
  and the action.

The hosted model is a `ChatService` object. The `n`-th call gets `script(n)`,
either an answer or an error, whatever request it was sent. Every behaviour of
the real service over a session is some `script`. The service also keeps the
log of requests sent. The session is a `Session` object whose `chatHistory`
map the methods update in place.

The filtering loop, `build_messages` and the "ask all" loop are methods with
loops. Each is proved equal to a specification function (`Selected`,
`Prompt`, `HistoryAfter`/`SentSoFar`), and the source's promises are proved
about those functions as lemmas.

In "ask all" mode the `try` (streamlit_app.py:176-186) wraps the whole loop,
so the first exception ends the round and no later persona is called. `Round`
states this in terms of `HistoryAfter`: after a failure at persona `k`, the
history is the one reached by recording the answers of personas `0..k-1`, in
order. `HistoryAfterGrows` turns that into per-persona terms: each persona
gains one exchange per time it was asked, so a name listed twice gains two.
With distinct names, `AskedPrefixOnly` states that personas `0..k-1` each
gained exactly their own answer and every other persona gained nothing.

## Model

| member | source | states |
|---|---|---|
| Text.IsSpace | streamlit_app.py:172 | defines `str.isspace` for one character: the characters `strip()` removes |
| Text.Strip | streamlit_app.py:172 | defines `question.strip()` as `lstrip` followed by `rstrip` |
| Text.TrimStartSpec | streamlit_app.py:172 | `lstrip` removes exactly the longest prefix of whitespace: everything dropped is whitespace, the rest is a suffix not starting with whitespace |
| Text.TrimEndSpec | streamlit_app.py:172 | `rstrip` removes exactly the longest suffix of whitespace: everything dropped is whitespace, the rest is a prefix not ending with whitespace |
| Text.StripEmptyIffBlank | streamlit_app.py:172 | `question.strip()` is empty if and only if every character of the question is whitespace |
| Text.Less | streamlit_app.py:59 | defines the code-point order on strings that `sorted` uses (proved irreflexive, transitive and total by `LessIrreflexive`, `LessTransitive`, `LessTotal`) |
| Text.Insert | streamlit_app.py:59 | inserting into a strictly sorted list keeps it strictly sorted, and its elements are the old ones plus the new one |
| Text.SortedUnique | streamlit_app.py:59 | two strictly sorted lists with the same elements are equal, so `sorted(set)` has exactly one possible result |
| Text.Decimal | streamlit_app.py:155 | defines `str(age)` for a non-negative integer, digit by digit |
| Text.DecimalRoundTrip | streamlit_app.py:155 | the age as rendered in the introduction is a non-empty string of decimal digits without a leading zero, and reads back as the age |
| Text.Join | streamlit_app.py:156 | defines `sep.join(xs)`: the items in order with `sep` between neighbours |
| Text.JoinContains | streamlit_app.py:156 | every value appears in `", ".join(values)` |
| Personas.Segments | streamlit_app.py:59 | the segment list is strictly sorted (so no duplicates) and holds exactly the segments named in the records |
| Personas.SegmentsCanonical | streamlit_app.py:59 | any strictly sorted list of exactly the records' segments is the segment list, so it is what `sorted` of the set returns |
| Personas.Matches | streamlit_app.py:75 | defines the filter test `selected_segment == "All" or group["segment"] == selected_segment` |
| Personas.Get | streamlit_app.py:77 | defines `group.get(gender)`: the record's persona of that gender, if present |
| Personas.GroupEntries | streamlit_app.py:76-78 | defines the inner loop: one entry per present persona, genders visited in order |
| Personas.Selected | streamlit_app.py:73-78 | defines the filtered list record by record, in file order, a matching record contributing its entries |
| Personas.FilterPersonas | streamlit_app.py:73-78 | the nested filtering loop builds exactly `Selected(groups, selected)` |
| Personas.MaleBeforeFemale | streamlit_app.py:76-78 | a record contributes its male persona, if present, and then its female persona, if present |
| Personas.SelectedAppend | streamlit_app.py:74-78 | filtering keeps record order: the list for `a + b` is the list for `a` followed by the list for `b` |
| Personas.SelectedInSegment | streamlit_app.py:75-78 | unless "All" is chosen, every listed entry is in the chosen segment |
| Personas.SelectedMembership | streamlit_app.py:73-78 | an entry is listed if and only if some matching record of its segment holds its persona as male or female persona |
| Personas.SelectedCount | streamlit_app.py:73-78 | the number of listed entries equals the number of present male/female personas in the matching records |
| Personas.SelectedIsAllRestricted | streamlit_app.py:75-78 | choosing one segment lists exactly the entries that "All" lists under that segment, in the same order |
| Messages.Window | streamlit_app.py:136 | `history[-4:]` has `min(4, len(history))` exchanges |
| Messages.WindowIsSuffix | streamlit_app.py:136 | `history[-4:]` is the last four exchanges in their order, or the whole history when it has at most four |
| Messages.WindowAfterAppend | streamlit_app.py:136 | after one more exchange is recorded, the next window ends with it and has dropped the oldest one once four were remembered |
| Messages.TurnsAt | streamlit_app.py:137-140 | exchange `k` becomes message `2k` (user, its question) and message `2k+1` (assistant, its answer) |
| Messages.TurnsRoles | streamlit_app.py:137-140 | the turns alternate user, assistant, user, ... |
| Messages.Turns | streamlit_app.py:136-140 | defines the user/assistant message pairs of the window's exchanges, oldest first; there are two messages per exchange |
| Messages.Prompt | streamlit_app.py:132-141 | defines the request: system instruction, introduction, the turns of the window, then the new question |
| Messages.BuildMessages | streamlit_app.py:130-142 | the message list grown by the loop is exactly `Prompt(intro, history, new_q)` |
| Messages.PromptLength | streamlit_app.py:132-142 | the request has `3 + 2·min(4, len(history))` messages, so at most 11 |
| Messages.PromptEnds | streamlit_app.py:132-141 | message 0 is the fixed system instruction, message 1 is the introduction from the user, the last message is the new question from the user |
| Messages.PromptTurn | streamlit_app.py:136-140 | pair `k` between the introduction and the question is the `k`-th of the last `min(4, n)` exchanges, oldest first: its question as user message `2+2k`, its answer as assistant message `3+2k` |
| Messages.PromptAlternates | streamlit_app.py:136-140 | between the introduction and the question, messages at even positions are from the user and at odd positions from the assistant |
| Messages.PromptWithoutHistory | streamlit_app.py:132-141 | with no history the request is exactly [system instruction, introduction, question] |
| Conversation.Intro | streamlit_app.py:154-156 | defines the introduction f-string, with its literal text, the non-breaking hyphen of "year‑old" and the comma-joined values |
| Conversation.IntroMentions | streamlit_app.py:154-156 | the introduction contains the persona's name, its age in decimal, its occupation, its location and each of its values |
| Conversation.ChatService.constructor | streamlit_app.py:20 | the model client: a fresh service has been sent nothing, and its replies are fixed by its script |
| Conversation.ChatService.Complete | streamlit_app.py:146-148 | a call logs the request it was sent and returns the scripted reply for its position, answer or error |
| Conversation.HistoryOf | streamlit_app.py:157 | defines `chat_history.get(name, [])` |
| Conversation.Record | streamlit_app.py:159 | defines `chat_history.setdefault(name, []).append(e)` on the history map |
| Conversation.RecordEffect | streamlit_app.py:159 | `setdefault(name, []).append(e)` gives the persona a list if it had none and appends exactly `e` at its end |
| Conversation.RecordKeepsOthers | streamlit_app.py:159 | recording for one persona leaves every other persona's list, and whether it has one, unchanged |
| Conversation.HistoryAfter | streamlit_app.py:177-179 | defines the history after the first `k` personas of a round each had their answer recorded, in order |
| Conversation.HistoryAfterGrows | streamlit_app.py:177-179 | after asking a run of personas, each persona's earlier exchanges are a prefix of its history, and it gained one exchange per time it was asked |
| Conversation.HistoryAfterKeys | streamlit_app.py:177-179 | after asking a run of personas, a persona has a history list exactly when it had one before or was asked |
| Conversation.UnaskedSince | streamlit_app.py:177-179 | a persona whom none of the personas asked in a stretch of the round is named after gains nothing during that stretch |
| Conversation.NeverAsked | streamlit_app.py:177-179 | a persona none of the asked personas is named after keeps its history |
| Conversation.AskedEarlier | streamlit_app.py:177-179 | a persona asked exactly once, as persona `i` of the first `k`, has gained exactly its own answer |
| Conversation.AskedOnce | streamlit_app.py:177-179 | with distinct names, after `k` answered calls persona `i` has gained exactly its own answer if `i < k`, and nothing otherwise |
| Conversation.AskedPrefixOnly | streamlit_app.py:177-186 | with distinct names, when a round stops after `k` answered calls, personas `0..k-1` each gained exactly their own exchange, and personas `k..` and every unlisted persona gained none (repeated names: see `HistoryAfterGrows`) |
| Conversation.RoundPrompt | streamlit_app.py:154-158 | defines the request sent to persona `i` of a round: its introduction, its history as it stood after the personas before it, and the question |
| Conversation.SentSoFar | streamlit_app.py:177-179 | defines the request log after `k` personas of a round were asked: the earlier log unchanged, then one `RoundPrompt` per persona, in order |
| Conversation.Round | streamlit_app.py:176-186 | defines how a round ends: the first `answered` calls answered and were recorded, and if a persona is left, the next call was sent and failed, its error being the outcome; nothing else was sent or recorded |
| Conversation.PersonasOf | streamlit_app.py:178-179 | the personas of the listed entries, one per entry, in list order |
| Conversation.Targets | streamlit_app.py:177-184 | "ask all" asks the listed personas in order; otherwise only the selected persona is asked, or nobody when none is selected |
| Conversation.SentExtend | streamlit_app.py:178-179 | an answered call to the next persona extends the round's requests by that persona's request, built from its history as it then stood |
| Conversation.Session.constructor | streamlit_app.py:8-10 | the session starts with an empty history |
| Conversation.Session.AskPersona | streamlit_app.py:152-160 | one request is sent, built from the introduction and the persona's history (empty if none); the reply is the service's; only an answer records `(question, answer)` for that persona, and a failed call leaves the history unchanged |
| Conversation.Session.AskNext | streamlit_app.py:178-179 | one pass of the "ask all" loop: either the round grows by one answered call and one recorded exchange, or it ends with this call's error and nothing recorded for it |
| Conversation.Session.AskAll | streamlit_app.py:177-179 | the listed personas are asked in order; the first failed call ends the round with its error; personas before it each recorded their answer, and no later persona was sent anything |
| Conversation.Session.Ask | streamlit_app.py:171-186 | a blank question, or no selection outside "ask all", sends nothing and changes no history; otherwise the round over the targets is run as `Round` describes |

## Left out

- All Streamlit rendering is left out. That covers the page text, the persona grid's columns and images, the profile card (with its income formatting), suggestion buttons, the segment summaries, the conversation-history display, the spinner and the warnings, which appear only as the outcomes `BlankQuestion`, `NoPersonaSelected` and `Failed`.
- Loading the persona file and the API key is left out. The records are a given sequence of `Group` values.
- The OpenAI client call is left out. It is a remote service, modelled by the `script` of `ChatService`. The `.strip()` of the answer happens inside that call, so `Answer` carries the stripped text.
- `@st.cache_data` on `_ask_llm` is left out. The library's memoisation could let a repeated request return the earlier answer without a call. The model treats every request as a call.
- Conversation.Session.Ask: `st.stop()` after the "select a persona" warning is modelled as returning `NoPersonaSelected` with nothing changed. The rest of the page run that it skips is rendering.
- Conversation.Session.Ask: the selected persona and the filtered list are parameters, not session state. The grid's "Select" buttons that set them are rendering.
- Conversation.IntroMentions: does not fix the introduction's exact wording. It states only that the name, age, occupation, location and values occur in it. The age is a non-negative integer rendered by `str`.
- Personas.Persona: fields the conversation layer never reads (income, goals, image, suggestions, behavioural traits) are not modelled. A persona entry that is present but falsy (an empty dict) is treated as absent, as `if (persona := group.get(gender))` does.
- A record lacking a `segment`, or a persona lacking `name`, `age`, `occupation`, `location` or `values`, raises `KeyError` in the code. The model's types always carry these fields, so that failure is not modelled.
- Conversation.Session.Ask: the model's outcome says which call failed. The code only shows the exception text. Exceptions raised outside the model call, such as the `KeyError` above, are not modelled.
