# Simple-Agent-Chat: the logic of app.py

app.py connects a Chainlit chat UI to an Azure AI Projects agent. At start-up it creates
one agent with three mock tools and one conversation thread. Every chat message is posted
to that thread. Then a run of the agent is processed, the thread's messages are listed,
and one text is picked from that list and sent back to the UI.

This project models the parts of app.py that are self-contained logic:

- **Reply extraction** (`ReplyExtraction`). This is the loop at the end of `handle_message`.
  It walks `messages.data` in reverse and inspects only the last content block of each
  message. Every text block it finds overwrites the local `response`. `ExtractReply` is that
  loop as a method. It is proved equal to `Extracted`, which states the result directly:
  - if any message has no content blocks, `content[-1]` raises, so the outcome is
    `Failed(EmptyContent)`;
  - otherwise, if no message ends with text, `response` is never bound, so the outcome is
    `Failed(ResponseUnbound)`;
  - otherwise the reply is the text of the message with the smallest index whose last
    block is text. The reversed walk visits that message last.
- **Mock tools** (`Tools`). `FetchWeather` and `GetUserInfo` are fixed tables with a
  default value, and each result is wrapped under one key. `TimeFormat` is the format choice
  of `fetch_current_datetime`. `FetchCurrentDatetime` wraps the rendered time under
  `"current_time"`. The clock reading and `strftime` are parameters of that function.
  Tool results are `Json` values (strings and objects), not the text `json.dumps` produces.

The code and the design description of this system disagree in three places. The model
follows the code:

- The description says the extractor returns the last message in list order. The code
  returns the message with the smallest index in `messages.data`. For
  `[user: "hi", assistant: "hello"]` the code replies "hi" (`TwoMessageExample`). The order
  in which the service lists messages is remote behaviour and is not part of this model.
- The description asks that a message with no content blocks be skipped. The code raises
  on `content[-1]` (`Failed(EmptyContent)`).
- The description asks for a fixed "no response" fallback. The code has none: `response`
  stays unbound and the send at line 156 fails (`Failed(ResponseUnbound)`).

The description's per-session agent/thread mapping, its missing-state guard and its
delete-thread/delete-agent cleanup do not exist in app.py. app.py uses one module-level
agent and thread, so the model has none of them.

Files: `wrappers.dfy` (the `Option` type), `tools.dfy` (module `Tools`) and
`reply_extraction.dfy` (module `ReplyExtraction`).

## Model

| member | source | states |
|---|---|---|
| Tools.TimeFormat | app.py:37-40 | a non-empty caller format is used as given; `None` or `""` selects `"%Y-%m-%d %H:%M:%S"`; the chosen format is never empty |
| Tools.FetchCurrentDatetime | app.py:26-43 | the result is an object with the single key `"current_time"`, holding the time rendered with the caller's non-empty format or else with the default pattern |
| Tools.FetchWeather | app.py:46-65 | the result has the single key `"weather"`; "New York", "London" and "Tokyo" give their canned strings; the "not available" text is returned exactly when the location is none of the three |
| Tools.GetUserInfo | app.py:68-83 | the result has the single key `"user_info"`; ids 1, 2 and 3 give the Alice, Bob and Charlie records with their names and e-mails; `{"error": "User not found."}` is returned exactly when the id is not 1, 2 or 3 |
| ReplyExtraction.FirstTextIndex | app.py:149-153 | the index found is the smallest whose message ends with a text block; `None` means no message ends with text |
| ReplyExtraction.Extracted | app.py:148-156 | fails with the `content[-1]` error exactly when some message has no content; fails with unbound `response` exactly when all have content and none ends with text; otherwise replies with the last-block text of the first message that ends with text |
| ReplyExtraction.ExtractReply | app.py:149-156 | the reversed walk that overwrites `response` on every text hit returns exactly `Extracted` of the message list |
| ReplyExtraction.OnlyLastBlockCounts | app.py:150-151 | rewriting every block of a message except its last one leaves the outcome unchanged, so earlier text blocks never become the reply |
| ReplyExtraction.LaterMessagesDoNotOverride | app.py:149-153 | appending messages that all have content after a list that yields a reply leaves the reply unchanged: the walk does not stop at the first hit, and the smallest index overwrites the others |
| ReplyExtraction.FrontMessageWins | app.py:149-153 | a message at index 0 that ends with text is the reply when every other message has content |
| ReplyExtraction.EmptyContentAnywhereFails | app.py:150 | one message without content blocks, at any position, makes the handler fail even when other messages end with text |
| ReplyExtraction.TwoMessageExample | app.py:149-153 | for `[user: "hi", assistant: "hello"]` the reply is "hi" |

## Left out

- Configuration and client setup (app.py:18-23): reading `.env`, the Azure credential and `AIProjectClient` are configuration of a remote SDK.
- Agent and thread creation (app.py:86-125): the tool set declaration, `create_agent`, `create_thread` and the initial `list_messages` are remote calls.
- The remote calls of each turn (app.py:135-148): `create_message`, `create_and_process_run` and `list_messages` are remote calls. Only their result, the message list, is modelled, as the input of the extraction.
- The run-status check (app.py:143-146): it only prints and does not change control flow.
- The console output of the extraction loop (app.py:152): printing has no effect on the reply.
- Chainlit hooks (app.py:128-133, 156, 160): `on_chat_start`, `on_message`, `cl.Message(...).send()` and `cl.run()` are UI transport; the async handler is modelled as a sequential function of the message list.
- Tools.FetchCurrentDatetime: the wall clock (`datetime.now()`) and `strftime` are parameters, so the model says which format is passed to the renderer but not what the rendered text is.
- JSON serialisation (app.py:42, 64, 83): `json.dumps` and its escaping of "°" are library formatting; results are `Json` values instead of JSON text.
- Message roles: only `user` and `assistant` are distinguished; the role does not affect the reply.
