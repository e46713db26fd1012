# unreasonable-llama-discord, modelled in Dafny

This project models the logic of the unreasonable-llama-discord bot that is not
Discord, SQLite or tokenizer plumbing, and proves properties of it. That logic is:

- **`split_message`** (`__main__.py`). It cuts an over-long reply into a part that
  fits one Discord message and a remainder:
  - it subtracts a safety margin of 5 from the threshold;
  - it cuts at the last newline;
  - it closes an odd code fence (```` ``` ````) in the first part and reopens it,
    with the same language tag, in the second.

  `MessageSplit` states it with Python's own string semantics, taken from `PyStr`:
  - `find`/`rfind` answer -1;
  - negative slice bounds count from the end;
  - `count` counts non-overlapping occurrences;
  - `strip` removes whitespace;
  - `split(" ", 1)` splits once.
- **`LLMConversationHistory`** (`__main__.py`): the list of role/content entries sent to
  the model. `Conversation.ConversationHistory` is a class whose methods update the
  `history` field in place.
- **Command parsing in `on_message`** (`__main__.py`). It drops the prefix `$`, trims,
  splits at the first space, and dispatches on `llm` and `llm-help`. This is `Commands`.
- **`BotDatabase`** (`unllamabot/bot_database.py`): the store of users, their system
  prompts and generation parameters, and their conversations. `BotDb.BotDatabase` is a
  class over the two tables:
  - `users` is a map from user id to row;
  - `messages` is a sequence of rows in row-id order (`MessageTable`).

  Every operation except `Open` is gated on the store being open; `Open` instead
  fails with `DatabaseAlreadyOpen` when it already is. The class invariant `Valid` says
  three things:
  - row ids increase along the table;
  - each user's positions never decrease along it, so "ORDER BY position" is table order;
  - every message belongs to a stored user, as the foreign key promises.

  `Contiguous` says that every user's positions are exactly 0, 1, 2, …. Every
  operation keeps it, and that is what `delete_message`'s renumbering is for, with
  one exception: `delete_message` given a message that is not stored (already
  deleted, made up, or a copy fetched before an earlier deletion renumbered the
  conversation, so that its position is one too high) still renumbers that user's later messages, and then
  deletes whichever row now has that id. Ids are "largest id + 1", so a freed id
  can have been given to another row since, possibly another user's. Positions
  can then repeat or skip.
- **The word-by-word mock of the LLM server** (`tests/llama_backend_tests.py`):
  `find_next_separator` and the chunking loop of `get_streamed_completion`. This is
  `LlamaMock`. The chunks are proved to be the unique well-formed chunking of the
  response.

`split_message` (`__main__.py:99-133`) cuts only at a newline: it never prefers ". "
or " ", and it can return an empty head. In particular:
- the model keeps the code's behaviour on a head with no newline. `rfind` gives -1, the
  first part loses its last character, and the second part is the whole message
  (`MessageSplit.SplitWithoutNewline`, `MessageSplit.SplitDuplicatesExample`);
- a threshold below 5 is an error, as in the code.

## Model

| member | source | states |
|---|---|---|
| `PyStr.ClampIndex` | __main__.py:115 | a Python slice bound: a negative index counts from the end; one below −len becomes 0 and one above len becomes len |
| `PyStr.FindSpec` | __main__.py:125 | `str.find` from a start index: -1 when the start is past the end (even for ""), otherwise -1 or the first occurrence at or after the clamped start |
| `PyStr.FindEmptyPastEnd` | __main__.py:125 | `"abc".find("", 3)` is 3 and `"abc".find("", 5)` is -1 |
| `PyStr.RFindSpec` | __main__.py:113 | `str.rfind`: -1, or an occurrence with none after it |
| `PyStr.CountZeroIffNoOccurrence` | __main__.py:122 | the non-overlapping count is 0 exactly when the pattern occurs nowhere |
| `PyStr.CountZeroIffAbsent` | __main__.py:122 | the non-overlapping count is 0 exactly when `rfind` finds nothing |
| `PyStr.Strip` | __main__.py:221 | `strip()` returns the infix left after removing leading and trailing whitespace, and it neither starts nor ends with whitespace |
| `PyStr.RemovePrefix` | __main__.py:221 | `removeprefix`: prefix + result is the input when it starts with the prefix, otherwise the input is unchanged |
| `PyStr.SplitOnceAtSpace` | __main__.py:222 | `split(" ", 1)`: one part (the whole text) exactly when there is no space; otherwise head + " " + rest is the text and the head has no space |
| `MessageSplit.SplitMessage` | __main__.py:99-105 | raises exactly when threshold < 5 (5 itself is accepted); returns `(message, None)` exactly when the message is shorter than threshold − 5 |
| `MessageSplit.CutAtNewline` | __main__.py:107-115 | with a newline at `ln` in the head and none after it, the parts are `message[:ln]` and `message[ln+1:]`; the newline is consumed and part + "\n" + rest is the message |
| `MessageSplit.CutWithoutNewline` | __main__.py:113-115 | with no newline in the head, the first part is the head minus its last character and the second is the whole message |
| `MessageSplit.RebalanceFences` | __main__.py:117-133 | afterwards the first part's fence count is even; an even count inserts nothing; an odd count appends "\n```" to the first part and prepends "```" + tag + "\n" to the second |
| `MessageSplit.CountAfterCloser` | __main__.py:130 | appending "\n```" adds exactly one non-overlapping fence |
| `MessageSplit.FenceTagUpToNewline` | __main__.py:123-128 | the tag is the text between the last fence and the next newline, and it holds no newline |
| `MessageSplit.FenceTagWithoutNewline` | __main__.py:123-128 | with no newline after the last fence, the `-1` slice end drops the last character; the tag is empty when the slice has 3 characters or fewer |
| `MessageSplit.SplitAtNewline` | __main__.py:109-133 | newline case end to end: the parts are `message[:ln]` and `message[ln+1:]`, with the closer and re-opener exactly when the head's fence count is odd |
| `MessageSplit.SplitWithoutNewline` | __main__.py:113-133 | no-newline case end to end: the second part is the whole message, re-opened when the fence count is odd |
| `MessageSplit.SplitAtNewlineOpenFence` | __main__.py:120-131 | with an odd fence count and tag `tag`, the result is `(head + "\n```", "```" + tag + "\n" + rest)` |
| `MessageSplit.SplitFirstBounded` | __main__.py:100-130 | whenever a split happens, the first part has at most threshold − 2 characters and an even fence count |
| `MessageSplit.SplitDuplicatesExample` | __main__.py:113-115 | `split_message("abcdefghij", 10) == ("abcd", "abcdefghij")`: the text is duplicated |
| `MessageSplit.SplitReopensFenceExample` | __main__.py:120-131 | a ```` ```py ```` block cut open is closed in the first part and re-opened as ```` ```py ```` in the second |
| `Conversation.ConversationHistory.constructor` | __main__.py:46-56 | a new history is exactly `[{system role: system prompt}]` |
| `Conversation.ConversationHistory.InitPrompt` | __main__.py:58-59 | the initial prompt is one entry: the system role with the system prompt |
| `Conversation.ConversationHistory.AddUserPrompt` | __main__.py:61-65 | appends exactly one `{user role: prompt}` entry, keeps the earlier entries, and returns the list |
| `Conversation.ConversationHistory.Clean` | __main__.py:67-68 | resets the history to exactly `[{system role: system prompt}]` |
| `Commands.ParseCommandLine` | __main__.py:216-226 | ignores the bot's own messages and unprefixed ones; otherwise command and argument come from the trimmed text after the prefix: no space gives (text, None), else command + " " + argument == text with no space in the command |
| `Commands.Dispatch` | __main__.py:228-237 | a completion request exactly when the parsed command is `llm`, carrying its argument; the help exactly when it is `llm-help`; nothing otherwise |
| `Commands.InferenceExample` | __main__.py:216-232 | "$llm tell me a joke" requests a completion of "tell me a joke", and is ignored when the bot sent it |
| `Commands.HelpExample` | __main__.py:234-237 | "$llm-help" shows the help |
| `LlamaMock.FindNextSeparator` | tests/llama_backend_tests.py:15-19 | None exactly when no character is a separator; otherwise the smallest index of a separator |
| `LlamaMock.LlamaMockServer.constructor` | tests/llama_backend_tests.py:22-26 | stores the timeout, alive, empty response |
| `LlamaMock.LlamaMockServer.GetStreamedCompletion` | tests/llama_backend_tests.py:28-35 | the chunks join to the response; every non-final chunk is non-empty, ends with its only separator and has stop unset; the last chunk has stop set and no separator |
| `LlamaMock.FirstChunk` | tests/llama_backend_tests.py:29-33 | the first chunk is the whole separator-free response, or the response up to its first separator followed by a well-chunked rest |
| `LlamaMock.WellChunkedUnique` | tests/llama_backend_tests.py:28-35 | at most one chunking of a response has those properties, so they determine the loop's output |
| `LlamaMock.SeparatorFreeSingleChunk` | tests/llama_backend_tests.py:35 | an empty or separator-free response is one chunk, the whole text, with stop set |
| `LlamaMock.DummyResponseChunks` | tests/llama_backend_tests.py:68-78 | "This is a dummy response" chunks to "This ", "is ", "a ", "dummy ", "response" (stop) |
| `MessageTable.MaxPosition` | unllamabot/bot_database.py:519-527 | `ORDER BY position DESC LIMIT 1`: None exactly when the user has no rows, else a position of theirs that no other of their rows exceeds |
| `MessageTable.FetchOne` | unllamabot/bot_database.py:366-382 | `fetchone()`: None exactly when no row matches the WHERE clause, else a stored matching row |
| `MessageTable.NextRowId` | unllamabot/bot_database.py:436-441 | the id SQLite gives an inserted row is larger than every stored id |
| `MessageTable.WithSystemPrompt` | unllamabot/bot_database.py:274-276 | rewriting system messages changes no id, owner or position |
| `MessageTable.SystemPromptRewrite` | unllamabot/bot_database.py:274-276 | only the target user's conversation changes, and only the text of its SYSTEM-role messages |
| `MessageTable.UserMessagesSorted` | unllamabot/bot_database.py:385-388 | a user's rows in table order are in position order, as `ORDER BY position ASC` returns them |
| `MessageTable.NextPositionIsCount` | unllamabot/bot_database.py:519-527 | in a contiguous table, the next position of a user is the length of their conversation |
| `MessageTable.AppendNextRow` | unllamabot/bot_database.py:436-441 | inserting at the next id and the user's max position + 1 keeps ids increasing and positions sorted |
| `MessageTable.ContiguousAppend` | unllamabot/bot_database.py:436-441 | appending at the conversation's length keeps every conversation numbered 0..n−1 |
| `MessageTable.SameIdSameRow` | unllamabot/bot_database.py:509-510 | the id primary key identifies a row |
| `MessageTable.LaterRows` | unllamabot/bot_database.py:444-447 | the ids fetched by `_get_user_messages_ids_and_position_from` are exactly those of the user's rows after the position, and each names its row |
| `MessageTable.MovedDownStep` | unllamabot/bot_database.py:449-452 | one `UPDATE … SET position WHERE id` of the batch moves exactly one more selected row down |
| `MessageTable.MovedDownLater` | unllamabot/bot_database.py:444-452 | the whole batch of updates moves down exactly the user's rows after the deleted position |
| `MessageTable.LaterPositionsSorted` | unllamabot/bot_database.py:529-540 | the fetched (id, position) pairs all lie past the position and come in position order |
| `MessageTable.WhereRemovesOne` | unllamabot/bot_database.py:454 | deleting by a stored id removes that row and no other |
| `MessageTable.DeletionKeepsOrder` | unllamabot/bot_database.py:443-454 | deletion keeps ids increasing, positions sorted, and every row's owner |
| `MessageTable.DeleteKeepsOtherUsers` | unllamabot/bot_database.py:443-454 | deleting a stored message leaves every other user's conversation unchanged |
| `MessageTable.DeleteRenumbersOwnUser` | unllamabot/bot_database.py:443-454 | the user's conversation loses the message, and every later message moves down one place |
| `MessageTable.DeleteStoredMessage` | unllamabot/bot_database.py:443-454 | after deleting a stored message, every conversation is still numbered 0..n−1, and the conversation is one shorter |
| `MessageTable.DeleteUserRows` | unllamabot/bot_database.py:509-511 | the cascade empties the user's conversation and leaves all others unchanged |
| `MessageTable.UserRemovalKeepsOrder` | unllamabot/bot_database.py:472-475 | removing a user's rows keeps ids increasing, positions sorted and every remaining row owned by another stored user; when no row is theirs (in particular when the user is not stored) nothing changes |
| `MessageTable.ContiguousWithoutUser` | unllamabot/bot_database.py:472-475 | removing a user's rows keeps every other conversation numbered 0..n−1 |
| `BotDb.StoredBool` | unllamabot/bot_database.py:287-290 | `int(bool(raw))` stores 0 exactly for the empty string, and 1 otherwise |
| `BotDb.FollowDefault` | unllamabot/bot_database.py:128-135 | exactly the users on the old default get the new prompt; no other field or user changes |
| `BotDb.FollowSameDefault` | unllamabot/bot_database.py:113-120 | `open` re-applying the current default changes no user |
| `BotDb.BotDatabase.constructor` | unllamabot/bot_database.py:107-111 | a store opened at once exactly when a path is given, with the given default and empty tables |
| `BotDb.BotDatabase.Open` | unllamabot/bot_database.py:113-120 | `DatabaseAlreadyOpen` when open; otherwise opens; the tables and default are unchanged |
| `BotDb.BotDatabase.Close` | unllamabot/bot_database.py:122-125 | `DatabaseNotOpen` when closed; otherwise closes |
| `BotDb.BotDatabase.ChangeGlobalDefaultSystemPrompt` | unllamabot/bot_database.py:127-135 | gated; returns the number of users on the old default, moves exactly those users to the new prompt, and makes it the default |
| `BotDb.BotDatabase.GetUser` | unllamabot/bot_database.py:137-213 | gated; Some exactly for a stored user, carrying their prompt and parameters |
| `BotDb.BotDatabase.UserExists` | unllamabot/bot_database.py:249-252 | gated; whether the id is stored |
| `BotDb.BotDatabase.AddUser` | unllamabot/bot_database.py:222-241 | gated; True and inserted with the given or default prompt for a new id; False and unchanged for an existing one |
| `BotDb.BotDatabase.GetOrCreateUser` | unllamabot/bot_database.py:215-220 | gated; an existing user is returned unchanged (a supplied prompt is ignored); a missing one is created with the given or default prompt |
| `BotDb.BotDatabase.DeleteUser` | unllamabot/bot_database.py:243-247 | gated; True exactly when the user existed; the user and, by cascade, exactly their messages are gone |
| `BotDb.BotDatabase.ChangeUserSystemPrompt` | unllamabot/bot_database.py:254-277 | gated; a missing user is created with the prompt or gets `UserDoesNotExist`; an existing one gets the prompt, and so do the SYSTEM messages of that user only |
| `BotDb.ParameterTypeOf` | unllamabot/bot_database.py:316-354 | the type each settable parameter is converted with: `penalize_nl` is exactly the one boolean, and "samplers" has no type |
| `BotDb.BotDatabase.SetUserGenerationParameter` | unllamabot/bot_database.py:302-358 | gated; a missing user is created first or gets `UserDoesNotExist`; "samplers", unknown names and unparsable values give the source's `ParameterSetError` texts and change nothing more; otherwise, for a value within SQLite's 64-bit INTEGER range, it stores the value and returns (old, new) |
| `BotDb.BotDatabase.UserHasMessages` | unllamabot/bot_database.py:360-363 | gated; whether some message belongs to the user |
| `BotDb.BotDatabase.GetMessage` | unllamabot/bot_database.py:365-382 | gated; None exactly when no row has the id, else the stored row with it |
| `BotDb.BotDatabase.GetUserMessages` | unllamabot/bot_database.py:384-404 | gated; exactly the user's messages, in position order; positions 0..n−1 when contiguous |
| `BotDb.BotDatabase.GetNthUserMessage` | unllamabot/bot_database.py:406-414 | gated; the row at (user, position); in a contiguous table, the conversation's element at that index, or None outside it |
| `BotDb.BotDatabase.AddMessage` | unllamabot/bot_database.py:416-441 | gated; a missing user is created or gets `UserDoesNotExist`; `CouldNotCreateUser` never happens; the row is appended at max position + 1 (0 for a new conversation) and at the conversation's end |
| `BotDb.BotDatabase.NextUserMessagePosition` | unllamabot/bot_database.py:518-527 | gated; above every position of the user, 0 without messages, the conversation's length when contiguous |
| `BotDb.BotDatabase.GetUserMessagesIdsAndPositionFrom` | unllamabot/bot_database.py:529-540 | gated; the (id, position) pairs of the user's rows after `from`, in position order |
| `BotDb.BotDatabase.DeleteMessage` | unllamabot/bot_database.py:443-454 | gated; later positions of the user go down by one, then the id is deleted; for a stored message the conversation loses it and stays 0..n−1, and other users are untouched |
| `BotDb.BotDatabase.DeleteMessageById` | unllamabot/bot_database.py:456-462 | gated; False and no change when no row has the id; otherwise the row's deletion |
| `BotDb.BotDatabase.DeleteUserMessageByPosition` | unllamabot/bot_database.py:464-470 | gated; False and no change when nothing is at the position; otherwise that message's deletion, with the renumbered conversation |
| `BotDb.BotDatabase.ClearUserMessages` | unllamabot/bot_database.py:472-475 | gated; exactly the user's messages go and the others stay; no change for an unknown user |

## Left out

- Discord I/O is not modelled: the client, `on_ready`, presence, sending and editing replies, typing indicators, and `request_and_process_llm_response` with its edit cooldown and wall-clock timing. They are event-driven calls into a foreign SDK.
- `generate_streamed_llm_response` and chat formatting are not modelled. They rely on a tokenizer and jinja2 templates, which are foreign libraries.
- `current_time_ms` and `update_help_message` are not modelled: they are float clock time and a global string.
- The buffered stream coordinator that tests/llama_backend_tests.py:81-273 exercises is not modelled; `unllamabot/llama_backend.py` defines only a constructor.
- `Commands.Dispatch` does not model what the two commands then do: the completion request, and sending the help text. Both are Discord/LLM I/O. `llm-reset` is not dispatched in the code either.
- SQLite is replaced by in-memory tables:
  - the connection, transactions and the ISO datetime adapters are not modelled;
  - the timestamp is an opaque integer, and `datetime.now()` is the `now` parameter of `AddMessage`;
  - `ORDER BY position` ties can arise within a user only after `DeleteMessage` of a message that is not stored. The model then answers in table (row-id) order, where SQLite leaves the order of ties unspecified.
- `BotDb.BotDatabase.DeleteMessage` given a message that is not stored (including a copy fetched before an earlier deletion renumbered the conversation) renumbers the user's later messages as the source does, then deletes whichever row now has that id, which after id reuse may be another user's; its `Contiguous` guarantee covers only a stored message.
- The constructor and `Open` stand for a database file that starts empty. Opening an existing file with contents is not modelled. The tables persist across `Close`/`Open`, as they do when the same file is reopened; a different path, or ":memory:" as in tests/bot_database_tests.py:15, would start empty, and that is not modelled.
- `BotDb.BotDatabase.SetUserGenerationParameter` does not model Python's `float()` and `int()` text conversions or the floating-point values they produce. The conversion's outcome is the `converted` parameter (`None` when Python raises ValueError). Stored values are kept as their text. The boolean conversion is modelled exactly.
- `BotDb.BotDatabase.GetUser` returns the parameters that have been set as a map. The source returns the dataclass's 19 optional fields, plus `samplers`, which is never settable. `penalize_nl` is returned as `penalize_nl == 1` (unllamabot/bot_database.py:204), so an unset value reads False rather than None; the map leaves it absent.
- `BotDb.BotDatabase.SetUserGenerationParameter` assumes an int-typed value fits in a signed 64-bit SQLite INTEGER. Outside [-2^63, 2^63-1] the source's bind raises `OverflowError`, which `except ValueError` does not catch (unllamabot/bot_database.py:292-294), so the source stores nothing and the exception escapes; the model stores the value and returns `Ok`.
- `BotDb.BotDatabase`: user ids, positions and message ids are unbounded integers. Every query binding one outside [-2^63, 2^63-1] raises `OverflowError` in the source; that outcome is not modelled.
- New message ids are "largest id + 1". Row-id overflow at 2^63 and SQLite's random-id fallback are not modelled.
- `Conversation.ConversationHistory.constructor` takes both role names as required parameters. The source defaults them to "user" and "system" (__main__.py:50-51).
- `BotDb.BotDatabase.constructor` takes the default system prompt as a required parameter. The source defaults `default_system_prompt` to "" (unllamabot/bot_database.py:107).
- `Conversation.ConversationHistory.AddUserPrompt` returns the history as a value. The Python list it returns is aliased to the object's field, so a caller's later changes to it would show in the history; that aliasing is not modelled.
- `LlamaMock` does not model the async generator's suspension between chunks, `is_alive`, `props` or the request argument. The chunks are returned as a sequence.
- bot_config.py and bot_core.py are not part of this model. They cover TOML configuration and the orchestration over the store and backend.
