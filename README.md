# chatbot.py IRC bot: a verified model of its connection and dispatch core

`chatbot.py` is an IRC client that relays messages addressed to it to a chat
completion service and posts the replies back. This project models its core
in Dafny and proves properties of that model:

- **Framing** (`IRCBot.send`, the buffer of `IRCBot.listen`): every command
  goes out as the message followed by CRLF. Incoming text is appended to a
  buffer, split on CRLF, and its last piece is kept as the new buffer.
- **Registration** (`IRCBot.connect`): once the transport is up, the bot sends
  PASS (only when a non-empty password is configured), NICK, USER, and one
  JOIN per configured channel.
- **The read loop** (`IRCBot.listen`): each complete line binds the loop
  variable `line`.
  - A line starting with `PING` raises, because `self.send_raw` does not
    exist.
  - A line containing `INVITE` sends `JOIN` with the fourth word minus its
    first character. It raises when the line has fewer than four words.
  - After the loop, `handle_message` runs once on whatever `line` holds. That
    is the last complete line of the read, or the previous read's line when
    this read completed none. It raises when no line was ever bound.
  - Any exception ends the current pass. The buffer has already moved past
    all of the read's lines.
- **Dispatch** (`IRCBot.handle_message`): the line is split with
  `split(" ", 3)`. It is a PRIVMSG when it has four parts and the second is
  `PRIVMSG`.
  - The sender is `prefix.split("!")[0][1:]`. The text is the fourth part
    minus its first character.
  - A text that starts with the nickname is answered. The prompt is the rest
    after the nickname, whitespace-stripped.
  - The reply `PRIVMSG <target> :<user>: <reply>` goes to the channel. For a
    private message, it goes to the sender.
- **Conversation memory** (`ChatGPTBot.respond`):
  - Each completion request carries the system prompt, then the user's
    stored history, then the new message.
  - Reading a history creates an empty entry for a new user (a
    `defaultdict`).
  - A reply appends the user/assistant pair. When that makes the history
    longer than 20 entries, it is cut back to the latest 19.

The model has five modules:

- `PyStr` gives the Python string operations the code relies on:
  - `find`/`in`, `split(sep, maxsplit)` and `split()`;
  - `strip()`, `startswith` and `s[1:]`.
- `Protocol` holds the wire-level functions:
  - framing and the handshake command list;
  - the per-line PING/INVITE effect;
  - the PRIVMSG parser and router.
- `ChatGpt` holds the history functions and the class `ChatGptBot`.
- `Dispatch` specifies `handle_message` and one pass of the read loop as
  functions of the state they start from.
- `Bot` holds the class `IrcBot`. Its methods are proved against those
  functions:
  - `Send`, `Connect` and `HandleMessage`;
  - `CheckLine`, the body of the `for` loop;
  - `RunBatch`, the `for` loop itself;
  - `Step`, one pass of the `while True` loop.

Effects outside the program are modelled as follows:

- Each read is a string parameter of `Step`.
- The completion service is a function parameter from the request's message
  list to `Some(reply)`, or `None` when the call raises.
- `IrcBot` records the messages handed to `send`, in order. `Wire()` is
  their CRLF framing: what the socket receives when every `socket.send`
  call writes its whole buffer and does not raise. Short writes and
  failing writes are not modelled (see "## Left out").

The code is modelled as written, quirks included:

- The PING branch calls `send_raw`, which `IRCBot` does not define
  (chatbot.py:149), so a PING line raises and no PONG is sent.
- The call to `connect` in the exception handler is commented out
  (chatbot.py:160), so a failed pass does not reconnect.
- `.strip()` (chatbot.py:183) removes whitespace only, so a colon that
  follows the nickname stays in the prompt.
- The reply is sent as it is, in one `send` (chatbot.py:187), so a reply
  holding CRLF reaches the server as several lines.

## Model

| member | source | states |
|---|---|---|
| PyStr.Tail | chatbot.py:176 | `s[1:]`: the empty string stays empty; otherwise the string is its first character followed by the result |
| PyStr.IsSpace | chatbot.py:151 | the characters `split()` and `strip()` treat as whitespace: CPython's set, which takes in U+0009–U+000D, U+001C–U+001F, the space, U+0085, U+00A0, U+1680, U+2000–U+200A, U+2028, U+2029, U+202F, U+205F and U+3000 |
| PyStr.IndexFrom | chatbot.py:150 | the index returned is an occurrence at or after `from` with none between `from` and it; None means no occurrence at or after `from` |
| PyStr.Find | chatbot.py:150 | the first occurrence of `sub`, none before it; None exactly when `sub` occurs nowhere |
| PyStr.ContainsIff | chatbot.py:150 | `sub in s` holds exactly when `sub` occurs at some index of `s` |
| PyStr.MissingCharNotContained | chatbot.py:174 | a string lacking the first character of `sep` does not contain `sep` |
| PyStr.Split | chatbot.py:143 | `split` never returns an empty list and makes at most `maxsplit` splits when the limit is non-negative |
| PyStr.SplitJoin | chatbot.py:143 | joining the pieces of `split(sep, maxsplit)` with `sep` gives back the original string |
| PyStr.SplitPieces | chatbot.py:165 | every piece but the last is free of `sep`; the last holds `sep` only when the split limit was reached |
| PyStr.JoinSplit | chatbot.py:143 | splitting the join of `sep`-free pieces (with a non-overlapping `sep`, no limit) gives back exactly those pieces |
| PyStr.SplitAfterPiece | chatbot.py:174 | with `x` free of `sep`, splitting `x + sep + y` yields `x` followed by the split of `y` with one split fewer |
| PyStr.SplitWhole | chatbot.py:174 | a string without `sep` splits into itself alone |
| PyStr.SplitAtPrefix | chatbot.py:183 | `s.split(p, 1)` for a string starting with non-empty `p` is the empty string and the rest after `p` |
| PyStr.SpanNonSpace | chatbot.py:151 | the length of the maximal leading run of non-whitespace characters |
| PyStr.WordsAreWords | chatbot.py:151 | every element of `split()` is non-empty and free of whitespace |
| PyStr.WordsEmptyIff | chatbot.py:151 | `split()` returns no word exactly when the string is all whitespace |
| PyStr.WordsJoin | chatbot.py:151 | `split()` of words joined by single spaces gives back the words |
| PyStr.StartsWith | chatbot.py:148 | `s.startswith(prefix)`: the first `len(prefix)` characters of `s` are `prefix`; false when `prefix` is longer than `s` |
| PyStr.Contains | chatbot.py:150 | `sub in s`: defined as `find` succeeding, so it holds exactly when `sub` occurs somewhere (see `ContainsIff`) |
| PyStr.Words | chatbot.py:151 | `s.split()`: skip whitespace, take the maximal run of non-whitespace as a word, repeat; pinned down by `WordsSpaced` |
| PyStr.WordsSkipSpace | chatbot.py:151 | leading whitespace of any kind and length does not change `split()` |
| PyStr.WordsPeel | chatbot.py:151 | a word followed by a non-empty whitespace run (or by nothing) is the first word of `split()`, which continues after the run |
| PyStr.WordsSpaced | chatbot.py:151 | `split()` of words separated by non-empty runs of any whitespace, with any leading and trailing whitespace, is exactly those words |
| PyStr.TrimStart | chatbot.py:183 | `lstrip()`: a suffix of the input, all-whitespace prefix removed, result not starting with whitespace |
| PyStr.TrimEnd | chatbot.py:183 | `rstrip()`: a prefix of the input, all-whitespace suffix removed, result not ending with whitespace |
| PyStr.Strip | chatbot.py:183 | the stripped prompt neither starts nor ends with whitespace |
| PyStr.StripOf | chatbot.py:183 | `strip()` of whitespace, a core not bounded by whitespace, and whitespace is exactly that core |
| Protocol.FramesAppend | chatbot.py:135-136 | what two runs of `send` write is what the first writes followed by what the second writes |
| Protocol.FramesJoin | chatbot.py:135-136 | framed lines followed by a remainder are those lines and the remainder joined by CRLF |
| Protocol.SplitLines | chatbot.py:142-144 | the complete lines, each followed by CRLF, then the new buffer, give back the data; the buffer holds no CRLF and no line holds one |
| Protocol.SplitFrames | chatbot.py:143 | splitting framed CRLF-free lines followed by `y` yields those lines followed by the split of `y` |
| Protocol.FramesThen | chatbot.py:142-144 | complete lines at the front of the data come out first and unchanged, whatever follows them |
| Protocol.Unframe | chatbot.py:142-144 | framing CRLF-free lines and a CRLF-free remainder and splitting again gives back the lines and the remainder |
| Protocol.FrameReadBack | chatbot.py:135-136 | one sent message is read back as exactly that one line if and only if it contains no CRLF |
| Protocol.FrameConcat | chatbot.py:142-144 | splitting `a + b` is splitting `a`, then splitting its remainder followed by `b` |
| Protocol.FeedAnyChunking | chatbot.py:139-144 | however the stream is cut into reads, the framed lines (in order) and the final buffer are those of the whole stream split at once |
| Protocol.Frame | chatbot.py:135-136 | what `send(message)` writes: the message followed by CRLF |
| Protocol.Frames | chatbot.py:135-136 | what a series of `send` calls writes: their frames concatenated in order |
| Protocol.Feed | chatbot.py:139-144 | the lines the read loop frames over a series of reads, in order, and the buffer left at the end (equal to one split of the whole stream by `FeedAnyChunking`) |
| Protocol.HasPassword | chatbot.py:120 | Python truthiness of the configured password: present and non-empty |
| Protocol.JoinAll | chatbot.py:126-127 | one `JOIN <channel>` per configured channel, in order |
| Protocol.Handshake | chatbot.py:120-127 | the handshake is PASS (only with a non-empty password), NICK, `USER <nick> 0 * :<nick>`, then a JOIN per channel, in that order and nothing else |
| Protocol.PassOnlyWithPassword | chatbot.py:120-121 | a PASS command appears only with a password set, and only first |
| Protocol.HandshakeReadBack | chatbot.py:120-127 | with no CR in the nickname, password and channels, the server reads back exactly the handshake commands and nothing is left over |
| Protocol.HandshakeSnoc | chatbot.py:126-127 | the handshake for one more channel ends with that channel's JOIN |
| Protocol.LineEffect | chatbot.py:148-155 | the body of the `for` loop for one line: a line starting with `PING` raises; otherwise a line containing `INVITE` raises when `split()` gives fewer than four words and else sends `JOIN` with the fourth word minus its first character; any other line does nothing |
| Protocol.JoinsOf | chatbot.py:146-155 | the JOIN commands the loop body sends for a list of lines, in line order |
| Protocol.JoinsOfAppend | chatbot.py:146-155 | the JOINs of two consecutive batches are those of the first followed by those of the second |
| Protocol.JoinsSnoc | chatbot.py:146-155 | one more line adds its own JOIN, if any, at the end |
| Protocol.RunLines | chatbot.py:146-155 | the `for` loop either visits every line, none of which raises, or stops at the first line that raises, having sent the JOINs of exactly the lines before the stop |
| Protocol.CleanBatch | chatbot.py:146-155 | a batch with no raising line visits every line and sends all their JOINs |
| Protocol.InviteLineHasWord | chatbot.py:150-152 | a line containing INVITE has a first word, so only the fourth word can be missing |
| Protocol.InviteJoins | chatbot.py:150-155 | an INVITE as servers send it (`:nick!user@host INVITE bot :#chan ...`) makes the bot send `JOIN #chan` |
| Protocol.FaultStopsBatch | chatbot.py:146-155 | the first raising line ends the loop: earlier lines' JOINs are sent, it is the last line bound, later lines are not looked at |
| Protocol.PingStopsBatch | chatbot.py:148-149 | a PING line raises (no `send_raw`) and ends the loop with no PONG sent |
| Protocol.ResumeStart | chatbot.py:146 | the batch resumed from its first line is the whole batch |
| Protocol.ResumeEnd | chatbot.py:146-155 | once every line has been visited, the loop has raised nothing and has sent the JOINs of all lines |
| Protocol.ResumeStep | chatbot.py:146-155 | line `i` either ends the loop with its exception or adds its JOIN and hands on to line `i + 1` |
| Protocol.ResumeToFault | chatbot.py:146-155 | from line `j` on, when no line before line `k` raises and line `k` does, the loop stops at line `k` having sent the JOINs of the lines before it |
| Protocol.NickOf | chatbot.py:174 | the sender of `:nick!user@host` (or of `:nick`) is `nick` |
| Protocol.Nick | chatbot.py:174 | the sender: the part of the prefix before the first `!`, minus its first character |
| Protocol.ParsePrivmsg | chatbot.py:165-176 | `split(" ", 3)`; fewer than four parts or a second part other than `PRIVMSG` is not a PRIVMSG; otherwise the sender's nickname, the third part as target and the fourth part minus its first character as text |
| Protocol.SplitFour | chatbot.py:165 | `split(" ", 3)` of four pieces, the first three without a space, is those four pieces |
| Protocol.PrivmsgOf | chatbot.py:165-176 | a PRIVMSG line with space-free prefix and target parses into the sender's nickname, the target and the text minus its first character, spaces kept |
| Protocol.PrivmsgShape | chatbot.py:165-176 | conversely, every line that parses as a PRIVMSG has that shape |
| Protocol.RouteMessage | chatbot.py:171-183 | a non-PRIVMSG line is ignored; a PRIVMSG is answered if and only if the nickname is non-empty and starts the text; the reply goes to the sender when sent to the bot's nickname, else to the target; the prompt is the stripped rest after the nickname; an empty nickname raises |
| Protocol.PromptOf | chatbot.py:182-183 | `:nick PRIVMSG target :<nickname><ws><core><ws>` asks with prompt `core`; characters after the nickname other than whitespace (a colon) are kept |
| Protocol.ReplyLine | chatbot.py:187 | the reply command `PRIVMSG <replyTo> :<user>: <reply>`, the reply text unchanged |
| Protocol.ReplyReadBack | chatbot.py:187 | the reply line, read back with a server prefix, is a PRIVMSG to the reply target whose text is `user: reply` |
| Protocol.ReplyWithCrlfSplits | chatbot.py:187 | a reply containing CRLF is not read back as the one reply line: it is sent unsanitised |
| ChatGpt.Capped | chatbot.py:77-78 | the trim: histories of at most 20 entries are kept whole; longer ones become their latest 19 entries |
| ChatGpt.Exchange | chatbot.py:73-78 | after a reply the history ends with the user message and the assistant reply, holds at most 20 entries, and is the old history plus the pair when that fits |
| ChatGpt.HistoryOf | chatbot.py:60-64 | `user_context[user]` of the `defaultdict`: the stored history, or the empty list for a user never seen |
| ChatGpt.Prompt | chatbot.py:64-65 | the request is the system prompt, then exactly the stored history, then the new user message |
| ChatGpt.Converse | chatbot.py:73-78 | answering a user stores the exchange under that user and changes no other user's history |
| ChatGpt.StoredHasNoSystem | chatbot.py:64-74 | stored histories never contain the system prompt; it is added fresh to each request |
| ChatGpt.ExchangeStored | chatbot.py:73-78 | an exchange keeps a history well formed: at most 20 entries, alternating roles, ending with the assistant |
| ChatGpt.ConverseStored | chatbot.py:73-78 | answering a user keeps every stored history well formed |
| ChatGpt.AppendTurnAlternates | chatbot.py:73-74 | appending the user message and the reply to an alternating history keeps the roles alternating, ending with the assistant |
| ChatGpt.SuffixAlternates | chatbot.py:77-78 | the trim keeps a suffix, and any suffix of an alternating history alternates |
| ChatGpt.CappedAbsorbs | chatbot.py:77-78 | trimming before appending anything but a single entry, then trimming again, is one trim of the whole |
| ChatGpt.Log | chatbot.py:73-74 | the user/assistant pairs of a series of exchanges flattened in order: two entries per exchange |
| ChatGpt.Replay | chatbot.py:73-78 | the history after answering a series of exchanges one at a time, each appended and trimmed; it never exceeds 20 entries when it starts within that bound |
| ChatGpt.ReplayIsCappedLog | chatbot.py:73-78 | trimming after every exchange leaves exactly one trim of the full log: the whole log while it has at most 20 entries, its latest 19 afterwards |
| ChatGpt.ReplayLength | chatbot.py:77-78 | from an empty history, after `n` exchanges the history has `2n` entries while that is at most 20, and 19 ever after |
| ChatGpt.ReadCreates | chatbot.py:60-64 | reading a missing user's history stores an empty list for that user and keeps every history well formed |
| ChatGpt.ChatGptBot.constructor | chatbot.py:57-60 | the bot starts with the given system prompt and no stored history |
| ChatGpt.ChatGptBot.Respond | chatbot.py:62-80 | the service receives the system prompt, the user's history and the message; on failure only the user's empty entry may have been created; on a reply the exchange is stored, trimmed, under that user alone |
| Dispatch.Act | chatbot.py:178-187 | handling sends at most one line, only when nothing raised; an ignored line changes nothing; no user's history is ever removed |
| Dispatch.Handle | chatbot.py:163-187 | a line that is not a PRIVMSG is handled without any effect; at most one line is sent |
| Dispatch.ActTouchesOnlyUser | chatbot.py:184 | only the asking user's history can change, and histories stay well formed |
| Dispatch.HandleTouchesOnlySender | chatbot.py:163-187 | `handle_message` changes no history but the sender's and keeps every history well formed |
| Dispatch.ActUnanswered | chatbot.py:184 | an asking line whose service call raises sends nothing, raises, and only stores the asker's history as read |
| Dispatch.ActAnswered | chatbot.py:184-187 | an asking line that gets a reply stores the exchange under the asker and sends exactly the reply line |
| Dispatch.HandleUnanswered | chatbot.py:184 | when the service raises, nothing is sent and only the sender's (possibly new, empty) entry is touched |
| Dispatch.HandleAnswered | chatbot.py:182-187 | when the service replies, the exchange is stored under the sender and exactly the one reply line is sent |
| Dispatch.AddressedIsAnswered | chatbot.py:171-187 | `:alice!u@h PRIVMSG #chan :bot  hello there ` is answered on `#chan` (or to `alice` when sent to the bot) with the reply to `hello there`, stored under `alice` |
| Dispatch.UnaddressedIsIgnored | chatbot.py:182 | a PRIVMSG whose text does not start with the nickname sends nothing and leaves the memory alone, whatever the service would say |
| Dispatch.ListenStep | chatbot.py:141-159 | after a read, the new buffer holds no CRLF, and the complete lines of the read followed by it give back the old buffer plus the read |
| Dispatch.Listen | chatbot.py:140-160 | the read loop over a series of reads: one pass per read, each starting from the state the last one left, whatever its outcome |
| Dispatch.ListenBufferIsFeed | chatbot.py:142-144 | after any series of reads, the read loop is left with the buffer `Feed` computes for those reads |
| Dispatch.ListenBufferOfStream | chatbot.py:142-144 | after any series of reads, the buffer is the unframed remainder of the whole stream split at once |
| Dispatch.PartialReadRepeatsLastLine | chatbot.py:142-156 | a read that completes no line handles the previous line again, so the last PRIVMSG is answered once more |
| Dispatch.FirstPartialReadFails | chatbot.py:139-159 | before any complete line was read, a read that completes none raises and sends nothing |
| Dispatch.OnlyLastLineHandled | chatbot.py:146-156 | of several lines completed by one read, only the last reaches `handle_message`; the others only get their INVITEs acted on |
| Dispatch.PingAbortsPass | chatbot.py:143-159 | a PING line ends the pass: no PONG, the lines after it are lost, nothing is handled, and `line` keeps the PING line |
| Bot.IrcBot.constructor | chatbot.py:86-95 | the bot keeps its nickname, channels and password, creates its conversation memory, and has sent nothing |
| Bot.IrcBot.Send | chatbot.py:135-136 | one message is appended to what was sent, and the wire grows by the message and CRLF |
| Bot.IrcBot.Connect | chatbot.py:120-127 | on a fresh connection, exactly the handshake commands are sent, in order |
| Bot.IrcBot.BeginListen | chatbot.py:139 | listening starts with an empty buffer and `line` unbound |
| Bot.IrcBot.HandleMessage | chatbot.py:163-187 | the sends, the new memory and the exception are those `Handle` specifies; the memory stays well formed |
| Bot.IrcBot.CheckLine | chatbot.py:148-155 | a PING line raises; an INVITE line with fewer than four words raises; any other INVITE line sends its JOIN; other lines do nothing |
| Bot.IrcBot.RunBatch | chatbot.py:146-155 | the loop sends the JOINs, raises the exception and leaves `line` bound as `RunLines` specifies |
| Bot.IrcBot.Step | chatbot.py:141-159 | one pass of the read loop leaves the buffer, `line` and memory, sends the messages and ends with the outcome `ListenStep` specifies, keeping the buffer CRLF-free |

## Left out

- Transport set-up in `connect` is not modelled: socket creation, binding to the source address, TLS wrapping without certificate checks, and the retry loop with a 5-second sleep (chatbot.py:107-118, 129-133). All of these are I/O. `Connect` starts at the first command sent on an open connection.
- `recv(4096)` and UTF-8 decoding (chatbot.py:142) are not modelled. Each read is given to `Step` as an already decoded string. A multi-byte character cut between two reads would raise a decoding error, which the model does not capture.
- The UTF-8 encoding in `send` (chatbot.py:136) is not modelled. The wire is modelled as characters, not bytes.
- The chat completion call (chatbot.py:67-72) is a parameter: a function from the request's message list to a reply, or to None when it raises. The model name, the network and the response object are not modelled. The `api_key` argument of `ChatGPTBot` and its assignment to the global `openai.api_key` (chatbot.py:57-58) are not modelled either: they only configure that call.
- Bot.IrcBot.Send: a failing or short `socket.send` (chatbot.py:136) is not modelled. `Send` always writes the whole message, and the model ignores the byte count `socket.send` returns. In the code, a raising send ends the read-loop pass like any other exception. In `handle_message`, such a raise comes after `respond` has stored the exchange (chatbot.py:184-187), so the history would keep a reply the user never received. The model does not capture either outcome.
- Console logging (`print`, chatbot.py:99, 109, 129, 132, 147, 154, 159) is not modelled. The inviter's nickname (chatbot.py:152) is not modelled either, because the code computes it only for logging.
- The `while True` of `listen` is not modelled as one method, because it never ends. `Step` is one pass of its body. `Dispatch.Listen` folds those passes over any finite series of reads.
- Thread start-up in `run` (chatbot.py:190-193) is not modelled. It only launches `listen` on a thread after `connect`.
- `update_config` (chatbot.py:97-104) is not modelled. It is the configuration hot-reload path: outside the connection and dispatch core, and driven by a file watcher. Configuration loading and watching (chatbot.py:1-54) are not modelled either.
- PONG replies and reconnecting after a failed pass are not modelled, because the code has neither (chatbot.py:149, 160).
