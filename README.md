# Chat transcript formatter and session, in Dafny

This project models the chat client of a retrieval-augmented motorsports
assistant: the React component `Chat` in `web/src/components/Chat.tsx`.
It has two parts, kept in the component's own terms.

* **The transcript formatter `formatMessageText`** (module `Transcript`).
  It takes one raw message text and splits it on `"\nResponse: "`. When
  there are exactly two parts, the first becomes a query label, with the
  first `"Query: "` removed by `String.prototype.replace`. The second part
  is then split on the regular expression `/\*\*\*|\*\*/`. Each chunk is
  classified by its index: odd indices are bold; even indices with
  `index % 3 == 2` are highlighted; all other chunks are split on `"\n"`
  into bullet lines and plain lines, and the plain lines carry a break
  after every line except the last. For any other number of parts, the
  whole text is shown unchanged. The rendered JSX is a datatype
  (`Rendered`, `Chunk`, `Line`) without its styling.
* **The session state of `Chat`** (module `ChatSession`). The class
  `ChatSession.Chat` holds the message log, the text of the input field
  and the loading flag. Its methods handle:
  * the history load on mount, which succeeds or fails;
  * `handleSendMessage` and its `.then`/`.finally` continuations;
  * typing into the field;
  * `handleKeyPress`.

  HTTP replies arrive as method arguments. A request in flight is
  remembered in `pending` by the input it captured, as the closure in the
  source does.

The module `JsString` models the JavaScript string built-ins the component
calls: `split` with a string separator, `replace` with a string pattern,
`startsWith`, and `trim` over JavaScript's WhiteSpace and LineTerminator
set. `substring(1)` is a slice. `IndexOf` is the leftmost search that both
`split` and `replace` perform. `Contains`, `Join` and `CountOcc` are the
model's own helpers for stating properties; the component does not call
`includes` or `join`.

### Behaviour worth noting

* In `"a**b**c"` the chunk `c` has index 2, and `2 % 3 == 2`, so it is
  highlighted (`Transcript.BoldThenHighlight`).
* The regular expression matches only `**` and `***`, so a single `*` is
  never a delimiter (`Transcript.SingleStarIsNotDelimiter`).
* `replace("Query: ", "")` removes the first occurrence of `"Query: "`
  wherever it is in the query (`JsString.ReplaceFirstAt`).
* A successful answer appends a second, non-user entry after the user's
  own entry.
* A successful history load replaces the whole log. A failed load leaves
  the log as it is.
* The server stores `"Query: q\nResponse: r"` (api/app.py:26). The client
  rebuilds that as `"Query: Query: q\nResponse: r"`, so a reloaded
  exchange is labelled `"Query: q"`. The live exchange is labelled `"q"`
  (`ChatSession.ServerRecordReload`, `ChatSession.BotEntryRendering`).
* A stored string without the separator reloads with the response text
  `undefined`, which is what the template literal prints for a missing
  array element (`ChatSession.HistoryEntryText`).

## Model

| member | source | states |
|---|---|---|
| JsString.IndexOf | web/src/components/Chat.tsx:34 | The leftmost search inside `replace` (line 34) and `split` (lines 27, 58, 129); the component does not call `indexOf` itself. The result is the first position at or after `from` where the pattern occurs: it occurs there and at no earlier position. `None` means it occurs nowhere from `from` on. |
| JsString.StartsWith | web/src/components/Chat.tsx:59 | Definition of `startsWith`: the prefix occurs at position 0. `RenderLine` tests lines with it (line 59) and `StripQueryLabel` tests queries with it; their rows state what follows from it. |
| JsString.Split | web/src/components/Chat.tsx:27 | There is at least one part, no part contains the separator, and joining the parts with the separator gives back the input. |
| JsString.SplitCount | web/src/components/Chat.tsx:27-29 | For a separator that cannot overlap itself, the split has exactly one more part than the text has occurrences of the separator. |
| JsString.SplitJoinFree | web/src/components/Chat.tsx:27-30 | `q + sep + r` with separator-free `q` and `r` splits into exactly `[q, r]`. |
| JsString.SplitFirstTwo | web/src/components/Chat.tsx:129 | With one part, that part is the text. With two parts, part 0, the separator and part 1 make up the whole text. With more, they form a prefix of the text, followed at once by another separator, and the prefix holds exactly one separator. |
| JsString.ReplaceFirst | web/src/components/Chat.tsx:34 | Without an occurrence of the pattern, `replace` returns its input. With one, the result is the input minus one pattern plus one replacement in length. |
| JsString.ReplaceFirstAt | web/src/components/Chat.tsx:34 | `replace` rewrites the first occurrence of the pattern and keeps every later occurrence, shifted by the change in length. |
| JsString.TrimStart | web/src/components/Chat.tsx:59 | The result is a suffix of the input, everything removed is white space, and the result does not start with white space. |
| JsString.TrimEnd | web/src/components/Chat.tsx:59 | The result is a prefix of the input, everything removed is white space, and the result does not end with white space. |
| JsString.Trim | web/src/components/Chat.tsx:65 | The result is no longer than the input, and when it is not empty it neither starts nor ends with white space. |
| JsString.TrimSpec | web/src/components/Chat.tsx:59-65 | `trim` gives empty text exactly for all-white-space input. Otherwise the result starts and ends with a character that is not white space, and it sits in the input between two runs of white space. |
| Transcript.DelimiterMatch | web/src/components/Chat.tsx:37 | A match starts exactly where `**` occurs. It is three characters long exactly where `***` occurs, and two characters otherwise. The matched text is always `**` or `***`. |
| Transcript.DelimiterAt | web/src/components/Chat.tsx:37 | Definition of where the markup expression can match: `*` at `i` and at `i + 1`. `DelimiterMatch` states that this is exactly an occurrence of `**`. |
| Transcript.DelimiterLength | web/src/components/Chat.tsx:37 | Definition of the match length: 3 where `***` is tried first and succeeds, 2 where only `**` matches, 0 where nothing does. `DelimiterMatch` states this against occurrences of `***` and `**`. |
| Transcript.NextDelimiter | web/src/components/Chat.tsx:37 | The scan finds the leftmost match at or after `from`, with no match between `from` and it, or reports that there is none. |
| Transcript.NextDelimiterIsIndexOf | web/src/components/Chat.tsx:37 | The scan's first match is `indexOf("**")`. |
| Transcript.MarkupChunks | web/src/components/Chat.tsx:37 | The split of the response yields at least one chunk, and the first chunk is a prefix of the response. |
| Transcript.MarkupDelimiters | web/src/components/Chat.tsx:37 | There is one chunk more than the number of matched delimiters. |
| Transcript.MarkupDelimitersAreStars | web/src/components/Chat.tsx:37 | Every discarded delimiter is `**` or `***`. |
| Transcript.MarkupChunksFree | web/src/components/Chat.tsx:37 | No chunk contains `**`. |
| Transcript.MarkupSplitRejoins | web/src/components/Chat.tsx:37 | Putting the discarded delimiters back between the chunks, in order, reproduces the response exactly. |
| Transcript.ChunkBeforeDelimiter | web/src/components/Chat.tsx:37 | The split takes the leftmost match: a chunk before a delimiter is empty or does not end with `*`. For example, a split of `"a***b"` into `a*` and `b` around `**` violates it. |
| Transcript.TwoStarDelimiterNotFollowedByStar | web/src/components/Chat.tsx:37 | `***` is tried before `**`: a chunk that follows a discarded `**` is empty or does not start with `*`. |
| Transcript.TwoStarDelimiterThenChunk | web/src/components/Chat.tsx:37 | `***` is tried before `**`, so a discarded `**` with another delimiter after it is followed by a non-empty chunk. `"****"` splits as `["", "*"]` around one `***`, never as `["", "", ""]` around two `**`. |
| Transcript.SingleStarIsNotDelimiter | web/src/components/Chat.tsx:37 | A response without `**` is one chunk and has no delimiter, single asterisks included. |
| Transcript.TwoDelimiterChunks | web/src/components/Chat.tsx:37 | `a**b**c`, with star-free pieces and non-empty `b`, splits into `[a, b, c]`. |
| Transcript.RenderLineList | web/src/components/Chat.tsx:58-75 | There is one item per line, in order. The item at `j` renders line `j`, with a break exactly when `j` is not the last index. |
| Transcript.RenderLine | web/src/components/Chat.tsx:59-74 | Definition of one line's item. Its meaning is stated by `LineItemAt`, `StarlessLineIsPlain`, `StarLineIsBullet` and `BulletTextTrimmed`. |
| Transcript.RenderLines | web/src/components/Chat.tsx:58 | Definition of a chunk's line items. `LineCount` and `LineItemAt` state its length and its items. |
| Transcript.RenderChunk | web/src/components/Chat.tsx:38-76 | Definition of the classification of one chunk. `ChunkKinds` states that the three kinds are exclusive and depend only on the index. |
| Transcript.RenderBody | web/src/components/Chat.tsx:37 | Definition of the body as the classified chunks of the markup split. `BodyChunkKinds` states its length and its entries. |
| Transcript.StripQueryLabel | web/src/components/Chat.tsx:34 | A query starting with `"Query: "` loses exactly that prefix. A query without `"Query: "` is kept unchanged. |
| Transcript.RenderChunks | web/src/components/Chat.tsx:37-77 | There is one rendered chunk per chunk, and each is classified by its own index. |
| Transcript.FormatMessageText | web/src/components/Chat.tsx:25-84 | The fallback shows the text unchanged, and an exchange has at least one body chunk. |
| Transcript.FormatFallback | web/src/components/Chat.tsx:27-29 | The output is the whole text unchanged exactly when the separator occurs zero times or at least twice (line 83). Otherwise it is an exchange. |
| Transcript.FormatPair | web/src/components/Chat.tsx:27-37 | A separator-free query and response joined by the separator format as the exchange of the stripped query and the rendered response. |
| Transcript.FormatSingleSeparator | web/src/components/Chat.tsx:29-37 | With exactly one separator, at `k`, the label is the text before `k` with its first `"Query: "` removed, and the body renders the text after the separator. |
| Transcript.QueryLabelStripsOnce | web/src/components/Chat.tsx:34 | Removing the label from `"Query: " + q` leaves `q` exactly, including any later `"Query: "` inside `q`. |
| Transcript.ChunkKinds | web/src/components/Chat.tsx:38-76 | The three classes are exclusive and depend on the index alone: bold exactly for odd indices, highlight exactly for `i % 6 == 2`, lines exactly for `i % 6` in {0, 4}. Spans keep the chunk's text; line blocks render the chunk's lines. |
| Transcript.BodyChunkKinds | web/src/components/Chat.tsx:37-77 | The body has one entry per chunk, and entry `i` is chunk `i` classified as above. |
| Transcript.LineCount | web/src/components/Chat.tsx:58 | A line block has one item per `"\n"`-separated line, which is one more than the number of newlines. |
| Transcript.LineItemAt | web/src/components/Chat.tsx:58-74 | Item `j` is a bullet exactly when line `j` trimmed starts with `*`. A bullet holds the trimmed line minus its first character, trimmed again. Any other line is kept verbatim, with a break exactly when it is not last. |
| Transcript.PlainLinesRejoin | web/src/components/Chat.tsx:69-74 | When no line is a bullet, joining the plain texts with `"\n"` gives back the chunk. |
| Transcript.BulletTextTrimmed | web/src/components/Chat.tsx:65 | A bullet's text neither starts nor ends with white space. |
| Transcript.StarlessLineIsPlain | web/src/components/Chat.tsx:59 | A line without `*` is a plain line, kept verbatim. |
| Transcript.StarLineIsBullet | web/src/components/Chat.tsx:59-65 | The line `"* x"`, where `x` does not start or end with white space, is the bullet `x`. |
| Transcript.BoldThenHighlightBody | web/src/components/Chat.tsx:37-56 | The response `a**b**c` renders as the plain line `a`, bold `b` and highlighted `c`. |
| Transcript.BoldThenHighlight | web/src/components/Chat.tsx:29-56 | `"Query: q\nResponse: a**b**c"` formats as label `q`, plain `a`, bold `b`, highlighted `c`. |
| Transcript.IntroThenBullets | web/src/components/Chat.tsx:58-74 | The response `"intro\n* x\n* y"` is one line block: the plain line `intro` with a break, then the bullets `x` and `y`. |
| ChatSession.Blank | web/src/components/Chat.tsx:148 | `!s.trim()` holds exactly when every character of the text is white space. |
| ChatSession.UserEntry | web/src/components/Chat.tsx:150-154 | Definition of the user's entry. `UserEntryRendering` states how it formats. |
| ChatSession.BotEntry | web/src/components/Chat.tsx:163-167 | Definition of the answer entry. `BotEntryRendering` states that its text is the server's record and how it formats. |
| ChatSession.HistoryEntry | web/src/components/Chat.tsx:129-134 | Definition of one rebuilt entry. `HistoryEntryText` and `HistoryEntryRendering` state its text and how it formats. |
| ChatSession.HistoryEntries | web/src/components/Chat.tsx:128-135 | There is one rebuilt, non-user entry per fetched string, in order. |
| ChatSession.HistoryEntryText | web/src/components/Chat.tsx:129-131 | A rebuilt entry starts with `"Query: "`. With no separator in the stored string, it is `"Query: " + stored + "\nResponse: undefined"`. With one separator, it is `"Query: " + stored`. With more, it is `"Query: "` plus the stored string cut just before its second separator. |
| ChatSession.HistoryEntryRendering | web/src/components/Chat.tsx:129-131 | Every rebuilt entry formats as an exchange, never as a whole text. The label is part 0 of the stored string and the body renders part 1, or `undefined`. |
| ChatSession.ServerRecordReload | api/app.py:26 | A record stored by the server reloads as `"Query: "` plus the record, and formats with the label `"Query: " + query` and the body of the response. |
| ChatSession.ServerRecord | api/app.py:26 | Definition of the stored record: `Query: `, the query, a new line and `Response: `, then the response. `ServerRecordReload` and `BotEntryRendering` state how it reloads and how it formats. |
| ChatSession.BotEntryRendering | web/src/components/Chat.tsx:164 | The live answer entry has the same text as the server's record, and it formats with the label `query` and the body of the answer. |
| ChatSession.UserEntryRendering | web/src/components/Chat.tsx:151 | The user's entry is shown whole, as `"Query: " + input`, unless the input holds exactly one separator. |
| ChatSession.Chat.constructor | web/src/components/Chat.tsx:113-115 | The log and the field start empty, and the component is not loading. |
| ChatSession.Chat.CanSend | web/src/components/Chat.tsx:371 | The button is enabled exactly when the field holds a character that is not white space and no request is in flight. |
| ChatSession.Chat.EditInput | web/src/components/Chat.tsx:343 | Typing, possible only while not loading, sets the field and changes nothing else. |
| ChatSession.Chat.Submit | web/src/components/Chat.tsx:147-157 | The call requires not loading, because the input and button are disabled while loading (lines 359, 371). The log grows exactly when the button is enabled. A blank input changes nothing. Otherwise exactly one user entry `"Query: " + input` is appended after the old log, the field is cleared, loading starts and the input is captured. |
| ChatSession.Chat.KeyPress | web/src/components/Chat.tsx:176-180 | Enter behaves as `Submit`: on a blank field nothing changes, and otherwise the user's entry is appended, the field is cleared and loading starts. Any other key changes nothing. |
| ChatSession.Chat.CompleteOk | web/src/components/Chat.tsx:162-172 | Exactly one non-user entry is appended after the old log. It echoes the input captured at submission, not the cleared field, together with the answer. Loading ends and the field is untouched. |
| ChatSession.Chat.CompleteFail | web/src/components/Chat.tsx:170-172 | Nothing is appended, loading ends and the field is untouched. |
| ChatSession.Chat.HistoryOk | web/src/components/Chat.tsx:127-136 | The log is replaced by the rebuilt entries, and the field and the loading state are unchanged. |
| ChatSession.Chat.HistoryFail | web/src/components/Chat.tsx:138 | A failed history load changes nothing. |

## Left out

- Styling and layout are not modelled: the Chakra components, colours, avatars, the welcome screen and the loading bubble are presentation only. The React `key` attributes are also left out.
- Scrolling (`scrollToBottom` and its effect) is a DOM side effect and is not modelled.
- The HTTP calls are not modelled. Their replies are method arguments instead: the fetched strings for `HistoryOk` and the answer for `CompleteOk`.
- Timestamps are not modelled, because `new Date()` and `toLocaleTimeString` depend on the clock and the locale. `ChatMessage` has no timestamp field.
- Logging to the console on a failed history load is not modelled.
- Asynchronous interleaving is modelled only as an order of whole handler steps; each handler runs to completion.
  - A history reply that arrives after a submission is modelled. `HistoryOk` may run while a request is in flight, and it then replaces the log, the user's entry included, as `setMessages(previousMessages)` does.
  - The `messages` array captured by the closure at line 155 is not modelled: `Submit` appends to the current log, so a history reply that lands between a render and a submission is not lost in the model as it could be in the source.
- ChatSession.Chat.CompleteOk: `.then` and `.finally` are taken as one step. The moment in between, when the answer is appended but loading has not yet ended, is not a separate state. The field stays disabled during it, so no handler can run there.
- ChatSession.Chat.CompleteFail: a failed POST has no `catch`. Only `.finally` runs, and the unhandled rejection is not modelled.
- ChatSession.Chat.CompleteOk: the answer is a string. A reply without a string `response` field, which JavaScript would print as `undefined` or `[object Object]`, is not modelled.
- ChatSession.HistoryEntries: the fetched history is a sequence of strings. A reply whose `messages` is missing or holds non-strings would throw in the source; that case is not modelled.
- Characters are Unicode scalar values, while JavaScript strings are UTF-16 code units. The formatter only ever cuts at `*`, at newlines and at white space, and all of these are single code units, so its result does not change.
- JsString.Split: only non-empty string separators are modelled, because the formatter uses no other kind. `split` on the empty string is not modelled.
- The chat assistant behind the POST (api/agent.py) is not part of this model: it wraps retrieval and language-model libraries that cannot be seen.
- The Flask route and Redis store (api/app.py) are not part of this model. Only the string format they store, line 26, appears, in `ServerRecord`.
- Configuration (api/config.py) and theme bootstrap (web/src/App.tsx) are not part of this model.
