# WhatsApp bridge core in Dafny

This project models the two files that hold the logic of a WhatsApp ↔ Claude
bridge:

- `lib/whatsapp/client.ts` is the outbound client. It cuts a long reply into
  chunks that fit one WhatsApp text message (`splitMessage`). It sends those
  chunks one request at a time (`sendWhatsAppMessage`). It checks the HMAC-SHA256
  signature header of an inbound webhook delivery (`validateSignature`).
- `lib/whatsapp/claude.ts` is the conversation handler. It keeps an in-memory
  map from sender id to that sender's turns (`conversations`, `getHistory`,
  `trimHistory`, `MAX_HISTORY`). It answers slash commands, and otherwise makes
  one completion call per message (`handleMessage`).

Files:

- `wrappers.dfy` (module `Wrappers`): `Option`, for unset environment variables
  and absent headers.
- `jsstring.dfy` (module `JsString`): the JavaScript string built-ins the core
  uses. These are `trimStart`, `trim`, `toLowerCase`, `startsWith` and
  `lastIndexOf`, and the ECMAScript whitespace set. Each is a function. For
  `trimStart`, `trimEnd`, `trim` and `lastIndexOf`, a lemma beside it states
  what it computes. `toLowerCase` and `startsWith` are short enough to read
  directly.
- `client.dfy` (module `WhatsAppClient`): `splitMessage` is the method
  `SplitMessage`, with the same `while` loop. It is proved equal to the
  recursive specification `Split`, and `Split`'s properties are proved as
  lemmas. `sendWhatsAppMessage` is a method whose `while` loop walks the
  chunks as the source's `for` loop does, and leaves at the first exception.
  `validateSignature` is a function.
- `claude.dfy` (module `ClaudeConversation`): the `conversations` map is the
  field of the class `ConversationStore`. `getHistory` and `handleMessage` are
  its methods, and `trimHistory` is a method with the same `while` loop.

Environment variables are parameters: the WhatsApp token and phone-number id,
the app secret, and the Anthropic API key. Each is an `Option<string>`, and
`JsString.Truthy` models JavaScript's `!value` test, so an empty string counts
as unset. The network is also a parameter:

- `respond(i, request)` is how the i-th send request ends: a success status, a
  failure status, or an exception from `fetch` or from reading the failure body;
- `hmacSha256(key, message)` is the raw HMAC-SHA256 digest;
- `complete(history)` is the completion service's answer, either a response
  with content blocks or a thrown exception.

Three behaviours of the source worth knowing:

- Empty text gives the one chunk `""` (`client.ts:88`), not an empty sequence
  of chunks. `sendWhatsAppMessage` therefore sends one request with an empty body.
- The space breakpoint is accepted at any index from 1 on (`client.ts:104-106`).
  The upper-half rule applies only to the two line-break breakpoints.
- A stored history can hold `MAX_HISTORY + 1` = 41 turns. The assistant turn is
  pushed after the trim (`claude.ts:85`). Only the history handed to the
  completion call is bounded by 40.

## Model

| member | source | states |
|---|---|---|
| `JsString.TrimStartSpec` | lib/whatsapp/client.ts:109 | `trimStart` removes only whitespace, and all the leading whitespace: the input is the removed whitespace followed by the result, and the result is empty or starts with a non-whitespace character |
| `JsString.TrimSpec` | lib/whatsapp/claude.ts:51 | `trim` keeps one contiguous part of the text, removes only whitespace on either side, and leaves no whitespace at either end |
| `JsString.LastIndexOfSpec` | lib/whatsapp/client.ts:99-104 | `lastIndexOf(pat, from)` returns -1 or an index where `pat` starts, and `pat` starts nowhere after it up to `from` |
| `WhatsAppClient.SplitPoint` | lib/whatsapp/client.ts:99-106 | the cut index of an over-long remainder is between 1 and `maxLength`, so a chunk is never empty and never too long |
| `WhatsAppClient.SplitPointChoice` | lib/whatsapp/client.ts:99-106 | the breakpoint priority: the last "\n\n" at or before `maxLength` if it is in the upper half; else the last "\n" if that is in the upper half; else the last space at any index from 1 on; else exactly `maxLength` |
| `WhatsAppClient.PiecesStep` | lib/whatsapp/client.ts:108-109 | one loop turn: the chunk is the text before the cut, the text after the cut is whitespace followed by the new remainder, and that remainder starts with a non-whitespace character or is empty |
| `WhatsAppClient.PiecesBounds` | lib/whatsapp/client.ts:93-110 | the chunks of a non-empty remainder are all non-empty and at most `maxLength` long; an empty remainder gives no chunks; the first chunk is a prefix of the remainder |
| `WhatsAppClient.PiecesLossless` | lib/whatsapp/client.ts:93-110 | the remainder equals its chunks interleaved with whitespace-only gaps, and every chunk after the first starts with a non-whitespace character |
| `WhatsAppClient.SplitBounds` | lib/whatsapp/client.ts:87-113 | there is always at least one chunk; empty text gives exactly `[""]`; for non-empty text every chunk has length between 1 and `maxLength` |
| `WhatsAppClient.SplitLossless` | lib/whatsapp/client.ts:87-113 | `text == c0 + w0 + c1 + w1 + ... + ck + wk`, where the `ci` are the chunks and each `wi` is whitespace only (a trailing whitespace-only remainder is the dropped `wk`); every chunk after the first starts with a non-whitespace character |
| `WhatsAppClient.SplitAtParagraphExample` | lib/whatsapp/client.ts:99-109 | `"AAAA\n\nBBBB"` split at 6 gives `["AAAA", "BBBB"]`: the cut is at the paragraph break, not mid-word |
| `WhatsAppClient.SplitMessage` | lib/whatsapp/client.ts:87-113 | the loop returns exactly `Split(text, maxLength)`: `[text]` when the text fits, and otherwise the chunks of the recursive cut-and-trim specification, in order |
| `WhatsAppClient.FailedIndicesExact` | lib/whatsapp/client.ts:41-44 | a send's failure is logged exactly when the platform answers that request with a failure status, and failures are listed in the order sent |
| `WhatsAppClient.SendWhatsAppMessage` | lib/whatsapp/client.ts:9-46 | with the token or phone-number id unset or empty, nothing is sent and nothing is thrown. Otherwise request i carries chunk i of `Split(text, 4096 - 96)`, in order. A failure status does not stop the later requests. The sending stops right after the first request that throws (from `fetch` or from reading the failure body), and the exception leaves the function. Without a throw, every chunk is sent. The logged failures are exactly the requests answered with a failure status |
| `WhatsAppClient.HexEncode` | lib/whatsapp/client.ts:82 | the hex digest has two characters per byte, all lower-case hexadecimal digits |
| `WhatsAppClient.HexEncodeInjective` | lib/whatsapp/client.ts:79-82 | different digests have different hex encodings |
| `WhatsAppClient.ValidateSignature` | lib/whatsapp/client.ts:68-85 | with no app secret (unset or empty) every payload and header is accepted; with a secret, an absent header or one without the `sha256=` prefix is rejected, and a header is accepted exactly when it equals `"sha256=" + hex(HMAC(secret, payload))` |
| `WhatsAppClient.AcceptedHeaderDeterminesDigest` | lib/whatsapp/client.ts:79-84 | with a secret configured, one header accepted for two payloads means the two payloads have the same HMAC |
| `ClaudeConversation.TrimRemovesSurroundingSpace` | lib/whatsapp/claude.ts:51 | `trim` of whitespace + text + whitespace, where the text starts and ends with a non-whitespace character, is exactly that text |
| `ClaudeConversation.CommandsIgnoreSurroundingSpace` | lib/whatsapp/claude.ts:51-58 | for any whitespace around a text that starts and ends with a non-whitespace character, the command check sees that text lower-cased, and sees the same with the whitespace as without it; both command checks compare only that normalised text, so the text is a reset (`/reset`, `/clear`) or help (`/help`, `/start`) command with the whitespace exactly when it is one without |
| `ClaudeConversation.ResetCommandExample` | lib/whatsapp/claude.ts:51-54 | `" /RESET\n"` is a reset command |
| `ClaudeConversation.TrimmedKeepsNewest` | lib/whatsapp/claude.ts:41-45 | trimming keeps the newest `min(n, 40)` turns in their original order, and nothing else |
| `ClaudeConversation.TrimHistory` | lib/whatsapp/claude.ts:41-45 | the shifting loop leaves the history unchanged when it has at most 40 turns, and otherwise leaves exactly its last 40 |
| `ClaudeConversation.ReplyOf` | lib/whatsapp/claude.ts:80-83 | the reply is absent (the error path) exactly when the call threw or its content is empty, so that reading the first block throws; otherwise it is the first block's text, or the fixed fallback when that block is not text |
| `ClaudeConversation.ContextShape` | lib/whatsapp/claude.ts:67-69 | the history handed to the completion call has between 1 and 40 turns; its last turn is the user's untrimmed text; the turns before it are the newest stored turns, in order |
| `ClaudeConversation.StoredHistoryReachesOneOverMax` | lib/whatsapp/claude.ts:67-85 | the assistant turn is appended after the trim, so a sender with 40 stored turns ends up with 41 after a successful reply |
| `ClaudeConversation.ConversationStore.constructor` | lib/whatsapp/claude.ts:32 | the store starts with no conversations |
| `ClaudeConversation.ConversationStore.GetHistory` | lib/whatsapp/claude.ts:34-39 | an existing history is returned unchanged and the map is unchanged; otherwise an empty history is inserted for that sender only, and returned |
| `ClaudeConversation.ConversationStore.HandleMessage` | lib/whatsapp/claude.ts:47-91 | `/reset` and `/clear` delete only that sender's entry and return the fixed "cleared" text. `/help` and `/start` return the help text and change nothing. With no API key it returns the "not configured" text and changes nothing. Otherwise the sender's entry becomes the trimmed history with the user turn. On a reply, that reply is appended as an assistant turn and returned. On an error, nothing more is appended and the fixed apology is returned. No other sender's entry changes. When calls do not overlap, no entry grows past 41 turns |

## Left out

- `markAsRead` (`client.ts:48-66`): a single fire-and-forget request with no logic beyond the credentials check.
- The HTTP details of the send requests: URL, Graph API version, headers and JSON body. A request is modelled as the phone-number id, token, recipient and body it carries. The response body read for the error log is not modelled.
- HMAC-SHA256 itself and the UTF-8 encoding of key and payload. The digest is the parameter `hmacSha256`; the lower-case hex encoding is modelled exactly.
- The Anthropic SDK call, the system prompt, the model name and the `parseInt` of the token limit (`claude.ts:72-78`). The call's answer is the parameter `complete`, applied to the history it is given.
- `console.error` logging, except for the list of failed send indices. Also async/await scheduling: the model runs every call to completion, in order.
- ConversationStore.HandleMessage, ConversationStore.GetHistory: the history arrays are shared between the map and the caller and changed in place with `push` and `shift`. The model stores `seq` values and writes the updated sequence back into the map at the points where the source mutates it. Each call runs to completion before the next starts. The webhook route starts `processWebhook` without awaiting it (`route.ts:65`), so two messages from one sender can run `handleMessage` at the same time. Both calls then hold the same array across the completion `await` (`claude.ts:73`). Two effects of that are not modelled: a sender with 40 stored turns can end with 42, and a `/reset` during the `await` leaves the in-flight array outside the map, so its assistant turn is lost. The 41-turn bound (`Valid`) holds only for calls that do not overlap.
- `JsString.ToLowerCase` maps ASCII letters only. Full Unicode case mapping is not modelled. The only two non-ASCII characters that lower-case to ASCII letters are U+0130 (to "i" plus a combining dot) and U+212A (to "k"). Neither can produce one of the four command words, so the command checks decide the same way.
- `JsString.IsWhitespace` is the ECMAScript WhiteSpace and LineTerminator set with the Zs category of Unicode 15.
- WhatsAppClient.SplitMessage, WhatsAppClient.Split: a Dafny `char` is a Unicode scalar value, so lengths, the `maxLength` bound and cut indices count code points. JavaScript's `.length`, `slice` and `lastIndexOf` count UTF-16 code units. The two agree for text with no character above U+FFFF. For other text the chunks differ: the model allows 4000 code points per chunk, which can be up to 8000 code units, and it never cuts a surrogate pair in half, which the source's hard cut can do.
- `WhatsAppClient.SplitMessage` requires `maxLength >= 1`. With 0 the source loops forever on text that contains a non-whitespace character; whitespace-only text ends after one turn (`" "` with 0 gives `[""]`). With a negative `maxLength` m, each turn keeps the last -m characters, trimmed, so the source loops forever when the last -m characters contain a non-whitespace character (`"a"` with -1 never ends; `"a "` with -1 gives `["a"]`). Its only caller passes 4000. A fractional `maxLength` is not modelled.
- `lib/whatsapp/types.ts` (interface declarations only) and the webhook route `app/(chat)/api/whatsapp/route.ts`. The route contains the GET handshake, the JSON parse and the per-message dispatch loop; it is not part of this model.
