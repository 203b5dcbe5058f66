# discobot-aggc in Dafny

A Dafny model of the deterministic core of a Discord bot that exists in two
forms: a Cloudflare worker (`worker/index.js`) answering slash-command
interactions from a D1 `memos` table and from a cascade of Gemini models,
and a discord.py bot (`src/bot.py`) reacting to mentions with an in-memory
memo dictionary.

Modules, following the program's structure:

- `Values`: optional values and the `a || b` fallback of JavaScript on strings.
- `Text`: the string primitives the sources lean on: substring tests,
  Python's `str.replace`, `str.strip` and the ASCII part of `lower()`/`toLowerCase()`,
  and decimal rendering of integers inside template literals.
- `Hex`: `hexToBytes`, on every input string of Basic Multilingual Plane characters, with its inverse encoding.
- `Gemini`: `generateAIResponse`, the ordered model cascade and its error classifier.
- `Prompt`: `buildContextPrompt`.
- `MemoTable`: the three SQL statements on the `memos` table, as operations on a sequence of rows.
- `Worker`: option lookup, user-id and nickname fallbacks, `createResponse`,
  the three memo handlers, the gori handler, `handleCommand`, the webhook and `fetch`.
- `MentionBot`: `on_message`, `handle_mention`, `save_memo`, `delete_memo` and `list_memos`.

Outside inputs become parameters: the Ed25519 verdict (`signatureValid`),
the persona prompt, the channel history, what each Gemini model would
answer to a prompt, whether the database accepts statements, and its clock.

The cascade has no case of its own for a 404 or 400 "model not found"
response. Such a response moves the cascade on only when its body happens
to contain "quota", "rate" or "429", or its status contains "429"
(`Gemini.NotFoundStops`, `Gemini.GenerateContentBodyContinues`).

## Model

| member | source | states |
|---|---|---|
| Values.OrElse | worker/index.js:224 | `a \|\| b` on strings: the first value when it is present and non-empty, else the fallback |
| Text.Remove | src/bot.py:97 | `s.replace(p, '')` never lengthens the text, and shortens it exactly when `p` occurs. Without an occurrence the text is unchanged. With its leftmost occurrence at `i`, the result is `s[..i]` followed by the removal applied to the text after that occurrence |
| Text.RemoveAtFirst | src/bot.py:97 | removal keeps everything before the leftmost occurrence, cuts that occurrence, and continues on the rest |
| Text.RemoveLeading | src/bot.py:97 | a pattern in front of text that does not contain it is all that removal takes away |
| Text.FirstOccurrenceIsFirstIndex | src/bot.py:97 | the first cut of the scan is at the leftmost occurrence |
| Text.RemoveShrinks | src/bot.py:97 | removing a non-empty pattern shortens the text iff the pattern occurs |
| Text.RemoveIdentityIff | src/bot.py:97 | removing a pattern leaves the text unchanged iff the pattern does not occur |
| Text.RemoveAbsent | src/bot.py:97 | removing a pattern that does not occur changes nothing |
| Text.RemovalCanLeavePattern | src/bot.py:97 | one left-to-right pass can leave the pattern behind: removing "memo" from "memmemoo" gives "memo" |
| Text.Strip | src/bot.py:44 | `strip()` yields the slice after the leading whitespace, followed only by whitespace, with neither end whitespace, and is empty iff the text is all whitespace |
| Text.StripIdempotent | src/bot.py:97 | stripping twice is stripping once |
| Text.StrippedFixed | src/bot.py:97 | a text whose ends are not whitespace is unchanged by `strip()` |
| Text.StripAfterSpace | src/bot.py:44 | `strip()` of one space followed by a stripped text gives that text |
| Text.AsciiLower | worker/index.js:106 | lower-casing keeps the length and maps each character on its own |
| Text.AsciiLowerIdempotent | worker/index.js:106 | lower-casing twice is lower-casing once |
| Text.LowerKeepsOccurrence | src/bot.py:47 | an occurrence of a pattern survives lower-casing, lower-cased, at the same place |
| Text.NatToString | worker/index.js:400 | the decimal rendering of a status is non-empty, all digits, with no leading zero |
| Text.NatToStringRoundTrip | worker/index.js:400 | reading the rendered digits back gives the number |
| Text.NatToStringLacks | worker/index.js:400 | a rendered number holds no letter, so it cannot supply "quota" or "rate" |
| Text.ContainsAcrossSeparator | worker/index.js:400 | a pattern free of separator characters occurs in `a + sep + b` iff it occurs in `a` or in `b` |
| Hex.ParsePair | worker/index.js:63 | `parseInt(pair, 16)` stored in a byte: two hex digits give their value, a digit then junk gives the digit, no digits give 0 |
| Hex.HexToBytes | worker/index.js:60-66 | the array has `hex.length / 2` elements, rounded down |
| Hex.HexToBytesAt | worker/index.js:62-63 | byte `i` is parsed from characters `2i` and `2i+1` for any input of Basic Multilingual Plane characters |
| Hex.HexToBytesValue | worker/index.js:60-66 | on well-formed hex, byte `i` is `16 * value(hex[2i]) + value(hex[2i+1])` |
| Hex.TrailingCharIgnored | worker/index.js:61-63 | the last character of an odd-length input is dropped |
| Hex.MalformedInput | worker/index.js:63 | "zz" gives 0, "-1" wraps to 255, "7g" gives 7, a lone character gives nothing |
| Hex.BytesToHex | worker/index.js:60-66 | the inverse encoding is well-formed hex of twice the length |
| Hex.DecodeEncode | worker/index.js:60-66 | decoding an encoding gives back the bytes |
| Hex.EncodeDecode | worker/index.js:60-66 | encoding a decoding gives back the hex, lower-cased |
| Gemini.Caught | worker/index.js:415-426 | the `catch` continues iff the message contains "429", "quota" or "rate", and otherwise breaks; the error is kept |
| Gemini.Classify | worker/index.js:389-413 | a model's turn returns text iff it completed with non-empty text; an OK response never stops the cascade; an exception goes to the `catch` |
| Gemini.HttpErrorContinuesIff | worker/index.js:389-400 | a non-OK response moves on iff the status is 429, or the body has "quota", "rate" or "429", or the decimal status has "429" |
| Gemini.RethrownHttpErrorContinuesIff | worker/index.js:400 | the rethrown `Gemini API error` message is retryable iff the body or the decimal status contains "429" |
| Gemini.Cascade | worker/index.js:346-427 | models are asked in order; every model before the last one asked said continue; the last one answered, stopped, or was the last model; `lastError` is the last failure |
| Gemini.LaterOutcomesIrrelevant | worker/index.js:346-427 | once a model answers or stops the loop, later models' answers cannot change the result |
| Gemini.GenerateAIResponse | worker/index.js:331-346 | between 1 and 7 models are asked, and an answer is never empty |
| Gemini.ReplyText | worker/index.js:429-431 | no error escapes: the caller gets the completion or the one fixed apology |
| Gemini.RateLimitThenServerErrorGivesUp | worker/index.js:394-425 | a 429 then a plain 500 asks two models and returns the apology, whatever the third would say |
| Gemini.NotFoundStops | worker/index.js:400-425 | a 404 "model not found" stops the cascade at the first model |
| Gemini.GenerateContentBodyContinues | worker/index.js:394 | a body naming `generateContent` contains "rate" and moves on to the next model |
| Gemini.EmptyCompletionFallsBack | worker/index.js:406-413 | an empty completion from the only model gives the apology |
| Prompt.SpeakerLabel | worker/index.js:315 | bots are "Assistant"; anyone else is their nickname when non-empty, else their user name when non-empty, else "User", as is a message without an author |
| Prompt.HistoryLine | worker/index.js:316-320 | a message with empty or missing content contributes nothing; any other contributes one newline-terminated line |
| Prompt.Spoken | worker/index.js:318 | a message is kept iff it is in the history and its content is non-empty |
| Prompt.SpokenAppend | worker/index.js:312-320 | keeping the spoken messages distributes over concatenation, so their order is the history's |
| Prompt.BuildContextPrompt | worker/index.js:301-328 | empty history gives exactly prompt, blank line, current turn; otherwise the result is exactly the system prompt, the intro text, the history lines, a newline and the current turn, each at its place and nothing else in between |
| Prompt.SingleMessagePrompt | worker/index.js:305-323 | a one-message history gives, in full, the prompt, the intro, `author: content`, a blank line and the open turn |
| Prompt.HistoryLinesAppend | worker/index.js:312-321 | the history text of a concatenation is the concatenation of the history texts, so lines follow message order |
| Prompt.HistoryLinesOfSpoken | worker/index.js:318-320 | silent messages leave no trace in the history text |
| MemoTable.Insert | worker/index.js:136-138 | an INSERT appends one row with the user, the content and the clock, under an id no other row has |
| MemoTable.Delete | worker/index.js:176-178 | a DELETE keeps exactly the rows not matching both id and user, and reports how many it removed, 0 iff none matched |
| MemoTable.RowsOf | worker/index.js:150 | `WHERE user_id = ?` selects exactly that user's rows, each as many times as stored, and no other row |
| MemoTable.DeleteSparesOtherUsers | worker/index.js:177 | a DELETE on behalf of one user leaves every other user's rows as they were |
| MemoTable.DeleteRemovesAtMostOne | worker/index.js:177 | with unique ids a DELETE removes at most one row |
| MemoTable.SortNewestFirst | worker/index.js:150 | `ORDER BY created_at DESC` is a newest-first permutation |
| MemoTable.InsertByAge | worker/index.js:150 | inserting into a newest-first sequence keeps it newest first and adds exactly one row |
| MemoTable.TakeNewest | worker/index.js:150 | a prefix of a newest-first sequence is newest first and nothing after it is newer |
| MemoTable.Recent | worker/index.js:149-151 | the listing holds only the user's rows, newest first, `min(10, count)` of them, and omits none newer than one shown |
| Worker.FindIn | worker/index.js:129 | `find` gives the value of the first option with the name, and nothing iff no option has it |
| Worker.RequiredOption | worker/index.js:129-133 | an option counts as given iff it is present and truthy, so `''` and `0` count as missing; a given option's value is the one `find` returns |
| Worker.UserId | worker/index.js:105 | the guild member's user id when non-empty; otherwise the user's id as given, or none without a user |
| Worker.CurrentNickname | worker/index.js:224 | the first non-empty one of the member nick, the member's user name and the user's user name, else "User" |
| Worker.CreateResponse | worker/index.js:196-206 | a channel message with the content, flagged 64 iff ephemeral |
| Worker.HandleMemo | worker/index.js:128-145 | a missing content replies and stores nothing; with the database down or no user id the failure reply comes and nothing is stored; otherwise the user's row is appended with a fresh id and the clock, and the content is confirmed |
| Worker.HandleList | worker/index.js:147-166 | the table is untouched; with the database down or no user id the failure reply comes; otherwise the empty reply comes iff the user has no rows, and any other reply numbers a valid ten-newest listing |
| Worker.HandleDelete | worker/index.js:168-189 | a missing id replies and stores nothing; with the database down or no user id the failure reply comes and nothing changes; an integer id leaves exactly the rows not matching id and user; other users' rows never change; the "done" reply comes iff a row was removed, else "not found" with the table unchanged |
| Worker.DeleteNothingKeepsTable | worker/index.js:180-181 | a DELETE with zero changes leaves the table as it was |
| Worker.ListingFromSnoc | worker/index.js:157-159 | appending a row appends one entry numbered by its position |
| Worker.ListingNumbersInOrder | worker/index.js:157-159 | the listing numbers entries from 1 in the order of the rows |
| Worker.HandleGori | worker/index.js:209-231 | a missing message gets the validation reply; otherwise the reply is the cascade's answer to the context prompt, or the apology |
| Worker.HandleCommand | worker/index.js:103-126 | the lower-cased name `memo`, `list`, `delete`, `gori` or `ゴリ` goes to its handler with the member-or-user id; other names get the unknown-command reply and change nothing; no handler but gori's can give that reply; only `memo` and `delete` can change the table, and only `delete` can remove rows |
| Worker.GoriRepliesWithFirstCompletion | worker/index.js:116-118 | `gori` replies with the first model's non-empty completion verbatim, whatever it says |
| Worker.GodgoriIsUnknown | worker/index.js:109-121 | the registered `godgori` command falls through to the unknown-command reply |
| Worker.CommandNameCaseInsensitive | worker/index.js:106 | the command name's letter case makes no difference |
| Worker.VerifyRequest | worker/index.js:25-58 | verification passes iff both headers are non-empty and the signature check succeeds |
| Worker.HandleWebhook | worker/index.js:68-101 | an unverified request gets 401 and changes nothing; a verified body that is not JSON gets 500; type 1 gets a pong, type 2 the command's reply and table, type 3 the component acknowledgement, and any other type a plain 200 "OK" |
| Worker.Fetch | worker/index.js:8-22 | `POST /discord` is answered by the webhook and nothing else is; `/health` answers OK to any method; anything else is 404 |
| Worker.MissingHeadersRejected | worker/index.js:29-31 | a webhook request lacking a signature header is rejected with 401 whatever the signature check would say |
| MentionBot.MentionToken | src/bot.py:44 | the mention markup is `<@`, the bot id, then `>` |
| MentionBot.WithoutMention | src/bot.py:44 | the mention is removed and the text stripped. Without a mention it is the stripped message; with one it is strictly shorter. With the first mention at `i` it is the strip of the text before `i`, followed by the removal applied to the text after that mention |
| MentionBot.MentionThenText | src/bot.py:44 | a message opening with the mention, not repeated later, leaves the stripped rest of the message |
| MentionBot.RouteText | src/bot.py:47-55 | memo keywords win, then delete keywords, then list keywords, after lower-casing |
| MentionBot.RouteIgnoresCase | src/bot.py:47 | routing is the same on the lower-cased text |
| MentionBot.MemoWordAlwaysSaves | src/bot.py:47-48 | a text containing "memo" in any case is saved even if it also names a delete or list keyword |
| MentionBot.CapitalisedMemoSaves | src/bot.py:47 | "MEMO", "Memo" and "memo" all route to saving |
| MentionBot.RemoveKeywords | src/bot.py:96-97 | removing keywords never lengthens the text, and the result is stripped |
| MentionBot.CleanMemoText | src/bot.py:93-97 | the saved text has no whitespace at either end, and is shorter than the mention-free text iff that text names a memo keyword |
| MentionBot.RemoveKeywordsShortensIff | src/bot.py:96-97 | on stripped text, removing non-empty keywords shortens it iff one of them occurs |
| MentionBot.RemoveKeywordsKeepsPlainText | src/bot.py:96-97 | a stripped text with no keyword passes through unchanged |
| MentionBot.MemoPrefixRemoved | src/bot.py:96-97 | "memo " followed by a stripped text with no memo keyword leaves exactly that text |
| MentionBot.MentionMemoCleaned | src/bot.py:93-97 | "<@bot> memo " followed by such a text, with the mention not repeated, saves exactly that text |
| MentionBot.MemoExample | src/bot.py:93-97 | "<@42> memo buy milk" saves "buy milk" |
| MentionBot.CapitalisedKeywordKept | src/bot.py:47-97 | "MEMO buy" is routed to saving but keeps its "MEMO", as removal is case-sensitive |
| MentionBot.AddNote | src/bot.py:103-109 | the note goes to the end of the user's list, created if absent; other users' lists are unchanged; no list becomes empty |
| MentionBot.SaveText | src/bot.py:99-111 | an empty cleaned text asks for content and stores nothing; otherwise it goes to the end of the author's list, created if absent, and is confirmed; other users' lists are unchanged; no list becomes empty |
| MentionBot.DeleteMemo | src/bot.py:113-127 | no memos: nothing changes; otherwise exactly the last memo is removed and reported, the key stays iff memos remain, and no list becomes empty |
| MentionBot.SaveThenDelete | src/bot.py:99-127 | deleting right after a save restores the memos and reports the saved text |
| MentionBot.EntriesSnoc | src/bot.py:138-139 | appending a memo appends one entry numbered by its position |
| MentionBot.Truncate | src/bot.py:141 | `s[:n]` is the whole string when it fits and exactly its first `n` characters otherwise |
| MentionBot.ListMemos | src/bot.py:129-141 | the reply is at most 2000 characters; "no memos" iff the list is empty; otherwise the numbered listing, all of it when it fits and exactly its first 2000 characters when not |
| MentionBot.SaveThenListEndsWithNew | src/bot.py:103-139 | after a save the listing ends with the new memo, numbered one past the earlier ones |
| MentionBot.Dispatch | src/bot.py:47-55 | saving, deleting and listing are answered by `save_memo`, `delete_memo` and `list_memos` for the author; only saving and deleting change the memos, only the author's, and the invariant holds |
| MentionBot.OnMessage | src/bot.py:32-40 | the bot's own messages and messages without a mention are ignored and change nothing; any other message is dispatched on the route of its text without the mention; other users' memos never change; no list becomes empty |
| MentionBot.MentionedMemoIsSaved | src/bot.py:32-111 | a mention routed to saving appends its cleaned text to the author's list and confirms it, or asks for content when nothing is left |
| MentionBot.MentionedDeletePopsNewest | src/bot.py:32-127 | a mention routed to deletion removes and reports the author's newest memo |

## Left out

- Ed25519 verification (`crypto.subtle.importKey` and `verify`, worker/index.js:33-57) is a foreign crypto call; its verdict is the `signatureValid` parameter, and a thrown exception counts as `false`.
- Network calls are left out: the Discord message and member fetches (worker/index.js:234-298), the Gemini HTTP request and `response.json()`. Their results are inputs: `Env.history`, `Env.ai`, and `Request.body` (none when the body is not JSON).
- The nickname resolution and reversal inside `fetchRecentMessages` are not modelled; the history arrives oldest first with nicknames already filled in.
- The D1 SQL engine and schema are not modelled. The table is a sequence of rows; an id is one above the largest present; `created_at` is the `Env.now` clock; ties in `created_at` may be listed in any order.
- Worker.HandleMemo, Worker.HandleList, Worker.HandleDelete: a missing user id makes the statement fail, so each models it as a storage failure. The database's actual treatment of an unbound parameter is not modelled.
- Worker.HandleDelete: a string-valued `id` option (Discord registers `id` as an integer) is modelled as matching no row. SQLite's type affinity, which would compare the text with the integer column, is not modelled.
- `getSystemPrompt` (`system-prompt.js`) is not part of this model; the persona prompt is the `Env.systemPrompt` parameter, and its failures are not modelled.
- The generation config and safety settings of the Gemini request (worker/index.js:362-385) are constants with no logic.
- Text.AsciiLower: maps only ASCII letters, unlike the full Unicode `toLowerCase()`/`lower()`. For the ASCII keywords routed here this gives the same routing, because no non-ASCII character lower-cases to one of their letters followed by the next keyword letter.
- Worker.HandleCommand: the `catch` around the switch is left out. The handlers' promises are returned without `await`, so that `catch` cannot see their rejections, and the modelled handlers do not reject. A non-string `data.name` is not modelled either.
- The `handleMessageComponent` reply is a constant: every component interaction gets the same acknowledgement.
- In src/bot.py, `generate_response` and `get_recent_messages` (src/bot.py:57-88) call discord.py and google.generativeai; routing to them is reported as `Conversed`. `process_commands` (src/bot.py:40) is part of discord.py and is not modelled.
- MentionBot.RemoveKeywords: its own contract gives only the bound and the stripped ends. What it removes is stated by MentionBot.RemoveKeywordsShortensIff, MentionBot.RemoveKeywordsKeepsPlainText and MentionBot.MemoPrefixRemoved, and per keyword step by Text.Remove. The model gives no closed form for repeated replace-then-strip over several keywords.
- MentionBot.CleanMemoText: its contract gives the stripped ends and when the text shrinks. The exact saved text is stated for the "<@bot> memo <text>" shape by MentionBot.MentionMemoCleaned and MentionBot.MemoExample, not for every message.
- MentionBot.OnMessage: whether a message is the bot's own and whether it mentions the bot (`mentioned_in`, which also counts role and everyone mentions) are inputs.
- Hex.HexToBytes: a character stands for one UTF-16 code unit. JavaScript counts a character outside the Basic Multilingual Plane as two units, which this model does not, so such inputs are not covered.
- scripts/setup-commands.js and scripts/clear-commands.js are one-shot administration calls and are not modelled.
- No deferred acknowledge and follow-up flow exists: the gori command replies synchronously.
