# WhatsApp keyword autoresponder: a Dafny model

This project models the authored logic of `bot.js`, a WhatsApp chatbot
built on the `whatsapp-web.js` client. The bot answers each incoming text
message with a canned Spanish reply, chosen as follows:

1. the message is lower-cased and then trimmed (`procesarMensaje`, line 47);
2. if the result is exactly one of the keywords of the `respuestas` table
   (`hola`, `horarios`, `servicios`, `contacto`, `precio`, `ayuda`), the
   bot sends that keyword's reply;
3. otherwise it sends the reply of the first keyword, in table order, that
   occurs anywhere in the text;
4. otherwise it sends a fixed fallback asking the user to write "ayuda".

The model also covers the `'message'` handler's filter: a reply goes only
to text messages (`type == 'chat'`) in one-to-one chats that the bot did
not send itself. It also covers the chat id of a scheduled message, which
is the number followed by `@c.us`.

Files:

- `wrappers.dfy`: module `Wrappers`, the `Option` type used for
  `undefined`.
- `text.dfy`: module `Text`. It holds `trim` over the exact ECMAScript
  whitespace and line-terminator set, `toLowerCase` on the ASCII and
  Latin-1 capitals, their composition `Normalize`, and `includes`. It proves that
  `Normalize` is idempotent, that it ignores case and surrounding
  whitespace, and that the order of lower-casing and trimming does not
  matter.
- `responder.dfy`: module `Responder`. It holds the responder over any
  ordered keyword table. With unique keywords, it proves that an exact match with a
  non-empty reply wins. Without such a match, the first contained keyword
  in table order wins. When no reply equals the fallback, the fallback
  comes back exactly when no keyword is contained. The reply is always a
  table reply or the fallback.
- `bot.dfy`: module `Bot`. It holds the concrete `respuestas` table and
  fallback, `ProcessMessage` (`procesarMensaje`), facts about this table,
  the message filter and the chat id.
- `scenarios.dfy`: module `Scenarios`. It proves the answers to
  example messages, one for each kind of answer.
- `prototype.dfy`: module `PrototypeLookup`. It models the exact-match
  step exactly as JavaScript runs it, prototype chain included (see
  Findings).

The code lower-cases first and then trims, and the model does the same.
`Text.TrimLowerCommute` proves that trimming first would give the same
text. The comments at bot.js:72 and bot.js:75 call the group filter
optional, but its `return` is active code. The model therefore always
applies the filter.

## Model

| member | source | states |
|---|---|---|
| `Text.IsSpace` | bot.js:47 | the characters `trim` removes are exactly the ECMAScript WhiteSpace set (tab, vertical tab, form feed, byte order mark and the space separators, listed one by one) and the LineTerminator set (LF, CR, U+2028, U+2029) |
| `Text.LeadingSpaces` | bot.js:47 | the length of the whitespace run that `trim` removes at the start: all characters before it are whitespace and the one at it is not |
| `Text.TrailingSpaces` | bot.js:47 | the same at the end of the string |
| `Text.Trim` | bot.js:47 | `trim()` returns a slice of the input with only whitespace cut from either end, and neither end of the result is whitespace |
| `Text.TrimUnique` | bot.js:47 | any whitespace padding around a trimmed string is exactly what `trim` removes, so `trim` is determined by its specification |
| `Text.TrimIdempotent` | bot.js:47 | trimming twice is trimming once |
| `Text.TrimIgnoresPadding` | bot.js:47 | extra whitespace around a string does not change its trim |
| `Text.LowerChar` | bot.js:47 | `toLowerCase` on one character moves A-Z and U+00C0-U+00DE (except U+00D7) 0x20 further on, leaving no capital; every other character stays unchanged |
| `Text.Lower` | bot.js:47 | `toLowerCase` maps the string character by character and keeps its length |
| `Text.LowerSpec` | bot.js:47 | after `toLowerCase` no capital is left, and a character changes exactly when it is a capital, moving 0x20 further on |
| `Text.LowerIdempotent` | bot.js:47 | lower-casing twice is lower-casing once |
| `Text.LowerCharSpace` | bot.js:47 | lower-casing neither creates nor removes whitespace and keeps whitespace characters as they are |
| `Text.Normalize` | bot.js:47 | `mensaje.toLowerCase().trim()` is already lower case and trimmed |
| `Text.TrimLowerCommute` | bot.js:47 | lower-casing then trimming equals trimming then lower-casing |
| `Text.NormalizeIdempotent` | bot.js:47 | normalising an already normalised text leaves it unchanged |
| `Text.NormalizeIgnoresPadding` | bot.js:47 | whitespace around a message does not change its normal form |
| `Text.NormalizeIgnoresCase` | bot.js:47 | a message and its lower-case form have the same normal form |
| `Text.Includes` | bot.js:56 | `texto.includes(palabra)`: the word occurs at some position of the text. A found word is no longer than the text; the empty word and every prefix are found |
| `Text.IncludesStep` | bot.js:56 | `includes` holds exactly when the word starts the text or is found in the text after its first character |
| `Text.IncludesSelf` | bot.js:56 | every text includes itself |
| `Text.IncludesInfix` | bot.js:56 | a word is found wherever it stands in a text |
| `Text.IncludedCharsOccur` | bot.js:56 | every character of a found word occurs in the text |
| `Text.SkipWithoutFirstChar` | bot.js:56 | a stretch of text without the word's first character can be skipped without changing whether the word is found |
| `Responder.Lookup` | bot.js:50-51 | own-property access gives `undefined` exactly when no entry has the key, and otherwise the reply of an entry with that key |
| `Responder.LookupFinds` | bot.js:50-51 | with distinct keywords, looking a keyword up gives that keyword's own reply |
| `Responder.FirstIncluded` | bot.js:55-58 | the `for...in` scan stops at a keyword the text contains with no earlier keyword contained, and finds nothing exactly when no keyword is contained |
| `Responder.FirstIncludedAt` | bot.js:55-58 | if keyword `i` is contained and no earlier one is, the scan stops at `i` |
| `Responder.ScanReply` | bot.js:55-62 | the scan answers with a table reply or the fallback |
| `Responder.Respond` | bot.js:46-63 | `procesarMensaje` over any table always returns one of the table's replies or the fallback |
| `Responder.RespondExact` | bot.js:49-52 | a normalised message equal to a keyword with a non-empty reply gets that reply, whatever the scan would find |
| `Responder.RespondFirstIncluded` | bot.js:54-58 | without an exact match, the reply is that of the first keyword in table order the normalised text contains |
| `Responder.RespondNoKeyword` | bot.js:61-62 | a normalised text that contains no keyword gets the fallback |
| `Responder.RespondFallbackIff` | bot.js:54-62 | when no reply equals the fallback, the fallback comes back exactly when no keyword is contained |
| `Responder.RespondNormalized` | bot.js:47 | the reply to a message equals the reply to its normal form |
| `Responder.RespondIgnoresPadding` | bot.js:47 | whitespace around a message does not change the reply |
| `Responder.RespondIgnoresCase` | bot.js:47 | a message and its lower-case form get the same reply |
| `Responder.ExactStepAgreesWithScan` | bot.js:49-58 | when no keyword occurs inside a later one, the exact-match step gives the same answer as the scan alone |
| `Bot.ProcessMessage` | bot.js:36-63 | `procesarMensaje` returns one of the six replies of `respuestas` (the constants `Bot.Replies`, `GreetingReply` ... `HelpReply`, bot.js:36-43) or the fallback text of bot.js:62 (`Bot.Fallback`) |
| `Bot.KeywordGetsOwnReply` | bot.js:36-51 | each keyword of `respuestas`, sent on its own, is answered with its own reply, through the exact-match step |
| `Bot.KeywordsUniqueAndNormal` | bot.js:36-43 | the six keywords are distinct, lower case and trimmed, so each can match exactly |
| `Bot.RepliesDistinctFromFallback` | bot.js:36-62 | every reply is non-empty (truthy) and differs from the fallback |
| `Bot.KeywordsNotNested` | bot.js:36-43 | no keyword occurs inside a later keyword |
| `Bot.ProcessMessageIsScan` | bot.js:46-59 | for this table the exact-match step never changes the answer: every reply is the scan's reply |
| `Bot.ProcessMessageFallbackIff` | bot.js:54-62 | the bot sends the fallback exactly when the normalised message contains none of the six keywords |
| `Bot.HandleMessage` | bot.js:66-86 | a reply is sent exactly when the type is `'chat'`, the chat is not a group and the message is not from the bot, and the reply is `procesarMensaje` of the body |
| `Bot.ChatId` | bot.js:112 | the chat id is the number followed by exactly the suffix `@c.us` |
| `Bot.ChatIdRoundTrip` | bot.js:111-112 | the number can be read back from the chat id built from it |
| `Bot.ChatIdOnlyFrom` | bot.js:112 | every id a number can be read from is that number followed by `@c.us` |
| `Scenarios.GreetingScenario` | bot.js:37 | "hola" gets the greeting |
| `Scenarios.ShoutedGreetingScenario` | bot.js:47-51 | "  HOLA  " gets the greeting too |
| `Scenarios.HoursScenario` | bot.js:54-58 | "Quisiera saber los HORARIOS de atención" gets the opening-hours reply |
| `Scenarios.HelpScenario` | bot.js:54-58 | "ayuda por favor" gets the help reply |
| `Scenarios.NoKeywordScenario` | bot.js:61-62 | "xyz123" gets the fallback |
| `Scenarios.EmptyMessageScenario` | bot.js:61-62 | the empty message gets the fallback |
| `PrototypeLookup.PropertyGet` | bot.js:50 | for a lower-case key, `respuestas[texto]` gives the own key's reply string, an inherited value for `constructor` and `__proto__`, and `undefined` otherwise |
| `PrototypeLookup.ProcessMessageAsWritten` | bot.js:46-63 | `procesarMensaje` as written returns a string or an inherited value |
| `PrototypeLookup.AsWrittenAgreesOffPrototype` | bot.js:50-51 | the code as written and `Bot.ProcessMessage` agree unless the normalised message is an inherited name, and then the code returns the inherited value |
| `PrototypeLookup.ConstructorLeaksPrototype` | bot.js:50-51 | for "Constructor" the code as written returns `Object.prototype.constructor`, while `Bot.ProcessMessage` gives the fallback |

## Left out

- Client construction, `LocalAuth`, the browser options and QR-code printing (bot.js:1-28). These are library configuration and terminal output.
- The `ready`, `auth_failure` and `disconnected` handlers and `client.initialize()` (bot.js:31-33, 99-108). These are event plumbing and logging.
- In the message handler: awaiting `message.getChat()`, logging, the typing indicator, the 1000 ms delay and `message.reply` (bot.js:73, 83, 89-95). `Bot.HandleMessage` takes the chat's `isGroup` flag as a parameter and returns the reply it would send.
- `client.sendMessage`, its promise and its logging (bot.js:113-119), and the SIGINT shutdown (bot.js:123-127). These are I/O and process lifecycle.
- `Text.Lower` folds only the basic Latin capitals A-Z and the Latin-1 capitals U+00C0-U+00DE (except U+00D7). Other scripts are left unchanged, and so are the characters whose lower case is longer than one character (U+0130). Only two characters outside those ranges lower-case to ASCII letters: U+212A KELVIN SIGN becomes `k`, and U+0130 becomes `i` followed by U+0307. Neither the six keywords nor the inherited names `constructor` and `__proto__` contain `k`, and every `i` in a keyword is followed by a letter, never by U+0307. So for this table the narrower lower-casing changes no reply.
- JavaScript strings are sequences of UTF-16 code units. The model uses sequences of Unicode scalar values. The two differ for characters outside the Basic Multilingual Plane, such as the emoji in the replies, which are one `char` here but two code units in JavaScript. They also differ for unpaired surrogate code units, which a JavaScript string can hold and a Dafny `char` cannot represent.
- `Bot.ChatId` takes the number as a string. The source may also receive a JavaScript number, which `+` converts to its decimal text first.
- PrototypeLookup.PropertyGet: models property access only for lower-case keys. That is every key `procesarMensaje` looks up, since the key is the lower-cased message. Inherited camel-case names such as `toString` are not modelled.

## Findings

| source | as written | input that shows it | evidently intended | confidence | as-written member | corrected member |
|---|---|---|---|---|---|---|
| bot.js:50-51 | `respuestas[texto]` is a property access that also finds the names every object inherits from `Object.prototype`. After lower-casing, `constructor` and `__proto__` can still match, and the truthy function or object is returned instead of a reply string. | `"Constructor"` | only the six keywords match, so this message gets the fallback text | high (derived from JavaScript property-lookup semantics; not executed) | `PrototypeLookup.ConstructorLeaksPrototype` | `Bot.ProcessMessage` |
