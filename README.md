# subtitle-translator: the batch translation protocol, in Dafny

This project models the core of the subtitle translator in `src/translator.js`.
`translateSubtitles(subs, batchSize = 50)` first rejects anything that is not an array.
It cuts the subtitle entries into batches with `chunkArray` and sends each batch to a chat
completion as a numbered list, one line `n. text` per entry. It then matches the reply back
entry by entry:

- Entry `n` takes the first reply line whose trimmed form starts with `n.`.
- The line's number is stripped with `/^\d+\.\s*/` and the rest is trimmed.
- The text falls back to the original when the result is empty or no line matches.
- When the call throws, every entry of the batch is pushed unchanged.

The completion service is an input of the model. `complete(i)` is the reply content of
the call made for batch `i`, or `None` when the call, or
`choices[0].message.content.trim()`, threw (a missing, null or non-string content throws there).

Files:

- `wrappers.dfy`: `Option` and `Result`.
- `js_string.dfy` (module `JsString`): the JavaScript string built-ins the code relies on,
  written on `seq<char>`. These are:
  - `trim` and the `\s` class, with the ECMAScript WhiteSpace and LineTerminator code points;
  - `\d`, which matches ASCII digits only;
  - `split` and `join` on one character;
  - `startsWith`;
  - the decimal rendering of `${n}`.
  
  Each comes with lemmas about it: split/join round trips, what `trim` removes, when it
  gives "" (the case the `||` fallback catches), idempotence, and injectivity of `${n}`.
- `translator.dfy` (module `Translator`): the model of `src/translator.js`.
  - `ChunkArray`, `PushDecoded`, `PushOriginals`, `TranslateBatch` and
    `TranslateSubtitles` are methods with the source's loops.
  - The functions they are proved against are `Chunks`, `DecodeBatch`, `BatchOutput` and
    `Translated`.
  - The lemmas say what those functions guarantee.

Two notes on the model:

- An entry is `Entry(fields, text)`. `fields` stands for every other property of the
  subtitle object, which `{...item, text}` copies unchanged.
- The number-stripping regular expression is applied to the untrimmed line. The matching
  test, by contrast, uses the trimmed line. The model keeps this exactly as written; see
  `IndentedAnswerKeepsNumber`.
- A text holding a newline spans several payload lines, and a reply line is matched to an
  entry only by its leading number, so only the first line of a multi-line answer is kept.
  The model follows this as written; `EncodedLines` and `ReplyRoundTrip` state the
  one-line-per-entry guarantee only for texts without newlines.

## Model

| member | source | states |
|---|---|---|
| Translator.BatchSize | src/translator.js:28 | an omitted `batchSize` is 50; a given one is used as it is |
| Translator.ChunkArray | src/translator.js:10-16 | the loop `for (i = 0; i < length; i += chunkSize) push(slice(i, i + chunkSize))` returns exactly `Chunks(items, chunkSize)`; callable with a non-positive size only for an empty array, the one case where the loop ends |
| Translator.ChunksFlatten | src/translator.js:10-16 | concatenating the chunks gives back the array, in order: no entry is lost, duplicated or moved |
| Translator.ChunksShape | src/translator.js:12-13 | there are ceil(n / size) chunks; each holds 1 to `size` entries; every chunk but the last holds exactly `size` |
| Translator.ChunkAt | src/translator.js:12-13 | chunk `i` is `array.slice(i * size, i * size + size)`, clamped to the array's end |
| Translator.ChunkEntry | src/translator.js:12-13 | entry `q` of chunk `b` is array entry `b * size + q` |
| Translator.ChunksPrefix | src/translator.js:12-13 | the first `k` chunks together are the first `min(k * size, n)` entries |
| Translator.EncodedLines | src/translator.js:41 | when no text holds a newline, splitting the payload on newlines gives exactly one line per entry, line `k` being `${k + 1}. ${text}` |
| Translator.ReplyLines | src/translator.js:73-74 | the trimmed reply splits into at least one line, and no line holds a newline |
| Translator.FindAnswer | src/translator.js:79-81 | `find` gives the first line whose trimmed form starts with `${n}.`; no line is found only when no line answers |
| Translator.FindFrom | src/translator.js:79-81 | `Array.prototype.find` from a start index: the index found satisfies the callback and no element before it does; none is found only when no element does |
| Translator.FirstAnswerUnique | src/translator.js:79-81 | an entry has at most one first answering line |
| Translator.MarkerDistinct | src/translator.js:80 | a line starting `${m}.` never answers entry `n` for `n` != `m` (for example, "10." does not answer entry 1) |
| Translator.StripNumber | src/translator.js:85 | `replace(/^\d+\.\s*/, "")` removes a prefix of the line. It removes one when the line begins with digits and a period. What it removes is digits, a period and whitespace, and no whitespace is left at the front. A line not beginning that way is unchanged |
| Translator.StripNumberedLine | src/translator.js:85 | the strip of `${n}. text` is `text` when `text` does not begin with whitespace |
| Translator.AnswerText | src/translator.js:85-88 | the pushed text is the stripped, trimmed line when that is non-empty, and otherwise the original text (`translation \|\| item.text`) |
| Translator.DecodeEntry | src/translator.js:77-97 | the entry pushed for position `n` keeps every field of the source entry except `text` |
| Translator.DecodeEntryAnswered | src/translator.js:79-89 | when line `i` is the first to answer entry `n`, the pushed entry is `{...item, text: AnswerText(line i)}`; later lines with the same number are ignored |
| Translator.DecodeEntryUnanswered | src/translator.js:90-96 | when no line answers entry `n`, the entry is pushed unchanged |
| Translator.DecodeEntryNeverEmpties | src/translator.js:83-96 | decoding never turns a non-empty text into an empty one |
| Translator.DecodeBatch | src/translator.js:77-98 | a reply decodes to one entry per batch entry; entry `k` is decoded against `${k + 1}.` and keeps its other fields |
| Translator.PushDecoded | src/translator.js:77-98 | the `forEach` of a successful call appends exactly `DecodeBatch(lines, chunk)` to what was already translated |
| Translator.PushOriginals | src/translator.js:109-111 | the `forEach` of the `catch` appends exactly the batch's own entries |
| Translator.TranslateBatch | src/translator.js:43-112 | one pass of the batch loop appends `BatchOutput(chunk, reply)`; a failed call appends the batch itself |
| Translator.BatchOutput | src/translator.js:43-112 | what one batch appends always matches the batch entry for entry, except for texts |
| Translator.Translated | src/translator.js:33-116 | the array returned has one entry per input entry, and entry `i` agrees with input entry `i` on every field but `text` |
| Translator.TranslateSubtitles | src/translator.js:28-117 | throws exactly when `subs` is not an array; otherwise the loop over batches returns `Translated(...)`, which keeps count, order and non-text fields |
| Translator.TranslatedAt | src/translator.js:33-116 | output entry `b * size + q` is entry `q` of what batch `b` appended: every batch's output sits exactly where its input was |
| Translator.FailedBatchKeepsEntries | src/translator.js:106-111 | an entry of a batch whose call threw comes out exactly as it went in |
| Translator.AllCallsFailKeepsInput | src/translator.js:106-112 | when every call throws, the result equals the input |
| Translator.TranslatedNeverEmpties | src/translator.js:83-111 | an entry with a non-empty text comes out with a non-empty text, whatever the replies are |
| Translator.ReplyLinesOfEncoded | src/translator.js:73-74 | a reply equal to the numbered payload of texts that have no padding and no newline splits back into exactly the numbered lines |
| Translator.TrimKeepsMarker | src/translator.js:80 | trimming a line that starts with `${m}.` keeps that marker at its front |
| Translator.NumberedLineAnswersOwn | src/translator.js:79-81 | the numbered line `${m}. text`, whatever the text, answers entry `n` if and only if `m == n` |
| Translator.NumberedLineText | src/translator.js:85-88 | the numbered line `${n}. text` gives back `text` |
| Translator.NumberedLineAnswers | src/translator.js:77-89 | in a numbered reply, line `k` is the first to answer entry `k + 1` and carries back text `k` |
| Translator.ReplyRoundTrip | src/translator.js:41-98 | round trip: a reply that numbers the translations exactly as the payload numbers the entries decodes to those translations, each on the entry it belongs to |
| Translator.IndentedAnswerKeepsNumber | src/translator.js:79-85 | a matching line that begins with whitespace is not stripped (the pattern is anchored at the untrimmed line), so the pushed text is the trimmed line, still starting with `${n}.` |
| JsString.Trim | src/translator.js:73 | `trim` leaves no whitespace at either end and never lengthens a string |
| JsString.TrimBounds | src/translator.js:73 | `trim` removes a whitespace prefix and a whitespace suffix and nothing else |
| JsString.TrimEmpty | src/translator.js:85-88 | `trim` gives "" exactly for all-whitespace strings, which is when the `\|\|` fallback applies |
| JsString.TrimIdempotent | src/translator.js:85 | trimming twice is trimming once |
| JsString.TrimUnpadded | src/translator.js:80 | a string with no whitespace at either end is its own trim |
| JsString.Split | src/translator.js:74 | `split` on one character gives at least one piece, and no piece contains the separator |
| JsString.SplitJoin | src/translator.js:74 | splitting a join of separator-free pieces gives the pieces back |
| JsString.JoinSplit | src/translator.js:41 | joining the pieces of a split gives the string back |
| JsString.JoinEnds | src/translator.js:41 | a join of non-empty pieces starts with the first piece's first character and ends with the last piece's last character |
| JsString.Digits | src/translator.js:41 | `${n}` is a non-empty run of decimal digits, one digit exactly for `n < 10`, with no leading zero |
| JsString.DecimalValueOfDigits | src/translator.js:80 | reading back the rendering of `n` gives `n` |
| JsString.DigitsInjective | src/translator.js:80 | distinct numbers have distinct renderings, so `${n}.` tells entries apart |

## Left out

- The Groq client, `dotenv` and the API key (lines 1-5), and the request itself (lines 44-71): the model, the temperature and the system prompt. The reply is the input `complete`.
- `complete`: the reply for a batch depends only on the batch's index. The payload sent with it (`EncodeBatch`) is computed, but the model does not pass it to the completion. Every reply function is allowed, so any reply to any payload is covered.
- `sleep` and the 20-second pause between batches (lines 21-23 and 100-104). These are timing only and change nothing in the result.
- `console.log`, `console.warn` and `console.error` (lines 38, 92, 102, 107 and 115).
- `async`/`await`: the model runs the loop sequentially, as awaiting each call does.
- `translateSubtitles`'s error message. The model has the single error value `SubsNotAnArray`.
- `batchSize` that is not a positive integer. With a non-empty array the source's loop never ends for a size of zero or less, so the model requires a positive size there. Non-integer and non-number sizes are not modelled.
- Entry texts that are not strings, and exceptions thrown in the middle of a batch's `forEach`. With string texts nothing in that `forEach` can throw, so the duplicate pushes a mid-batch exception would cause in the `catch` are not modelled.
- `src/subtitleHandler.js` (SRT parsing and writing) and `src/index.js` (the command-line driver) are not part of this model.
