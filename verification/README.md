# PDF retrieval server: request handling, prompt assembly and answer extraction

This project models the string-handling core of the server of a small
retrieval-augmented question-answering system. Users upload PDFs, which are
queued for ingestion, and ask questions about them. The server has two
handlers:

- `POST /upload/pdf` checks that a file arrived. It then queues one
  `file-ready` job describing where the file was stored.
- `GET /chat` checks the user's query and retrieves the most similar stored
  chunks. It renders those chunks as numbered context blocks and wraps them in
  a fixed prompt that ends with an `Assistant:` cue. The prompt goes to a
  text-generation service. The handler then cuts the answer out of the
  generated text: the part after `Assistant:`, trimmed, with two fall-backs.

The model is written in Dafny and consists of these modules:

- `Wrappers`: the `Option` type. It stands for an absent query, a missing
  upload or an undefined `generated_text`.
- `Strings`:
  - occurrences of a pattern (`OccursAt`, `Contains`);
  - first and last occurrence (`FindFirst`, `FindLast`);
  - JavaScript's `Array.prototype.join` (`Join`);
  - `String.prototype.split` with a non-empty separator (`Split`).
- `Whitespace`: `String.prototype.trim`. It strips the ECMAScript WhiteSpace
  and LineTerminator characters.
- `Decimal`: how JavaScript renders a non-negative integer inside a string.
- `Prompt`: the context blocks and the prompt.
- `Answer`: the answer extraction. It also holds the corrected extraction
  (see Findings).
- `Server`: both handlers and the stored file name.

Strings are sequences of Unicode scalar values.

The outside services are parameters of the `/chat` handler:

- `retrieve: string -> seq<Document>` stands for the top-2 similarity search;
- `generate: string -> Generation` stands for the request to the
  text-generation service.

The handler returns its response together with the list of outside calls it
made. That list lets the contracts say that a rejected request makes no call.
The two numbers in the stored file's name are inputs: the upload time in
milliseconds and a random number.

The prompt the handler builds (server/index.js:83) ends with its own
`Assistant:`, so one might expect the answer to be the text after the last
`Assistant:`, which is the prompt's closing cue only when the reply holds none.
The code takes
`split('Assistant:')[1]`: the text between the first occurrence and the
second. The model follows the code. The handler
`Server.Chat` uses that as-written extraction, `Answer.ExtractAnswer`. The
consequences are under Findings.

## Model

| member | source | states |
|---|---|---|
| Prompt.RenderContext | server/index.js:81 | No retrieved documents give the empty context and any document gives a non-empty one. A non-empty context opens with the heading `Context 1:` and a line break. |
| Prompt.ContextLayout | server/index.js:81 | Document `i` appears verbatim after the heading `Context <i+1>:` and a line break, at its offset in the context. A blank line follows each block but the last, and the next block starts right after it, so the blocks keep retrieval order and the last ends the context. |
| Prompt.ContextSnoc | server/index.js:81 | One more retrieved document appends a blank line and that document's numbered block and changes nothing before them. |
| Prompt.RenderContextIteratively | server/index.js:81 | Rendering the blocks one at a time, left to right, as `map` followed by `join` does, yields the context. |
| Prompt.ContextWithoutCue | server/index.js:81 | If no document contains `Assistant:`, the context does not either: neither the headings nor the separators can form it. |
| Prompt.BuildPrompt | server/index.js:83 | The prompt's layout, by position and length: the fixed instruction and a blank line, then the context. After it come a blank line and `User: `, then the query verbatim. It ends with a blank line and `Assistant:`. |
| Prompt.LeadWithoutCue | server/index.js:83 | The prompt up to the query holds no `Assistant:` when the context holds none, because the instruction has no colon. It ends in the space of `User: `. |
| Prompt.PromptHeadWithoutCue | server/index.js:83 | The prompt before its closing cue contains no `Assistant:` when neither the context nor the query does. |
| Prompt.PromptCueIsFirst | server/index.js:83 | If neither the context nor the query contains the cue, the first `Assistant:` in the prompt followed by anything is the prompt's closing one. |
| Answer.GeneratedText | server/index.js:111-112 | `data[0]?.generated_text`: a text only when the reply is a non-empty array, and then exactly the first candidate's text, absent when that candidate has none. |
| Answer.OnlyFirstCandidate | server/index.js:111-113 | Candidates after the first never change the text read. A first candidate without text, an empty array, or a reply that is not an array is answered `No response`. |
| Answer.ExtractAnswer | server/index.js:110-113 | The message is never empty. It is `No response` when the generated text is undefined or empty. A non-empty text without the cue comes back whole. If the cue occurs, the message is the whole text or a text with no white space at either end. |
| Answer.CueSegment | server/index.js:111 | `split('Assistant:')[1]?.trim()` is defined exactly when the cue occurs, and then has no white space at either end. |
| Answer.SecondPieceBetweenCues | server/index.js:111 | Let the first cue start at `i` and the next one start at `k` (or the text end there). The second piece of the split is then exactly the text between the end of the first cue and `k`. |
| Answer.AnswerAfterFirstCue | server/index.js:110-113 | If the cue occurs, the message is the trimmed text between the first and second cue, unless that is blank. A blank segment makes the message the whole generated text. |
| Answer.EchoedReply | server/index.js:83-113 | The service echoes the prompt followed by a reply, and none of context, query and reply contains the cue. Then the message is the trimmed reply. An all-blank reply gives back the whole echoed text, prompt included. |
| Answer.EchoedReplyFromDocuments | server/index.js:81-113 | The same result stated over the retrieved documents: when no document, the query and the reply contain the cue, and the reply is not blank, the message is the trimmed reply. |
| Answer.CueInQueryIsAnswered | server/index.js:111 | A query that starts with `Assistant:` is answered with the rest of the query, trimmed, whatever the service replied, provided the context and that rest hold no `Assistant:` and the rest is not blank. (A blank rest, as in the query `Assistant: `, makes the message the whole echoed text.) |
| Answer.AnswerBetweenCues | server/index.js:111 | When the cue first follows a cue-free text, possibly empty, and next follows a cue-free `rest` that is not blank and a blank line, the message is `rest`, trimmed. |
| Answer.CueInQueryExample | server/index.js:83-113 | With no documents, the query `Assistant: hi` and the reply `Paris`, the message is `hi`. |
| Answer.ExtractReply | server/index.js:110-113 | The corrected extraction keeps the handler's fall-backs. The message is never empty, it is `No response` for an undefined or empty text, and a text without the cue comes back whole. |
| Answer.EchoedReplyAnyQuery | server/index.js:83-113 | With the corrected extraction, an echoed reply that is not blank and has no cue comes back trimmed, whatever the context and the query contain. |
| Answer.ReplyAfterLastCue | server/index.js:110-113 | With the corrected extraction, a non-blank reply without the cue after the last cue comes back trimmed, whatever precedes it. |
| Strings.FindFirst | server/index.js:111 | Finds where the first occurrence of the pattern starts, with none before it. The result is absent exactly when the pattern does not occur. |
| Strings.FindLast | server/index.js:111 | Finds where the last occurrence of the pattern starts, with none after it. The result is absent exactly when the pattern does not occur. |
| Strings.SplitFromStep | server/index.js:111 | `split` cuts at the next occurrence of the separator: the text up to it is the next piece and the scan restarts after it. Without a further occurrence, the rest of the text is the last piece. |
| Strings.SplitPieces | server/index.js:111 | `split` gives a single piece exactly when the separator does not occur, and no piece contains the separator. |
| Strings.JoinSplit | server/index.js:111 | Joining the pieces of a split with the separator gives back the original text. |
| Strings.SplitSecondPiece | server/index.js:111 | When the separator occurs there is a second piece. It is the text after the first occurrence up to the next one, or up to the end of the text. |
| Strings.SecondPieceOfHeadUnique | server/index.js:111 | For a pattern whose first character does not recur in it, such as `Assistant:`: in `h + pat + mid + pat + tail`, where `h` and `mid` (either possibly empty) do not contain the pattern, the second piece is `mid`. |
| Strings.JoinLayout | server/index.js:81 | Each element of a join sits verbatim at its offset. The separator follows each element but the last, and the last element ends the result. |
| Strings.JoinSnoc | server/index.js:81 | Joining one more element onto a non-empty list appends the separator and that element. (Onto the empty list the join is the element alone.) |
| Strings.JoinNoOccurrence | server/index.js:81 | The join holds no occurrence of a non-empty pattern when no element holds one and the separator is non-empty, holds none, and begins and ends with characters the pattern lacks. Without the last condition an occurrence can straddle a separator: the elements `a` and `b` joined by `-` give `a-b`. |
| Whitespace.Trim | server/index.js:111 | The result occurs in the input with only white space before and after it. It has no white space at either end, and it is empty exactly when the input is all white space. |
| Whitespace.TrimAt | server/index.js:111 | Trimming is determined by its contract: a text that is a stripped `r` with only white space around it trims to `r`. |
| Whitespace.TrimPadded | server/index.js:111 | A text with no white space at either end, padded with white space, trims to exactly that text. |
| Whitespace.TrimIdempotent | server/index.js:111 | Trimming twice is the same as trimming once. |
| Whitespace.TrimIgnoresTrailingSpace | server/index.js:111 | White space appended to a text does not change its trimmed form. |
| Decimal.Show | server/index.js:39 | A number renders as one or more decimal digits, with no leading zero unless the number is zero. |
| Decimal.ValueShow | server/index.js:39 | Reading back the digits a number renders as gives that number. |
| Decimal.ShowValue | server/index.js:39 | A canonical digit string is the rendering of the number it denotes. |
| Decimal.ShowInjective | server/index.js:39-40 | Different numbers render differently, so the upload time and the random number are recoverable from the stored name. |
| Server.UploadPdf | server/index.js:49-58 | A missing upload gets 400 with `No file uploaded`, and nothing is queued. Otherwise exactly one `file-ready` job is queued, carrying the client's file name, the storage directory and the stored path, and the response is 200 `uploaded`. |
| Server.UniqueSuffix | server/index.js:39 | The suffix has a dash, and split at its first dash it reads back as the upload time before it and the random number after it, both as canonical decimal numerals. |
| Server.StoredFilename | server/index.js:38-41 | The stored name is the unique suffix, a dash, and the client's file name, which it ends with. |
| Server.ParseStoredFilenameRoundTrip | server/index.js:38-41 | The stored name yields the upload time, the random number and the original name back, whatever the original name contains. |
| Server.ParsedStoredFilenameIsStoredName | server/index.js:38-41 | Conversely, every name the parser accepts is the stored name of what it returns. |
| Server.JobNamesStoredFile | server/index.js:38-56 | The job's file name is the original name. The stored file's name ends with it and still yields it. |
| Server.Chat | server/index.js:61-116 | An absent or empty query gets 400 with `Missing user query`, and no outside call is made. Otherwise the handler retrieves with the query and sends the prompt built from the retrieved context and the query, in that order. A failing service gets 500 with `Hugging Face API failed` and its body as details. A successful one gets 200 with the extracted message, which is never empty, and the retrieved documents. |
| Server.ChatReturnsEchoedReply | server/index.js:61-116 | End to end: the service echoes the prompt and a non-blank reply, and no document, query or reply contains the cue. The response is then 200 with the trimmed reply and the retrieved documents. |

## Left out

- The Express application is left out: routing, CORS, creating the uploads directory when it is missing, `listen` and the health route `GET /`. These are server plumbing with no string logic.
- The multipart parsing and disk writing of the upload middleware are left out. The handler sees only the resulting file record.
- The queue and its Redis connection are left out. Queuing is modelled as the list of jobs the handler adds.
- The embedding model, the vector store, the retriever's similarity search and the HTTP request to the text-generation service are left out. They are the parameters `retrieve` and `generate`. The request's fixed sampling parameters are not modelled.
- Exceptions are left out: a retrieval failure, a body that is not JSON, a queue failure. The handler does not catch them; what the client then sees depends on the Express version, which the source does not fix.
- Server.Chat: a `message` parameter that arrives as an array (`?message=a&message=b`) is not modelled. The query is an optional string.
- Answer.GeneratedText: a `generated_text` of JSON `null` is modelled as absent (`null?.split` short-circuits and the handler answers `No response`). Other non-string values, which would make `split` throw, are not modelled.
- Answer.GeneratedText: a reply body that is JSON `null` would make `data[0]` throw, and an object with a key `0` would be read like an array. The model treats every value that is not an array as carrying no text.
- Answer.ExtractReply: for a reply that itself holds `Assistant:` (the service continuing the dialogue), it returns the text after the reply's last cue, where the handler returns the text up to the reply's first cue. Which of the two a caller wants is not settled by the source, so the model proves the correction only for cue-free replies.
- Prompt.Document: the metadata is simplified to a map from strings to strings; the loader's metadata holds nested objects. The handler passes the documents back untouched, so nothing proved depends on it.
- Server.UniqueSuffix: the clock and the random number generator are inputs. A timestamp of 10^21 or more would render in exponent notation and is not modelled.
- Server.UploadPdf: the stored `path`, the directory joined with the stored name by the operating system's path rules, is taken as given.
- Whitespace.Trim: the Unicode space separators are fixed to the current Zs members. Strings are sequences of scalar values, not UTF-16 code units, so a lone surrogate cannot be represented.
- The ingestion worker and the vector store connectivity script are not part of this model.

## Findings

| source | as written | input that shows it | evidently intended | confidence | as-written member | corrected member |
|---|---|---|---|---|---|---|
| server/index.js:111 | Takes the piece after the first `Assistant:`. When the query contains the cue, that piece is inside the echoed query, not after the prompt's closing cue. | No documents, the query `Assistant: hi`, the service echoing the prompt followed by `Paris`: the user gets `hi`, their own query text. | Take the text after the last `Assistant:`, which is the prompt's own closing cue when the reply holds none. A cue-free reply then comes back whatever the query contains (proved by `Answer.EchoedReplyAnyQuery`). A reply that itself holds the cue is answered differently by the two: the handler returns its first turn, the correction its last. | medium, not executed | Answer.CueInQueryIsAnswered | Answer.ExtractReply |

`Server.Chat` keeps the as-written extraction so that the handler's model
matches the code. `Answer.CueInQueryExample` is the concrete instance of the
as-written behaviour.
