# Retrieval core of a document question-answering assistant, in Dafny

This project models the parts of a retrieval-augmented chat assistant that are logic rather
than calls to external services:

- **The chunker** (`chunkText`, module `Chunking`). It normalises a document's text: CR LF
  becomes LF, runs of three or more LFs collapse to two, and surrounding whitespace is
  trimmed. It then cuts the text into overlapping chunks. Each cut prefers a paragraph break
  or the end of a sentence that lies past the middle of the window. The scan loop is the
  method `ScanChunks`. It is proved equal to `ChunkSpec`, a description of the same scan as
  a list of windows (`Windows`) whose trimmed slices are numbered when they are non-empty
  (`Emit`). The properties are proved about that description.
- **The supported file types** (`SUPPORTED_MIME_TYPES`, `getFileType`, module
  `FileStorageTypes`): a two-entry table and its inverse lookup, written as a loop over the
  table's entries.
- **Shared types** (`FILE_STATUS`, `extractTextFromParts`, module `Types`).
- **The chat endpoint's pure logic** (module `ChatRoute`). It picks the last user message
  and extracts the question. It chooses the `match_chunks` parameters and joins the returned
  chunk texts into a context. On an empty context it uses the fixed refusal prompt;
  otherwise it fills in the RAG prompt template.

Module `JsText` models the JavaScript built-ins the code relies on: `trim` with its
whitespace set, the two-character `lastIndexOf(pattern, from)`, and `filter`, `map` and
`join`. JavaScript strings are sequences of UTF-16 code units, so `JsText` and `Chunking`
work on `JsString`, a sequence of the `CodeUnit` newtype (0 to 0xFFFF): lengths and offsets
are those of the source. A character outside the Basic Multilingual Plane takes two units,
and a chunk boundary can fall between them (`SurrogatePairSplit`). The shared types and the
chat route only compare, concatenate and join strings, never measure or cut them, so they
use Dafny's `string`. `Wrappers` holds `Option`.

Where the code behaves in a surprising way, the model follows the code:

- The code does not reject a chunk overlap that is too large; it can loop forever instead.
  The model requires `0 < chunkSize` and `2 * chunkOverlap <= chunkSize`, which the defaults
  1000/200 meet (`DefaultsAreValid`).
- The loop stops when `start >= length - overlap`, that is when the cut reaches the end of
  the text. The last window therefore always ends at the end of the text and nothing is
  skipped (`ChunkSpecCovers`).
- For a 2500-character text without breaks and sizes 1000/200, the code makes three
  windows, `[0,1000)`, `[800,1800)` and `[1600,2500)` (`ScanWithoutBreaks`).
- A CR directly before a CR LF survives normalisation as a CR LF (`CrBeforeCrlfSurvives`).
  The replacement is a single left-to-right pass.

## Model

| member | source | states |
|---|---|---|
| `Chunking.SizeOf` | src/lib/services/chunking/index.ts:18-21 | An absent chunk size defaults to 1000; a given size, even 0, is used as is |
| `Chunking.OverlapOf` | src/lib/services/chunking/index.ts:18-21 | An absent overlap defaults to 200; a given overlap is used as is |
| `Chunking.DefaultsAreValid` | src/lib/services/chunking/index.ts:11-21 | With no options the sizes are 1000 and 200, and they satisfy the precondition under which the scan advances |
| `Chunking.CollapseNoTriple` | src/lib/services/chunking/index.ts:25 | After `\n{3,}` → `\n\n` no run of three LFs is left |
| `Chunking.CollapseKeepsShortRuns` | src/lib/services/chunking/index.ts:25 | Text without a run of three LFs is left unchanged by the collapse |
| `Chunking.CollapseIdempotent` | src/lib/services/chunking/index.ts:25 | Collapsing twice gives the same as collapsing once |
| `Chunking.ReplaceCrlfNoCrlf` | src/lib/services/chunking/index.ts:24 | The CR LF replacement leaves no CR LF when no CR precedes another CR |
| `Chunking.CollapseKeepsNoCrlf` | src/lib/services/chunking/index.ts:25 | Collapsing LF runs creates no CR LF |
| `Chunking.NormalizeShape` | src/lib/services/chunking/index.ts:23-26 | The normalised text has no whitespace at either end and no run of three LFs; it has no CR LF when the input has no CR before a CR |
| `Chunking.ReplaceCrlfExample` | src/lib/services/chunking/index.ts:24 | The single left-to-right pass turns `a CR CR LF b` into `a CR LF b` |
| `Chunking.CollapseExample` | src/lib/services/chunking/index.ts:25 | `a CR LF b` holds no LF run for the collapse to shorten |
| `Chunking.TrimExample` | src/lib/services/chunking/index.ts:26 | `a CR LF b` is its own trim |
| `Chunking.CrBeforeCrlfSurvives` | src/lib/services/chunking/index.ts:23-26 | Normalising `a CR CR LF b` gives `a CR LF b`, which still holds a CR LF |
| `Chunking.LastSentenceBreakIsLast` | src/lib/services/chunking/index.ts:49-53 | The maximum of the three `lastIndexOf` calls is the last `. `, `! ` or `? ` at or before the proposed end |
| `Chunking.CutEnd` | src/lib/services/chunking/index.ts:41-59 | A cut lies strictly past the window's midpoint (`2*end > 2*start + size`), at most at `start + size + 1`, and is the raw boundary, a paragraph break or one past a sentence break |
| `Chunking.CutEndChoice` | src/lib/services/chunking/index.ts:43-59 | Inside the text, the last paragraph break past the midpoint wins; failing that, the cut goes just after the last sentence break past the midpoint; failing both, it is `start + size` |
| `Chunking.CutEndWithoutBreaks` | src/lib/services/chunking/index.ts:41-59 | Without paragraph or sentence breaks every cut is `start + size` |
| `Chunking.ScanBounds` | src/lib/services/chunking/index.ts:40-71 | Every window of the scan is non-empty and lies between its start and the end of the text |
| `Chunking.ScanStep` | src/lib/services/chunking/index.ts:61-71 | Each window but the last ends at its cut before the text end; the next starts `overlap` before that cut and strictly after the window's own start |
| `Chunking.ScanLast` | src/lib/services/chunking/index.ts:67-71 | The scan stops at the first window whose cut reaches the text end |
| `Chunking.ScanHead` | src/lib/services/chunking/index.ts:40-71 | The first window ends at the first cut clipped to the text; the rest is the scan from the next start |
| `Chunking.ScanCovering` | src/lib/services/chunking/index.ts:37-71 | Every offset of the text lies in some window |
| `Chunking.WindowsStep` | src/lib/services/chunking/index.ts:37-71 | The first window starts at 0; each ends at its cut clipped to the text; another follows exactly when the cut lies before the text end, and starts `overlap` before the cut, strictly later |
| `Chunking.WindowSize` | src/lib/services/chunking/index.ts:41-59 | A window is at most `chunkSize + 1` characters wide |
| `Chunking.TrimmedSlices` | src/lib/services/chunking/index.ts:61 | One trimmed slice per window |
| `Chunking.TrimmedSliceAt` | src/lib/services/chunking/index.ts:61 | Piece `j` is the trimmed slice of window `j` |
| `Chunking.WindowWithTextIsKept` | src/lib/services/chunking/index.ts:61-62 | A window holding a non-whitespace character is not dropped |
| `Chunking.EmitIsFiltered` | src/lib/services/chunking/index.ts:61-65 | The emitted chunks are exactly the non-empty trimmed slices, in order, numbered 0..N-1; an empty slice uses up no index |
| `Chunking.EmitSnoc` | src/lib/services/chunking/index.ts:61-65 | One more slice adds one chunk numbered after those before it when non-empty, and nothing otherwise |
| `Chunking.EmitFromPiece` | src/lib/services/chunking/index.ts:61-63 | Each emitted text is the trimmed slice of some window |
| `Chunking.PieceIsEmitted` | src/lib/services/chunking/index.ts:61-63 | Each non-empty trimmed slice is emitted |
| `Chunking.ChunkSpecEmpty` | src/lib/services/chunking/index.ts:23-30 | There are no chunks exactly when the normalised text is empty |
| `Chunking.ChunkSpecShort` | src/lib/services/chunking/index.ts:32-34 | A normalised text of at most `chunkSize` characters gives exactly one chunk, index 0, holding the whole normalised text |
| `Chunking.ChunkSpecChunks` | src/lib/services/chunking/index.ts:32-74 | Chunk `k` has index `k`, and its text is non-empty, has no whitespace at either end, is at most `chunkSize + 1` long and is a slice of the normalised text |
| `Chunking.EmittedChunk` | src/lib/services/chunking/index.ts:40-72 | The same, for the chunks of the scan loop |
| `Chunking.ChunkSpecCovers` | src/lib/services/chunking/index.ts:37-71 | Every non-whitespace character of a long text lies in a window whose trimmed slice is emitted |
| `Chunking.WindowPiece` | src/lib/services/chunking/index.ts:41-61 | The piece of a window is `trim(normalized.slice(start, end))` with the end clipped to the text |
| `Chunking.LoopStep` | src/lib/services/chunking/index.ts:40-71 | One loop iteration appends the trimmed slice when non-empty, with the next free index, and continues from `end - overlap` exactly when `end` lies before the text end |
| `Chunking.ChunkText` | src/lib/services/chunking/index.ts:14-75 | `chunkText` returns exactly `ChunkSpec` of its text and sizes, with indices 0..N-1 and non-empty texts |
| `Chunking.ScanChunks` | src/lib/services/chunking/index.ts:36-74 | The `while` loop returns the numbered non-empty trimmed slices of the scan's windows |
| `Chunking.ReplaceCrlf` | src/lib/services/chunking/index.ts:24 | Replacing CR LF by LF never lengthens the text; its first unit becomes LF when the text starts with CR LF and is kept otherwise |
| `Chunking.ReplaceCrlfWithoutCr` | src/lib/services/chunking/index.ts:24 | A text without CR is left unchanged by the replacement |
| `Chunking.CollapseNewlines` | src/lib/services/chunking/index.ts:25 | Collapsing LF runs never lengthens the text and keeps its first unit |
| `Chunking.Normalize` | src/lib/services/chunking/index.ts:23-26 | The normalised text is no longer than the input and is empty or has no whitespace at either end |
| `Chunking.NormalizePlainText` | src/lib/services/chunking/index.ts:23-26 | A non-empty text without whitespace, line breaks or sentence punctuation is its own normalisation |
| `Chunking.LastSentenceBreak` | src/lib/services/chunking/index.ts:49-53 | The result is -1 or an offset at or before the proposed end where `. `, `! ` or `? ` starts |
| `Chunking.Scan` | src/lib/services/chunking/index.ts:40-71 | The scan yields at least one window, the first starting at the given start and the last ending at the text end |
| `Chunking.Windows` | src/lib/services/chunking/index.ts:37-71 | Every window of `chunkText`'s scan is non-empty and lies inside the text |
| `Chunking.WindowsJustOverSize` | src/lib/services/chunking/index.ts:37-71 | A plain 1001-unit text with sizes 1000/200 is scanned in windows `[0,1000)` and `[800,1001)` |
| `Chunking.Emit` | src/lib/services/chunking/index.ts:61-65 | At most one chunk per slice; chunk `k` has index `k` and a non-empty text |
| `Chunking.EmitTwo` | src/lib/services/chunking/index.ts:61-65 | Two non-empty slices become chunks 0 and 1 |
| `Chunking.ChunkSpec` | src/lib/services/chunking/index.ts:23-74 | Every chunk `chunkText` returns has its position as index and a non-empty text |
| `Chunking.ChunksJustOverSize` | src/lib/services/chunking/index.ts:14-75 | A plain 1001-unit text gives two chunks: its first 1000 units and its units from offset 800 |
| `Chunking.SurrogatePairSplit` | src/lib/services/chunking/index.ts:41-61 | 999 letters and one astral character give two chunks, the first ending in the high surrogate alone |
| `Chunking.ScanWithoutBreaks` | src/lib/services/chunking/index.ts:40-71 | A 2500-character text without breaks, with sizes 1000/200, is scanned in windows `[0,1000)`, `[800,1800)`, `[1600,2500)` |
| `Chunking.OverlapAboveHalfGoesBack` | src/lib/services/chunking/index.ts:40-71 | With size 10 and overlap 8, the first cut of `aaaaaa\n\nbbbb` is 6 and the next start is negative, behind the current start |
| `JsText.IsWhitespace` | src/lib/services/chunking/index.ts:26 | The ECMAScript whitespace and line terminators that `trim` removes: space, tab, LF and CR among them, no printable ASCII character and no surrogate |
| `JsText.Trim` | src/lib/services/chunking/index.ts:26 | `trim` leaves no whitespace at either end and never lengthens its input |
| `JsText.TrimEmpty` | src/lib/services/chunking/index.ts:61-62 | `trim` gives the empty string exactly when the input is all whitespace |
| `JsText.TrimIsSlice` | src/lib/services/chunking/index.ts:61 | `trim` keeps a slice of its input with only whitespace outside it |
| `JsText.TrimUnchanged` | src/lib/services/chunking/index.ts:26 | A text with no whitespace at either end is its own trim |
| `JsText.TrimOfSlice` | src/lib/services/chunking/index.ts:61 | Trimming a slice of a text gives a slice of that text inside it |
| `JsText.LastIndexOf` | src/lib/services/chunking/index.ts:44 | `lastIndexOf` returns -1 or an occurrence at or before `from` (which may be `from` itself) |
| `JsText.LastIndexOfIsLast` | src/lib/services/chunking/index.ts:44 | No occurrence lies between the one returned and `from` |
| `JsText.Filter` | src/lib/types.ts:15-16 | `filter` never lengthens its input and keeps only elements of the input that pass the test |
| `JsText.Map` | src/lib/types.ts:17 | `map` keeps the length, and element `i` of the result is the function applied to element `i` |
| `JsText.FilterConcat` | src/lib/types.ts:15-16 | `filter` distributes over concatenation, so it keeps relative order |
| `JsText.FilterEmpty` | src/lib/types.ts:15-16 | `filter` keeps nothing exactly when no element passes |
| `JsText.Join` | src/lib/types.ts:18 | `join` of nothing is empty, and the result starts with the first string and ends with the last; `JoinLength`, `JoinEmpty` and `JoinSnoc` give the rest of its meaning |
| `JsText.JoinLength` | src/lib/types.ts:18 | The length of a join of k > 0 strings is their total length plus k-1 separator lengths |
| `JsText.JoinEmpty` | src/app/api/chat/route.ts:47-52 | With a non-empty separator a join is empty exactly when it joins nothing or one empty string |
| `JsText.JoinSnoc` | src/lib/types.ts:18 | Joining one more string appends one separator and that string |
| `FileStorageTypes.TypeName` | src/lib/services/file-storage/types.ts:11 | The type names are `pdf` and `docx` |
| `FileStorageTypes.SupportedMimeType` | src/lib/services/file-storage/types.ts:13-16 | `pdf` maps to `application/pdf` and `docx` to the wordprocessingml type, and to nothing else |
| `FileStorageTypes.EntriesListTable` | src/lib/services/file-storage/types.ts:13-19 | The entries walked by `getFileType` list every type once, each with its own MIME type |
| `FileStorageTypes.MimeTypesDistinct` | src/lib/services/file-storage/types.ts:13-16 | No two types share a MIME type |
| `FileStorageTypes.GetFileType` | src/lib/services/file-storage/types.ts:18-25 | A type is returned only for its exact MIME type, every type is returned for its own MIME type (so `application/pdf` → `pdf` and the wordprocessingml type → `docx`), and `null` exactly for every other string |
| `Types.StatusValue` | src/lib/types.ts:1-5 | Each status has its own value: `processing`, `ready` or `error` |
| `Types.PartText` | src/lib/types.ts:17 | A missing text reads as `""`; a present one is used unchanged |
| `Types.TextPartTexts` | src/lib/types.ts:15-17 | There is one text for each `text` part |
| `Types.ExtractTextFromParts` | src/lib/types.ts:14-19 | Without a `text` part the result is `""`; with one, it is that part's text, or `""` when the text is missing |
| `Types.TextPartTextsSnoc` | src/lib/types.ts:15-17 | A `text` part added at the end adds its text at the end of the texts joined |
| `Types.FileStatusValues` | src/lib/types.ts:1-7 | `FILE_STATUS` has exactly three distinct values: `processing`, `ready`, `error` |
| `Types.ExtractWithoutTextParts` | src/lib/types.ts:14-19 | With no `text` part the result is `""` |
| `Types.ExtractIgnoresOtherParts` | src/lib/types.ts:15-16 | Inserting a non-`text` part anywhere leaves the result unchanged |
| `Types.ExtractAppendText` | src/lib/types.ts:14-19 | A `text` part added at the end contributes its text, after one space when an earlier `text` part exists; a lone `text` part yields its text unchanged |
| `Types.ExtractMissingTextCounts` | src/lib/types.ts:17-18 | A `text` part without text contributes `""` but still adds its separating space |
| `Types.ExtractLength` | src/lib/types.ts:14-19 | For k `text` parts the result's length is the sum of their texts' lengths plus k-1 spaces |
| `ChatRoute.LastUserMessage` | src/app/api/chat/route.ts:9-11 | The message picked, when there is one, is one of the messages and has the role `user` |
| `ChatRoute.ExtractQuestion` | src/app/api/chat/route.ts:17-30 | String `content` is the question whatever the `parts`; without string `content`, array `parts` or array `content` the question is `""` |
| `ChatRoute.NoLastUserMessage` | src/app/api/chat/route.ts:9-15 | There is no message to answer exactly when no message has the role `user` |
| `ChatRoute.LastUserMessageAt` | src/app/api/chat/route.ts:9-11 | The message picked has the role `user` and no later message has it |
| `ChatRoute.QuestionPrecedence` | src/app/api/chat/route.ts:17-30 | String `content` is used verbatim whatever the `parts`; else array `parts` are used whatever the non-string `content`; else array `content`; else `""` |
| `ChatRoute.QuestionIgnoresOtherParts` | src/app/api/chat/route.ts:20-29 | A non-`text` part inserted into `parts` or array `content` never changes the question |
| `ChatRoute.SearchParamsFor` | src/app/api/chat/route.ts:34-40 | Threshold 0.5, count 5; `file_ids` is null exactly when `selectedFileIds` is absent or empty, and otherwise passed through unchanged |
| `ChatRoute.ContextText` | src/app/api/chat/route.ts:47-50 | No rows, or a missing result, give `""`; a single row gives its text alone |
| `ChatRoute.ContextEmpty` | src/app/api/chat/route.ts:47-52 | The context is `""` exactly when no rows came back or a single row with empty text |
| `ChatRoute.ContextAppend` | src/app/api/chat/route.ts:47-50 | Row texts appear in the returned order, each after a `\n\n---\n\n` separator except the first |
| `ChatRoute.RagPrompt` | src/app/api/chat/route.ts:62-83 | The RAG prompt is longer than the context and question line together and ends with `User question: <question>` and a newline |
| `ChatRoute.RefusalInRules` | src/app/api/chat/route.ts:67-69 | The RAG rules quote the refusal sentence verbatim |
| `ChatRoute.FiveParts` | src/app/api/chat/route.ts:62-83 | Each part of the five-part prompt lies at the offset the parts before it add up to |
| `ChatRoute.RagPromptLayout` | src/app/api/chat/route.ts:62-83 | The RAG prompt is the fixed rules (quoting the refusal sentence), `Context:` and a `---` line, the context verbatim, a `---` line, and `User question: <question>` last |
| `ChatRoute.PromptsDiffer` | src/app/api/chat/route.ts:52-83 | The RAG prompt never equals the refusal prompt |
| `ChatRoute.Answer` | src/app/api/chat/route.ts:42-92 | A plain response is given exactly when the search failed; every streamed answer uses `gemini-2.5-flash` |
| `ChatRoute.AnswerCases` | src/app/api/chat/route.ts:42-92 | A search error, and only that, gives 500 `Error searching documents`; otherwise the refusal prompt is streamed exactly when the context is empty, independently of the question, and the RAG prompt otherwise |
| `ChatRoute.Post` | src/app/api/chat/route.ts:6-92 | No user message gives 400 `No user message found`; otherwise the search is called with the extracted question and chosen parameters, and its outcome (a returned `error` or rows) decides the answer |
| `ChatRoute.NoUserMessageSkipsSearch` | src/app/api/chat/route.ts:13-15 | Without a user message the response does not depend on the search |
| `ChatRoute.NonEmptyRowsGiveRagPrompt` | src/app/api/chat/route.ts:47-83 | When every returned row has a non-empty text, the RAG prompt is used exactly when some row came back |

## Left out

- `Chunking.ChunkText`: requires `0 < chunkSize` and `2 * chunkOverlap <= chunkSize`. The source checks neither. A zero size never advances. A larger overlap can move `start` backwards, to negative offsets where JavaScript's `slice` counts from the end of the string. That behaviour is not modelled; `OverlapAboveHalfGoesBack` shows where it begins.
- `Chunking.NormalizeShape`: promises no CR LF only for input without a CR directly before another CR. The single replacement pass leaves a CR LF behind in `CR CR LF` (`CrBeforeCrlfSurvives`).
- Strings in `Types` and `ChatRoute` are Dafny strings, whose elements are Unicode scalar values, so a lone surrogate cannot occur there; nothing in those modules depends on lengths or offsets. There is no Unicode normalisation, and `trim` uses the fixed ECMAScript whitespace set.
- `ChatRoute.Post`: covers only the paths that return a response. Throws that escape `POST` are not modelled: a rejection of `getEmbedding(userQuestion)` (for example on an empty question) or of `createClient()`, and `messages` not being an array (`.filter` throws). `SearchFailed` stands only for the `error` that `match_chunks` returns, which gives the 500 `Error searching documents`.
- The query embedding, the `match_chunks` call and its similarity threshold, limit and ordering run in external services. The model takes the search as a function parameter and records only the parameters passed to it.
- Text generation and streaming (`streamText`, `createUIMessageStreamResponse`) are external. A streamed response records only the model name and the prompt. Whether the generator obeys the prompt cannot be checked.
- Parsing the request body (`req.json()`) and its failures are not modelled. `selectedFileIds` is taken to be absent or an array of ids, and a message's `content` a string, an array of parts, or something else.
- The `console.error` logging on a search error is left out.
- The `FileStorageProvider` interface describes storage backends, which do I/O; it is not part of this model.
