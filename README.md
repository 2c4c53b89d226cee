# HR knowledge-base chunker and chat helpers, in Dafny

This project models the parts of the `sds` repository that are plain string and list logic:

- **The structural markdown chunker** `split_and_tag_markdown` (`week2/markdown_rag.py`):
  - it takes the employee name from the file path with `re.search(r"/([^/]+)\.md$", …)`;
  - it splits the record at its H2 headers with `re.split(r"(##\s[^\n]+)", …)`;
  - it scans the parts, keeping a current title and a current content;
  - it emits one chunk per section with content, tagged `"<Employee>'s <Section title>:\n"`;
  - a final filter drops chunks with blank content.
- **The library-backed chunker** `create_chunks` (`week2/ingest.py`):
  - each document's name comes from its `source` metadata;
  - the header splitter's pieces are tagged;
  - blank pieces under the default "Summary" title are dropped;
  - document and piece metadata are merged.
- **The `doc_type` loop of `fetch_documents`** (`week2/ingest.py`).
- **The two digital-twin chat callbacks** (`projects/digital_twin.py`, `projects_team/digital_twin.py`):
  - conversation assembly and `clean_messages`;
  - the fallback apology when the agent raises;
  - the profile's whitespace normalisation `" ".join(s.split())`.
- **The two keyword-dispatch chatbots** (`week1/lab9_business.py`, `week1/lab9.1.py`):
  - the price table lookup;
  - the first table key found in the lower-cased last message;
  - the in-place append of at most one assistant message, including what a failed chat or image call leaves behind;
  - `do_entry`.

Modules:

- `Options`: the option type.
- `Text`: Python's `isspace`, `strip`, `lstrip`, `startswith`, `endswith`, substring `in`, `lower`, `replace`, `split` and `" ".join`.
- `Seqs`: the list shapes the ingestion loops build.
- `MarkdownRag`, `Ingest`: the two chunkers.
- `Messages`: message dictionaries, `clean_messages`, the agent fallback, and the Gradio history list as a class updated in place.
- `DigitalTwin`, `TeamDigitalTwin`: the two digital-twin callbacks.
- `KeywordDispatch`: what the two toy chatbots share.
- `MetalWorksChat`, `FlightChat`: the two toy chatbots.

How each operation is specified:

- Each loop of the source is a method proved against a specification function:
  - `ScanParts` against the section-wise chunk list `SectionChunks`;
  - `FetchDocuments` and `CreateChunks` against `ConcatMap` definitions;
  - `BuildConversation` against `Conversation`;
  - `SelectKey` against `SelectedKey`.
- Lemmas then state what the source promises about those functions.
- The LLM, agent, image model, directory loader and header splitter are function-typed parameters.

Behaviour of the code that the model keeps:

- The fallback name is "Unknown Employee" (`week2/markdown_rag.py:25`, `week2/ingest.py:86`).
- Text before the first header is titled "Preamble/Summary" by the hand-written chunker (`week2/markdown_rag.py:34`), while `create_chunks` defaults to "Summary" (`week2/ingest.py:94`).
- `$` in the name pattern also matches just before a final newline. A path ending in ".md\n" therefore names an employee too (`EmployeeNameFromPathWithNewline`).
- The split pattern matches `##` anywhere, also inside `###`, and its `\s` may be a newline. The scan takes any part that starts with "##" for a header. The model keeps both.
- The sample record at `week2/markdown_rag.py:81-104` has non-blank text before its first header. By `PreambleChunk`, that text becomes a "Preamble/Summary" chunk, in addition to one chunk per section. The comment at line 123 counts only the section chunks.
- `create_chunks` keeps a blank piece whose title is not "Summary", with content "Name's Title:\n" (`EmptyTitledPieceKept`).

## Model

| member | source | states |
|---|---|---|
| MarkdownRag.LastSlash | week2/markdown_rag.py:24 | the index of the last `/`: a slash, with none after it; none at all when absent |
| MarkdownRag.PathStem | week2/markdown_rag.py:24 | group 1 of the name pattern: non-empty, slash-free, and the path ends with "/" + it + ".md" (or ".md\n") |
| MarkdownRag.StemBefore | week2/markdown_rag.py:24 | a stem exists exactly when at least one character lies between the last slash and the extension ending the path |
| MarkdownRag.EmployeeName | week2/markdown_rag.py:24-25 | the extracted name never holds a dash or a slash |
| MarkdownRag.EmployeeNameFromPath | week2/markdown_rag.py:16-25 | "dir/<stem>.md" names `stem` with every dash read as a space |
| MarkdownRag.EmployeeNameFromPathWithNewline | week2/markdown_rag.py:24-25 | the same for "dir/<stem>.md\n", since `$` matches before a final newline |
| MarkdownRag.EmployeeNameWithoutSlash | week2/markdown_rag.py:24-25 | a path with no slash gives "Unknown Employee" |
| MarkdownRag.EmployeeNameNotMarkdown | week2/markdown_rag.py:24-25 | a path ending neither in ".md" nor ".md\n" gives "Unknown Employee" |
| MarkdownRag.EmployeeNameOfSample | week2/markdown_rag.py:16-25 | "knowledge-base/employees/Nina Patel.md" names "Nina Patel" |
| MarkdownRag.EmployeeNameWithDash | week2/markdown_rag.py:25 | "kb/people/Jane-Doe.md" names "Jane Doe" |
| MarkdownRag.EmployeeNameOfBareFile | week2/markdown_rag.py:24-25 | a bare "Nina Patel.md" names nobody |
| MarkdownRag.FindHeader | week2/markdown_rag.py:29 | the leftmost match of `##\s[^\n]+` at or after a position, none before it; none at all when absent |
| MarkdownRag.Tokenize | week2/markdown_rag.py:29 | the split always has an odd number of parts |
| MarkdownRag.TokenizeConcat | week2/markdown_rag.py:29 | joining the parts of the split gives the text back |
| MarkdownRag.TokenizeParts | week2/markdown_rag.py:29 | the parts alternate: odd parts are whole header matches, even parts contain no match and, after the first, start with a newline or are empty |
| MarkdownRag.TokenizeHeaderParts | week2/markdown_rag.py:29-43 | every header part starts with "##" and is not blank, so the scan takes it for a header |
| MarkdownRag.TokenizeLaterEvenPart | week2/markdown_rag.py:29-43 | a text part after a header never starts with "##" |
| MarkdownRag.TokenizeFirst | week2/markdown_rag.py:29 | the first part is a prefix of the text |
| MarkdownRag.HeaderAt | week2/markdown_rag.py:29 | where a match of `##\s[^\n]+` can start: "##", one whitespace character, then a character other than a newline |
| MarkdownRag.LineEnd | week2/markdown_rag.py:29 | where `[^\n]+` stops: the next newline or the end of the text, with no newline before it |
| MarkdownRag.HeaderTitle | week2/markdown_rag.py:44 | `part.strip().lstrip("##").strip()` neither starts nor ends with whitespace |
| MarkdownRag.HeaderTitleOf | week2/markdown_rag.py:44 | the title of "## t" is `t` for a trimmed `t` not starting with `#` |
| MarkdownRag.SectionsOf | week2/markdown_rag.py:37-46 | a split into n sections has 2n-1 or 2n parts |
| MarkdownRag.SectionAt | week2/markdown_rag.py:37-46 | section n holds text part 2n under header part 2n-1 (the first under no header) |
| MarkdownRag.SectionTitle | week2/markdown_rag.py:34-44 | a section is filed under "Preamble/Summary" when no header precedes it, else under its header's title |
| MarkdownRag.ChunkOf | week2/markdown_rag.py:49-66 | the chunk dict of a section: employee, section title, the tag followed by the stripped body, and the source path |
| MarkdownRag.Emits | week2/markdown_rag.py:39-52 | a text part yields a chunk exactly when it is not blank and does not start with "##" |
| MarkdownRag.Tag | week2/markdown_rag.py:55-57 | the contextual tag "<Employee>'s <Section title>:\n" |
| MarkdownRag.ChunkOfShape | week2/markdown_rag.py:52-66 | a chunk carries the name, title and source, its content is the tag followed by the trimmed non-empty body, and it is never blank |
| MarkdownRag.SectionChunks | week2/markdown_rag.py:38-70 | at most one chunk per section, each with the employee and source and non-blank content |
| MarkdownRag.SectionOfChunk | week2/markdown_rag.py:38-70 | every chunk is the chunk of a section that emits |
| MarkdownRag.SectionChunksComplete | week2/markdown_rag.py:38-70 | every section that emits gives its chunk |
| MarkdownRag.SectionChunksAppend | week2/markdown_rag.py:38-70 | chunks come out in section order |
| MarkdownRag.KeepNonBlank | week2/markdown_rag.py:74-76 | the final filter is `Seqs.Filter` with the test "content not blank": exactly the chunks with non-blank content, in their order |
| MarkdownRag.KeepNonBlankKeepsAll | week2/markdown_rag.py:74-76 | the final filter removes nothing the scan makes |
| MarkdownRag.SplitAndTagMarkdown | week2/markdown_rag.py:9-76 | the chunker returns exactly the section-wise chunks of the record |
| MarkdownRag.MarkdownChunks | week2/markdown_rag.py:9-76 | what the chunker returns for a record: the chunks of its sections after the split, named from the path |
| MarkdownRag.ScanParts | week2/markdown_rag.py:33-70 | the scan over alternating parts emits exactly the chunks of their sections |
| MarkdownRag.ScanTurn | week2/markdown_rag.py:39-70 | one turn of the loop on one part: a blank part changes nothing; a header part sets the title and clears the content; any other part appends its tagged chunk and resets content and title |
| MarkdownRag.ScanPart | week2/markdown_rag.py:39-70 | the loop body, statement by statement, computes `ScanTurn`; `ScanTextTurn` and `ScanHeaderTurn` say what a turn means for the sections |
| MarkdownRag.ScanTextTurn | week2/markdown_rag.py:47-70 | a text part under its section's title adds exactly that section's chunk, if any, and leaves no pending content |
| MarkdownRag.ScanHeaderTurn | week2/markdown_rag.py:43-46 | a header part adds no chunk and sets the title of the following section |
| MarkdownRag.ScanStep | week2/markdown_rag.py:38-70 | one more section adds its chunk, if it emits, after the earlier ones |
| MarkdownRag.ChunkCountBound | week2/markdown_rag.py:38-66 | at most one chunk per header plus one |
| MarkdownRag.RecordWithoutHeader | week2/markdown_rag.py:34-66 | a record without headers gives one "Preamble/Summary" chunk if it has content, else none |
| MarkdownRag.PreambleChunk | week2/markdown_rag.py:34-66 | non-blank text before the first header is the first chunk, titled "Preamble/Summary" |
| MarkdownRag.HeaderSectionChunk | week2/markdown_rag.py:43-66 | every header followed by non-blank text gives a chunk with the header's title and that text trimmed |
| MarkdownRag.ChunkOrigin | week2/markdown_rag.py:38-66 | every chunk is the preamble's or that of a header followed by non-blank text |
| Text.LStrip | week2/markdown_rag.py:44 | `lstrip()` removes exactly a blank prefix |
| Text.Strip | week2/markdown_rag.py:39 | `StripsTo(s, strip(s))`: `strip()` is the slice of the string after the whitespace `lstrip()` removes, followed only by whitespace; it is empty exactly for a blank string and neither starts nor ends in whitespace otherwise |
| Text.LStripChar | week2/markdown_rag.py:44 | `lstrip("##")` removes exactly the leading `#` characters |
| Text.StripTrimmed | week2/markdown_rag.py:49 | a trimmed string is its own `strip()` |
| Text.Contains | week1/lab9_business.py:94 | `p in s`: `p` occurs at some position of `s` |
| Text.Lower | week1/lab9_business.py:94 | `s.lower()`: the same length, every ASCII capital replaced by its small letter |
| Text.ReplaceChar | week2/markdown_rag.py:25 | `s.replace("-", " ")`: the same length, every occurrence of the one character replaced |
| Text.Words | projects/digital_twin.py:63 | `s.split()`: the maximal runs of non-whitespace characters, in order |
| Text.JoinWords | projects/digital_twin.py:63 | `" ".join(words)`: the words with one space between neighbours |
| Text.StartsWithContains | week1/lab9_business.py:94 | a prefix of a message is a substring of it |
| Text.NoOccurrenceAcrossTail | week1/lab9_business.py:94 | a key whose last character is absent from an appended tail does not occur in the whole |
| Text.NormalizeWhitespace | projects/digital_twin.py:63 | `" ".join(s.split())` has single spaces only between words, no leading or trailing whitespace, and keeps every other character |
| Text.NormalizeWhitespaceIdempotent | projects/digital_twin.py:63 | normalising twice is normalising once |
| Text.WordsAreWords | projects/digital_twin.py:63 | `split()` yields non-empty words without whitespace |
| Text.WordsOfJoin | projects/digital_twin.py:63 | splitting the single-space join of words gives the words back |
| Text.NonSpaceOfWords | projects/digital_twin.py:63 | `split()` keeps exactly the non-whitespace characters |
| Ingest.Basename | week2/ingest.py:43 | `os.path.basename`: slash-free and ending the path after its last slash |
| Ingest.BasenameOfJoin | week2/ingest.py:43 | the basename of "dir/name" is `name` |
| Ingest.WithDocType | week2/ingest.py:52 | setting `doc_type` keeps the content and every other key and adds exactly that key |
| Ingest.TagFolder | week2/ingest.py:51-53 | every document of a folder, in order, gets that folder's `doc_type` |
| Ingest.FetchDocuments | week2/ingest.py:39-54 | the loop over folders returns each folder's documents tagged, folder after folder |
| Ingest.FileDocuments | week2/ingest.py:51-53 | the inner loop tags every loaded document of one folder, in order |
| Ingest.FetchedCount | week2/ingest.py:40-54 | the number of documents is the sum of the per-folder loads |
| Ingest.FetchedInFolderOrder | week2/ingest.py:42-53 | each folder's tagged documents form one block, after those of earlier folders |
| Ingest.FetchedComplete | week2/ingest.py:42-53 | every loaded document appears, tagged with its folder's basename |
| Ingest.FetchedOrigin | week2/ingest.py:42-53 | every fetched document is a loaded one whose `doc_type` is its folder's basename |
| Ingest.FolderDocuments | week2/ingest.py:39-54 | what `fetch_documents` returns for the folders found: each folder's loaded documents tagged with its name, folder after folder |
| Ingest.TagPiece | week2/ingest.py:102-106 | content is the tag followed by the piece's own content; metadata has every key of both, the piece winning on a collision |
| Ingest.KeptPiecesAreTaggedSurvivors | week2/ingest.py:91-107 | the inner loop's result is the kept pieces, tagged, in splitter order, never more than the pieces |
| Ingest.KeptPiecesExactly | week2/ingest.py:94-107 | a piece is tagged and kept exactly when it is not a blank "Summary" piece |
| Ingest.SummaryPieceDropped | week2/ingest.py:94-99 | a blank piece titled "Summary", or untitled, is dropped |
| Ingest.EmptyTitledPieceKept | week2/ingest.py:94-107 | an empty piece under another title is kept, with content "Name's Title:\n" |
| Ingest.MissingSourceUnknown | week2/ingest.py:82-87 | a document without `source` is attributed to "Unknown Employee" |
| Ingest.SourceOf | week2/ingest.py:82 | `doc.metadata.get("source", "")`: the stored path, or the empty string |
| Ingest.PieceTitle | week2/ingest.py:94 | `chunk.metadata.get("Section_Title", "Summary")`: the stored title, or "Summary" |
| Ingest.Dropped | week2/ingest.py:97-99 | a piece is skipped exactly when its text is blank and its title is "Summary" |
| Ingest.Kept | week2/ingest.py:97-107 | a piece goes on to be tagged and appended exactly when it is not dropped |
| Ingest.TagFor | week2/ingest.py:102-106 | the tagging of lines 102-106 for one employee and document, applied to a piece |
| Ingest.KeptPieces | week2/ingest.py:91-107 | the chunks one document's pieces give: piece after piece, nothing for a dropped one, the tagged piece for a kept one |
| Ingest.DocumentChunks | week2/ingest.py:81-107 | one document's chunks: the employee named from its source path, its text split into pieces, the kept pieces tagged |
| Ingest.AllChunks | week2/ingest.py:63-109 | what `create_chunks` returns: the chunks of every document, document after document |
| Ingest.CreateChunks | week2/ingest.py:63-109 | the loop over documents returns each document's kept, tagged pieces, document after document |
| Ingest.TagPieces | week2/ingest.py:91-107 | the inner loop returns the kept pieces of one document, tagged |
| Ingest.AllChunksAppend | week2/ingest.py:80-109 | chunks of joined document lists are those of each, in order |
| Ingest.ChunksInDocumentOrder | week2/ingest.py:80-109 | each document's chunks form one block, after those of earlier documents |
| Ingest.ChunkComplete | week2/ingest.py:80-109 | every kept piece of every document appears, tagged |
| Ingest.ChunkOrigin | week2/ingest.py:80-109 | every chunk is a kept piece of some document, tagged for that document |
| Messages.CleanMessage | projects/digital_twin.py:45 | exactly the keys role and content, copied with `.get` so a missing key becomes `None`; other keys dropped |
| Messages.Get | projects/digital_twin.py:45 | `msg.get(key)`: the stored value, or `None` for a missing key |
| Messages.CleanMessageKeepsTwoKeyMessage | projects/digital_twin.py:45 | a message with exactly role and content is unchanged by cleaning |
| Messages.CleanMessageIdempotent | projects/digital_twin.py:41-47 | cleaning twice is cleaning once |
| Messages.CleanMessages | projects/digital_twin.py:41-47 | a list of the same length and order, each message cleaned |
| Messages.FinalResponse | projects/digital_twin.py:129-135 | the agent's response, or exactly the apology on any exception |
| Messages.ChatHistory.Append | week1/lab9_business.py:99 | `history.append(m)` adds `m` at the end and keeps every earlier entry |
| DigitalTwin.PairMessagesCases | projects/digital_twin.py:118-122 | a pair gives a user message only for a truthy user text and an assistant message only for a truthy bot text, user first |
| DigitalTwin.Truthy | projects/digital_twin.py:119-121 | `if user_msg:` / `if bot_msg:`: true for a non-empty string, false for `None` and `""` |
| DigitalTwin.PairMessages | projects/digital_twin.py:118-122 | the messages of one `[user, bot]` pair: the user's if truthy, then the assistant's if truthy |
| DigitalTwin.HistoryMessages | projects/digital_twin.py:118-122 | the messages of the whole history, pair after pair |
| DigitalTwin.Conversation | projects/digital_twin.py:117-125 | the conversation sent: the system message, the history's messages, then the new user message |
| DigitalTwin.HistoryMessagesShape | projects/digital_twin.py:118-122 | one message per truthy element, at most two per pair, each a user or assistant message with truthy content |
| DigitalTwin.HistoryMessagesAppend | projects/digital_twin.py:118-122 | the messages of joined histories are those of each, in order |
| DigitalTwin.ConversationShape | projects/digital_twin.py:117-127 | exactly one system message, first; the new user message last; cleaning changes no message |
| DigitalTwin.BuildConversation | projects/digital_twin.py:117-125 | the loop builds the system message, the history's messages and the new user message |
| DigitalTwin.Chat | projects/digital_twin.py:111-138 | the agent is sent the conversation, and the reply is its response or the apology |
| TeamDigitalTwin.Chat | projects_team/digital_twin.py:122-162 | the agent is sent len(history)+2 messages: system first, each history entry replaced by its cleaned copy at the same position, the user message last; the reply is the response or the apology |
| KeywordDispatch.Lookup | week1/lab9_business.py:53 | a value exactly for a key of the table, the one stored under it |
| KeywordDispatch.Keys | week1/lab9_business.py:93 | `table.keys()`: the keys in insertion order |
| KeywordDispatch.LookupAt | week1/lab9_business.py:36-53 | in a table without repeated keys, looking up an item's key gives that item's value |
| KeywordDispatch.FirstMatchFrom | week1/lab9_business.py:93-96 | the first key occurring in the text, every earlier key absent; none when no key occurs |
| KeywordDispatch.SelectedKey | week1/lab9_business.py:92-96 | no key is selected exactly when none occurs; a selected key occurs, and every key before it in table order does not |
| KeywordDispatch.SelectKey | week1/lab9_business.py:92-96 | the loop with `break` selects the first key in insertion order found in the lower-cased message |
| KeywordDispatch.LatestText | week1/lab9_business.py:89 | `history[-1]["content"]` raises on an empty history, a missing key or a `None` content, and gives the text otherwise |
| KeywordDispatch.DoEntry | week1/lab9_business.py:130-133 | a `None` history becomes a new list; exactly one user message is appended in place; the textbox is cleared |
| MetalWorksChat.GetJobEstimate | week1/lab9_business.py:53 | an estimate exactly for a job of the table: "The estimated cost for <job> is " followed by the value the table stores under the job |
| MetalWorksChat.JobEstimates | week1/lab9_business.py:36-41 | `job_estimates`: four jobs with their estimates, in insertion order, "weld " with its trailing space |
| MetalWorksChat.JobsDistinct | week1/lab9_business.py:36-41 | no job is listed twice in the estimate table |
| MetalWorksChat.EstimateForEveryJob | week1/lab9_business.py:36-53 | every job of the table gets the sentence with the estimate listed beside it |
| MetalWorksChat.JobFor | week1/lab9_business.py:89-96 | the job selected for a message: the first table key found in its lower-cased text |
| MetalWorksChat.ImagePrompt | week1/lab9_business.py:67 | the prompt sent to the image model for a job |
| MetalWorksChat.WeldEstimate | week1/lab9_business.py:36-53 | the welding estimate repeats the key's trailing space |
| MetalWorksChat.WeldWithoutSpaceHasNoEstimate | week1/lab9_business.py:36-53 | "weld" without the space is not a job, so it has no estimate |
| MetalWorksChat.TrailingWeldNotSelected | week1/lab9_business.py:93-96 | a message ending in "weld", with no "weld " before, never selects the welding job |
| MetalWorksChat.JobForExamples | week1/lab9_business.py:93-96 | "Weld it" selects "weld "; "Weld" selects nothing |
| MetalWorksChat.MultiAgentChat | week1/lab9_business.py:77-109 | a failed read of the last message changes nothing; a selected job appends its estimate in place, then returns the picture or, if the image call raises, raises with the estimate already appended; otherwise the chat model gets the system message plus the earlier history, and its reply is appended with no picture, or, if the call raises, nothing is appended |
| FlightChat.GetTicketPrices | week1/lab9.1.py:36-37 | a price exactly for a city of the table: "A flight to <city> cost " followed by the price the table stores under the city |
| FlightChat.TicketPrices | week1/lab9.1.py:33 | `ticket_prices`: four cities with their prices, in insertion order |
| FlightChat.CitiesDistinct | week1/lab9.1.py:33 | no city is listed twice in the price table |
| FlightChat.PriceForEveryCity | week1/lab9.1.py:33-37 | every city of the table gets the sentence with the price listed beside it |
| FlightChat.CityFor | week1/lab9.1.py:60-67 | the city selected for a message: the first table key found in its lower-cased text |
| FlightChat.ImagePrompt | week1/lab9.1.py:46 | the prompt sent to the image model for a city |
| FlightChat.TicketPriceExamples | week1/lab9.1.py:33-37 | "paris" costs "$899"; "Paris" is not in the table |
| FlightChat.CityForSubstring | week1/lab9.1.py:63-67 | matching is by substring: "Parisian" selects paris |
| FlightChat.CityForTableOrder | week1/lab9.1.py:63-67 | the table order decides: Tokyo named before London still selects london |
| FlightChat.CityForNoCity | week1/lab9.1.py:63-67 | a message naming no listed city selects none |
| FlightChat.MixedChat | week1/lab9.1.py:59-78 | a failed read of the last message changes nothing; a selected city appends its price in place, then returns the picture or, if the image call raises, raises with the price already appended; otherwise the chat model gets the system message plus the earlier history, and its reply is appended with no picture, or, if the call raises, nothing is appended |

## Left out

- `create_embeddings` (`week2/ingest.py:159-203`) is left out. It is filesystem deletion plus vector-store and embedding library calls. It returns `None` before writing anything when deletion fails (lines 169-173).
- `week2/ingest_tmp.py`, `week2/embeddings.py` and `week2/asynciotmp.py` are left out. They only configure libraries or demonstrate asyncio.
- `week2/answer.py` is left out: its retry behaviour lives in the tenacity library. Its `@retry` has no exception filter, so it retries on every error, not only rate limits.
- `team/app.py` and `week1/lab1.py` to `lab9.py` are left out: HTTP notifications, streaming and top-level API scripts.
- The header splitter used by `create_chunks`, the directory loader and `glob` are function parameters. Their own behaviour is not modelled: the folder list and each folder's loaded documents are inputs.
- LLM, agent and image calls are function parameters, and so are their outcomes. An exception from the digital twins' agent is `AgentRun.Raised`. An exception from the toy chatbots' chat or image model is `Outcome.CallRaised`, and the callback then raises `ApiError`. The request parameters other than the messages and the image prompt (model name, size, response format) are not modelled. Gradio, logging, dotenv and file reads are not modelled.
- The team profile at `projects_team/digital_twin.py:71` is not modelled. It joins the file's characters with spaces and splits again, giving a list of single characters that only feeds the prompt text.
- Metadata values are modelled as strings. Message values are strings or `None`.
- Documents and pieces are values. `create_chunks` and `fetch_documents` rewrite `chunk.page_content`, `chunk.metadata` and `doc.metadata` in place. The model builds the rewritten value instead, so aliasing of those objects is not captured.
- The inner loops of `fetch_documents` and `create_chunks` are separate methods (`FileDocuments`, `TagPieces`). The body of the chunker's scan loop is one too (`ScanPart`); its contract only says that it computes `ScanTurn`, and the lemmas `ScanTextTurn` and `ScanHeaderTurn` relate a turn to the sections.
- `lower()` is modelled for ASCII letters only. `isspace()` covers the ASCII and Unicode whitespace characters Python recognises.
- The `KeyError` of `get_job_estimate` and `get_ticket_prices` for an unknown key is modelled as `None`.
