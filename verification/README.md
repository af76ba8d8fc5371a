# Health report extraction core, in Dafny

This project models the text side of a pipeline in `amazon.py`. The pipeline takes the OCR output of a scanned medical report and turns it into language-model prompts, and turns the model's answers into CSV rows. The model covers five parts:

- `chunk_text` is the greedy, word-preserving splitter that cuts OCR text into chunks that fit the model's budget (module `Chunker`). It is built on Python's `str.split()` and `' '.join`, both modelled in module `Words`.
- `extract_text_from_response` keeps the text of the LINE blocks (module `Textract`).
- `wait_for_job_completion` polls an asynchronous Textract job, then follows its `NextToken` pages (module `Textract`). The client is a finite list of responses. When the list runs out first, the outcome is `Blocked`.
- The per-chunk loop of `process_with_bedrock_scraping` and `process_with_bedrock_Analysis` (module `Invoker`). The Bedrock call is a function parameter `call`. It yields the decoded body, or `None` when the call raises.
- `create_csv_from_results` is the tolerant reconciler (module `Reconciler`). It reads each answer's `content[0].text`, cuts the first-`{`-to-last-`}` span and decodes it with `json.loads`. It then writes one row per test, and the group's name, patient, age and date go on every row. `json.loads` is the parameter `parse`. Decoded JSON is the datatype `Json.Value`, and `dict.get` and `for` iteration over it are modelled. The CSV is the header plus a sequence of 8-cell rows.

The reconciler also gets a reference definition of the requested JSON schema (`DecodeReport`, `RowsOf`). Lemmas connect that definition to the tolerant code path.

How `chunk_text` counts:

- The first word goes through the "add" branch from a counter of 0. So the first chunk's counter is one above its joined length, while every later chunk's counter equals its joined length. `Chunker.Lead` names this offset.
- As a result, two or more words whose normalised text exactly fills the budget are cut in two. For example, "ab cd" with a budget of 5 becomes "ab" and "cd" (`Chunker.FirstChunkClosesEarly`).
- A text of two or more words is one chunk when its normalised form is at least one character shorter than the budget (`Chunker.OneChunkWhenShort`).
- A single word is always one chunk, however long (`Chunker.OneWordOneChunk`).

## Model

| member | source | states |
|---|---|---|
| Words.Split | amazon.py:54 | `text.split()` yields only words: each is non-empty and holds no whitespace character (the `str.isspace` set) |
| Words.SplitJoin | amazon.py:54 | for every list of words, `' '.join(ws).split() == ws`; splitting undoes joining |
| Words.SplitEmpty | amazon.py:54 | `s.split()` is empty exactly when `s` is empty or all whitespace, in both directions |
| Words.JoinAppend | amazon.py:61-69 | joining two non-empty word lists puts exactly one space between the two joins |
| Chunker.Feed | amazon.py:59-66 | one loop iteration loses and moves no word: the closed chunks are kept as a prefix, the words laid end to end grow by exactly `word`, and `word` ends the open chunk |
| Chunker.Flush | amazon.py:68-69 | the final flush keeps every closed chunk, loses no word of the open chunk, and adds no empty chunk |
| Chunker.FeedKeepsInv | amazon.py:59-66 | one loop iteration, in each of its three branches (close, first word, extend), keeps the loop invariant: the chunks laid end to end give the words read so far; the counter is the open chunk's joined length plus one for chunk 0 and plus zero afterwards; closed chunks fit the budget and were each closed by the next chunk's first word |
| Chunker.FeedAllKeepsInv | amazon.py:59-66 | the whole `for word in words` loop keeps that invariant |
| Chunker.FlushSpec | amazon.py:68-69 | flushing the open chunk after the loop turns the invariant into the chunk properties below |
| Chunker.GroupsCover | amazon.py:52-71 | the chunks' words laid end to end are exactly the input words; no chunk is empty; there are no chunks exactly when there are no words |
| Chunker.GroupsBudget | amazon.py:59-69 | a chunk of two or more words has joined length plus `Lead` within the budget; every chunk but the last was closed only because the next chunk's first word would have pushed the counter past the budget |
| Chunker.GroupsSpec | amazon.py:52-71 | both of the above for the chunks of any word list |
| Chunker.ChunkText | amazon.py:52-71 | `chunk_text` itself: joining the chunks with single spaces gives `' '.join(text.split())`, so the chunks are the normalised text cut at spaces |
| Chunker.ChunkRoundTrip | amazon.py:54-71 | the words of all chunks, in order, are exactly `text.split()`: no word is split, dropped, reordered or invented |
| Chunker.ChunksNonEmpty | amazon.py:54-69 | there are no chunks exactly when the text is empty or whitespace only; no chunk is the empty string |
| Chunker.ChunkBound | amazon.py:59-66 | a chunk whose length (plus one for chunk 0) exceeds the budget is a single word; so a chunk of two or more words is at most the budget long (chunk 0 at most one less) |
| Chunker.ChunkGreedy | amazon.py:59-66 | chunk `i` was closed only because adding the first word of chunk `i + 1` would exceed the budget |
| Chunker.OneChunkWhenShort | amazon.py:52-71 | text that is not all whitespace and whose normalised form is at least one character shorter than the budget is exactly one chunk, that normalised form |
| Chunker.OneWordOneChunk | amazon.py:59-69 | a text of exactly one word is exactly one chunk, that word, whatever the budget |
| Chunker.FirstChunkClosesEarly | amazon.py:57-66 | two words whose join exactly fills the budget are still cut into two chunks: the first chunk's counter over-counts by one |
| Textract.ExtractText | amazon.py:15-19 | the result has at most one text per block |
| Textract.ExtractTextContents | amazon.py:17 | the texts kept are exactly those of the LINE blocks; every block is kept exactly when all blocks are LINE blocks |
| Textract.ExtractTextAppend | amazon.py:17 | order is kept: the texts of two block lists laid end to end are those of each list, in turn |
| Textract.FirstWhere | amazon.py:23-29 | the index found is the first response, from the start point, that satisfies the test; no earlier response does |
| Textract.FirstWhereUnique | amazon.py:23-29 | any index with those properties is the one `FirstWhere` returns |
| Textract.PollStatus | amazon.py:23-29 | polling stops at the first SUCCEEDED or FAILED status, and no earlier response had one |
| Textract.FollowPages | amazon.py:38-44 | the page loop reads pages until one has no `NextToken` or the responses run out; the text collected is the LINE texts of every response read, in order; each fetch passes the previous page's token |
| Textract.PagesTextIsExtract | amazon.py:33-44 | the text collected from several pages is the LINE texts of all their blocks together, in page order |
| Textract.FetchesTokens | amazon.py:38-40 | one fetch per page read, and the fetch after page `i` carries exactly the token page `i` returned |
| Textract.DrainEnd | amazon.py:38 | the page loop stops at the first response without a token, or past the end |
| Textract.DrainPages | amazon.py:31-46 | on SUCCEEDED the lines are those of the terminal response, then of each `NextToken` page in fetch order, stopping at the first response without a token; a result exists exactly when such a response exists |
| Textract.WaitForJobCompletion | amazon.py:21-50 | the job fails exactly when the first terminal status is FAILED, with message `"Textract job failed: "` plus `StatusMessage` or `"No error message provided"`, after status polls only; it succeeds exactly when that status is SUCCEEDED and a last page exists, returning the LINE texts of the terminal response and every later page, each page read once; it polls once per non-terminal response and once for the terminal one |
| Json.GetSpec | amazon.py:176-205 | `d.get(key, default)` is the default when `key` is absent and otherwise the value of the last member with that key |
| Json.Lookup | amazon.py:176-205 | `.get` succeeds exactly on a dict |
| Json.Iterate | amazon.py:184-193 | a `for` loop visits a list's elements, a dict's keys or a string's characters, and raises on anything else; the items from a dict or a string are never dicts |
| Invoker.InvokeChunks | amazon.py:91-159 | the results are the bodies of the calls that succeeded, in chunk order |
| Invoker.ProcessWithBedrock | amazon.py:88-162 | the whole entry point: `chunk_text` with the default budget of 6000, then one call per chunk, keeping the successful bodies in order |
| Invoker.SuccessesAppend | amazon.py:155-159 | results of consecutive runs of chunks are each run's results, in turn: a failure does not disturb other chunks |
| Invoker.SuccessesCount | amazon.py:155-159 | never more results than chunks; a body is in the results exactly when some call returned it |
| Invoker.SuccessesAllOrNone | amazon.py:155-159 | no results (not an error) when every call fails; exactly one result per chunk, in order, when none fails |
| Invoker.MiddleChunkFails | amazon.py:91-159 | three chunks whose second call raises give exactly the first and third bodies, in that order |
| Reconciler.First | amazon.py:176 | `v[0]` is a non-empty list's first element; it succeeds only on a non-empty list or string |
| Reconciler.ResponseText | amazon.py:176 | the text is read only from a dict |
| Reconciler.NoContentEmptyText | amazon.py:176 | a dict with no `content` reads as the default `[{}]`, so its text is `''` |
| Reconciler.ContentText | amazon.py:176 | when the last `content` member is a list whose first item is a dict whose last `text` member is a string, that string is the text read |
| Reconciler.Find | amazon.py:177 | `find('{')` is the first occurrence, or -1 when there is none |
| Reconciler.RFind | amazon.py:178 | `rfind('}')` is the last occurrence, or -1 when there is none |
| Reconciler.BraceSpan | amazon.py:177-182 | a span is cut exactly when some `}` follows some `{`; it starts with `{`, ends with `}`, and has no `{` before it and no `}` after it in the text |
| Reconciler.TestRows | amazon.py:193-205 | at most one row per test; the loop runs to the end exactly when every test is a dict |
| Reconciler.GroupRows | amazon.py:184-205 | no group was read exactly when there are no groups or the first is not a dict, and then no row was written |
| Reconciler.Respond | amazon.py:174-211 | one response: rows are written only under a group that was read, and a response whose text cannot be read writes nothing and does not complete |
| Reconciler.LastPatientIsLatest | amazon.py:184-214 | the patient returned is the one left by the last response that read a group; there is none exactly when no response read a group |
| Reconciler.ContributionsAppend | amazon.py:173-211 | each response is handled independently: the contributions of two batches of responses laid end to end are each batch's, in turn |
| Reconciler.CreateCsvFromResults | amazon.py:165-214 | the call raises exactly when no response read a group (`LastPatient` is `None`); otherwise the CSV starts with the fixed 8-column header, holds every response's rows in response order, and returns the name and date of `LastPatient`, which `LastPatientIsLatest` shows is the last group read |
| Reconciler.RowsOfAllAppend | amazon.py:208-211 | rows of consecutive batches of responses are each batch's rows, in turn: a failing response never removes another's rows |
| Reconciler.NoSpanNoRows | amazon.py:177-180 | a response whose text has no `{` followed by a `}` writes nothing and raises nothing |
| Reconciler.ParseFailureNoRows | amazon.py:180-182 | a span that does not decode writes nothing |
| Reconciler.RowsOfTests | amazon.py:195-205 | one row per test record, in order, each carrying its group's metadata |
| Reconciler.RowsOfShape | amazon.py:184-205 | one row per test over all groups; every row is the row of some test of some group, with that group's metadata |
| Reconciler.TestRowsDecoded | amazon.py:193-205 | a list of test dicts writes exactly the rows of its decoded records, missing keys read as `''`, without raising |
| Reconciler.LastOfCons | amazon.py:187-188 | the last group's patient is that of the last group of the rest of the list, or of the first group when it is alone |
| Reconciler.GroupRowsDecoded | amazon.py:184-205 | groups of the requested schema write exactly one row per test, in group-then-test order, each with its own group's `group_name`, `name`, `age`, `date`; they raise nothing and leave the last group's patient |
| Reconciler.WellFormedResponse | amazon.py:174-205 | a response whose span decodes to a document of the requested schema contributes exactly its flattened rows and its last patient |
| Reconciler.RowsKeptBeforeFailure | amazon.py:195-211 | when good groups are followed by a non-dict, the good groups' rows stay and only the rest of that response is lost |
| Reconciler.TestRowsKeptBeforeFailure | amazon.py:193-205 | when test dicts are followed by a test that is not a dict, the rows of the tests before it stay, and the loop ends without completing |
| Reconciler.GroupRowsPrefix | amazon.py:184-205 | well-formed groups in front of any others write their rows first, and what follows decides completion |
| Reconciler.GroupRowsPrefixPatient | amazon.py:184-205 | behind well-formed groups, the patient left is the last one read by what follows, or else the last well-formed group's |
| Reconciler.BadTestKeepsRows | amazon.py:184-211 | a group whose tests hold a non-dict after some test dicts keeps the rows of the groups before it and of its own earlier tests, leaves its own patient as the last read, and ends the response |
| Reconciler.UniterableTestsKeepRows | amazon.py:184-211 | a group whose `tests` cannot be iterated keeps the rows of the groups before it, leaves its own patient as the last read, and ends the response |
| Reconciler.TwoGroupsOfTwo | amazon.py:184-205 | two groups of two tests give four rows, in group-then-test order, each with its own group's metadata |
| Reconciler.ModelBodyText | amazon.py:176 | the usual Bedrock body `{"content": [{"type": "text", "text": t}]}` yields the text `t` |
| Reconciler.TestDictDecodes | amazon.py:200-203 | a test dict with all four keys decodes to those four values |
| Reconciler.CbcEndToEnd | amazon.py:165-214 | a reply wrapping a one-group, two-test document in prose gives two rows for patient "Jane Doe" in group "CBC", with the test names in document order, and leaves that patient and date as the last read |

## Left out

- `st.py` is not part of this model. It holds the Streamlit UI, credential loading, the S3 upload and the Textract job submission. Its response-display code (st.py:85-102) is module-level UI code.
- `log_with_timestamp` and every `print`: they read the clock and write to the console, with no effect on the results.
- The boto3 clients, their configuration (timeouts, retries), `time.sleep(5)` and real-time polling. Textract is a finite response list, and Bedrock is the `call` parameter.
- Textract.WaitForJobCompletion: a job that never reaches a terminal status within the given responses, or whose pages outlast them, ends as `Blocked`. The real call would go on waiting; it has no timeout.
- The `KeyError` raised when a Textract response lacks `Blocks`, `BlockType`, `Text` or `JobStatus`: the response and block datatypes always carry these fields.
- The prompts and the Bedrock request body (lines 94-152 and 334-384): they are opaque payloads, and only the chunk's position and text reach `call`.
- `json.loads` internals: decoding is the parameter `parse`, and a failure is `None`. JSON numbers keep their source text, because no arithmetic is done on them.
- `csv.writer` rendering and quoting: each cell is the decoded JSON value `csv.writer` would render.
- The log line at line 207 can raise `NameError` before any group has been read. The `except` around it catches this, and it comes after the rows are written, so it has no effect beyond ending that response.
- Python strings with lone surrogate code points: Dafny's `char` excludes them.
- The commented-out `lambda_handler` (lines 217-311).
