# Email campaign pipeline, modelled in Dafny

A model of the outreach pipeline in `scripts/` and `src/index.js`. One run:

1. Loads the recipient spreadsheet (phase 1).
2. Keeps the rows whose `sent_status` is not exactly `"email sent"`.
3. Caps them at 30.
4. Asks a language model for five subject/body variants and falls back to fixed templates when the answer is unusable.
5. Batches the records by 10 and sends at most five batches, one message per record, pausing between batches (phase 3).
6. Writes `"email sent"` into column 2 of every row whose column-1 address was sent (phase 4).

The libraries (ExcelJS, nodemailer, Groq) are replaced by explicit inputs:

- A file read is a `ReadOracle`: does a password read succeed, does a plain read succeed?
- The file write is a boolean.
- The mail transport is `transport(i)(j)`: does attempt `j` of batch `i` succeed?
- The language model's parsed answer is an `Option<Parsed>`, where `None` means the call or `JSON.parse` threw.
- The sending account is a `sender` string.

`prepareBatches` (scripts/phase2) is not part of this model. `Campaign.RunCampaign` takes it as a function parameter and relies only on an assumed chunking contract, `Batching.IsBatching`, stated in its `requires`:

- every batch is non-empty;
- every batch holds at most 10 records;
- all batches but the last hold exactly 10;
- the batches concatenate back to the input.

Modules, one per component:

- `Cells`: cell values, JavaScript truthiness, `trim() !== ""`.
- `Workbook`: the sheet, the shared read policy, the file object.
- `LoadUnsent`: phase 1.
- `StatusUpdate`: phase 4.
- `Sender`: phase 3.
- `Variants`: the variant generator in `llm.js`.
- `Batching`: the assumed `prepareBatches` contract.
- `Campaign`: `main`.
- `Reconcile`: how phases 1 and 4 fit together across runs.
- `Outcomes` and `Seqs`: shared helpers.

Behaviour of the code the model keeps:

- `sendEmails` sends one message per record, each blind-copied to that record's address alone, and keeps every address whose send did not throw (scripts/phase3.js:25-46).
- Phase 4 matches column 1 of each data row with `includes` and writes column 2 whatever the header row says (scripts/phase4.js:45-60). `includes` compares objects by identity, and the file is read afresh, so an address cell holding an object (a hyperlink, say) is never matched.
- Phase 1 builds records with `eachRow` and `eachCell`, which skip rows without any value and empty cells (scripts/phase1.js:37-46). A blank data row yields no record, and an empty cell adds no key.
- `main` catches every error and only logs it. `Campaign.RunCampaign` therefore never fails; it reports an `Outcome`.
- `main` calls `loadUnsentEmails(sheetLink)` and `updateSentStatus(sheetLink, allSentEmails)` without passwords. `Campaign.RunCampaign` uses no password for both. Whether a read of that path succeeds is the read oracle's answer.

## Model

| member | source | states |
|---|---|---|
| `Workbook.OpenWorkbook` | scripts/phase1.js:13-27 | With a non-blank password the first read uses it. A plain read follows only if that read failed. A blank or absent password gives exactly one plain read. The workbook is loaded iff the last read made succeeded. |
| `LoadUnsent.RecordKeys` | scripts/phase1.js:40-46 | A record's keys are exactly the truthy header values of the row's non-empty cells; an empty cell adds no key. |
| `LoadUnsent.RecordValue` | scripts/phase1.js:41-45 | A key maps to the cell of the last column carrying that header whose cell is not empty. A repeated header is overwritten by a column further right only when that column holds a value. |
| `LoadUnsent.RecordsSkipBlank` | scripts/phase1.js:37-49 | A row yields a record iff it holds a value. The records keep row order and are never more than the rows. When no row is blank, every row yields its record. |
| `LoadUnsent.DataRecordsRows` | scripts/phase1.js:37-49 | A record is loaded iff some row after the header row holds a value and builds it. There are fewer records than sheet rows, or none. |
| `LoadUnsent.RecordsOne` | scripts/phase1.js:37-49 | One row yields exactly its record when it holds a value, and nothing when it is blank. |
| `LoadUnsent.RecordsAppend` | scripts/phase1.js:37-49 | The records of two consecutive runs of rows are the records of the first followed by those of the second. With `RecordsOne` this fixes the loader's output: exactly one record per non-blank row, in order, duplicates kept. |
| `LoadUnsent.ConvertRows` | scripts/phase1.js:37-49 | The nested loops yield `DataRecords` of the sheet: exactly one record per row after the header row that holds a value, in sheet order, duplicates kept, each built from the header row. Blank rows and the header row yield none. |
| `LoadUnsent.UnsentMembers` | scripts/phase1.js:54 | A record survives the filter iff it was loaded and its `sent_status` is not strictly `"email sent"`. A missing status, or a status differing in case or type, is kept. |
| `LoadUnsent.UnsentSubsequence` | scripts/phase1.js:54 | The filtered list is a subsequence of the loaded records (order kept) and is no longer than them. |
| `LoadUnsent.UnsentAppend` | scripts/phase1.js:54 | Filtering a concatenation filters each part and concatenates the results. |
| `LoadUnsent.UnsentAllSent` | scripts/phase1.js:54 | When every record is marked sent, nothing is pending. |
| `LoadUnsent.UnsentNoneSent` | scripts/phase1.js:54 | When no record is marked sent, the filter drops nothing. |
| `LoadUnsent.LoadUnsentEmails` | scripts/phase1.js:8-69 | Reads follow the read policy. A failed read throws `ReadFailed`. A workbook without a worksheet throws `NoWorksheet`. Otherwise the result is exactly the pending records of the data rows, in order, as a subsequence. |
| `StatusUpdate.ReadPassword` | scripts/phase4.js:16-17 | The read uses `editPassword` when it is non-blank, otherwise `openPassword`. A password read is tried iff either password is non-blank. |
| `StatusUpdate.WritePassword` | scripts/phase4.js:63-69 | The write uses `editPassword` when it is non-blank, otherwise no password. A blank password is never written. |
| `StatusUpdate.SetCell` | scripts/phase4.js:56 | Setting a cell changes that column only. A shorter row grows with empty cells. |
| `StatusUpdate.MarkedSheet` | scripts/phase4.js:45-60 | The header row is unchanged. Every matching data row has `"email sent"` in column 2. No column other than 2 changes. A non-matching row is unchanged. A row matches iff its column-1 value is truthy, not an object and in `sentEmails`. |
| `StatusUpdate.CountMatches` | scripts/phase4.js:42-57 | The count never exceeds the number of data rows. |
| `StatusUpdate.CountIsMatchingRows` | scripts/phase4.js:51-57 | `updatedCount` equals the number of distinct matching rows. A row counts once however often its address appears in `sentEmails`. |
| `StatusUpdate.MarkIdempotent` | scripts/phase4.js:45-60 | Updating twice with the same list gives the same sheet as updating once. |
| `StatusUpdate.Worksheet.MarkSent` | scripts/phase4.js:45-60 | The in-place loop turns the rows into `MarkedSheet` of the old rows and returns the count of matching rows. |
| `StatusUpdate.UpdateSentStatus` | scripts/phase4.js:6-79 | Reads with `ReadPassword` under the read policy and writes once with `WritePassword`. A failed read, a missing worksheet and a failed write are each thrown. The file changes only on success, and then holds the marked sheet. |
| `Sender.SendEmails` | scripts/phase3.js:23-48 | Makes one attempt per batch entry, in batch order, whatever earlier attempts did. Message j blind-copies entry j's single address, passes the subject and body verbatim and attaches `resume.pdf` from the given path. The result is the addresses of the successful attempts, in order. |
| `Sender.DeliveredMembers` | scripts/phase3.js:39-45 | An address is returned iff some entry carrying it was sent successfully. |
| `Sender.DeliveredSubsequence` | scripts/phase3.js:23-48 | The returned list is a subsequence of the batch's addresses and is no longer than the batch. |
| `Sender.DeliveredCount` | scripts/phase3.js:39-42 | The returned list has one element per successful attempt, duplicates kept. |
| `Sender.DeliveredExtremes` | scripts/phase3.js:39-45 | If all attempts succeed, the result is every address. If all fail, it is empty. |
| `Variants.IndexOfFirst` | scripts/llm.js:95-104 | The search behind `replace` with a string pattern finds the first position where the phrase occurs: it occurs there and at no earlier position. The search reports -1 exactly when the phrase occurs nowhere. |
| `Variants.ReplaceFirstSplices` | scripts/llm.js:95-104 | `replace` with a string pattern splices the replacement in at the first occurrence. With no occurrence the text is left unchanged. |
| `Variants.FallbackVariants` | scripts/llm.js:79-108 | Gives exactly 5 subjects and 5 bodies. Subject i is prefix i followed by `" - SDE / Full Stack / AI Intern"`. Body 0 is the base body. |
| `Variants.FallbackSubjectsDistinct` | scripts/llm.js:80-90 | The five fallback subjects are non-empty and pairwise distinct. |
| `Variants.FallbackBodyRewords` | scripts/llm.js:93-105 | Fallback body i (1 to 4) is the base body with only the first occurrence of its phrase reworded, or the base body when the phrase is absent. |
| `Variants.GenerateEmailVariants` | scripts/llm.js:14-74 | Always gives 5 subjects and 5 bodies. The model's answer is used iff both arrays are present with length 5. Any failure yields the fallback. |
| `Batching.BatchCount` | src/index.js:49 | Under the assumed chunking contract, the number of batches is `ceil(n / size)`: the smallest count whose capacity holds the records. |
| `Campaign.Capped` | src/index.js:33 | The run keeps the first `min(n, 30)` pending records, in order. |
| `Campaign.Pick` | src/index.js:57-58 | The variant is used unless it is empty or missing, in which case the base text is used. An empty text is chosen only if the base is empty. |
| `Campaign.ProcessedCount` | src/index.js:55 | The loop sends `min(batches.length, 5)` batches. |
| `Campaign.PausesBetweenBatches` | src/index.js:70-73 | A pause follows a sent batch exactly when another sent batch comes after it. |
| `Campaign.CapKeepsAllBatches` | src/index.js:33-55 | With at most 30 records in batches of 10 there are at most three batches, so the five-batch limit never cuts a run short. |
| `Campaign.SentAreConfirmed` | src/index.js:66-67 | An address reaches the status update iff an entry of a sent batch carries it and that entry's send succeeded. |
| `Campaign.FailureIsolation` | src/index.js:55-74 | When one batch fails entirely and every other batch succeeds, the collected list is the addresses of all the other batches, in order. |
| `Campaign.SentBound` | src/index.js:66-67 | The collected list is never longer than the records of the sent batches. |
| `Campaign.AllMarkedMeansNothingPending` | src/index.js:36-39 | When every record is already marked sent, the run finds nothing pending. |
| `Campaign.SendBatches` | src/index.js:55-74 | Batch i is sent with variant i (or the base text). The collected list is the in-order concatenation of the per-batch results. Pauses follow batches 0 to n-2 only. |
| `Campaign.RunCampaign` | src/index.js:7-85 | On a load error, nothing else happens and the file is unchanged. With no pending records, the run stops before the model call, sends nothing and leaves the file unchanged. Otherwise batches are sent as `SendBatches` states, and the status update runs once with the whole collected list and no password: one password-less write when the plain read succeeds, none otherwise. A failed update reports `ReadFailed` when the read failed and `WriteFailed` when the write did. The file changes only when that update succeeds. |
| `Reconcile.FieldIsColumn` | scripts/phase1.js:40-46 | A field whose header names exactly one column reads that column's cell, or an empty cell when the row is shorter. |
| `Reconcile.LayoutFields` | scripts/phase4.js:48-49 | Under the layout phase 4 assumes, a record's `email` and `sent_status` fields are columns 1 and 2. |
| `Reconcile.MarkedRowRecord` | scripts/phase4.js:45-60 | Marking a row never makes it blank or not blank. Its record keeps its address; it stops being pending if the address matched, and is otherwise unchanged. |
| `Reconcile.MarkedRowsRecords` | scripts/phase4.js:45-60 | After the update the loader yields as many records as before, and each is related to the record at the same position in that way. |
| `Reconcile.MarkedRecords` | scripts/phase4.js:45-60 | The same for the data rows of a whole sheet. |
| `Reconcile.MarkedRecordAt` | scripts/phase4.js:45-60 | For one record after the update: its address is unchanged. If the address matched, the record reads as not pending. Otherwise the record is unchanged, including when its address is an object cell. |
| `Reconcile.NextRunSkipsSent` | scripts/phase1.js:54 | Under that layout, the next run's pending list holds no record whose address matched the sent list: truthy, not an object, and reported sent. |

## Left out

- ExcelJS itself is not modelled: file parsing, encryption and password checking. Every read and every write is an oracle answer. `writeFile` failing is taken to leave the file unchanged. The file holds only its first worksheet.
- Record keys are the header cells themselves. JavaScript would turn them into property-name strings, so the number 1 and the text "1" would name the same property; the model keeps them apart.
- Numbers in cells are integers; NaN and fractions are not modelled. Rich text, hyperlinks, dates and formulas are opaque `Other` values. Phase 4 never matches them, as `includes` compares objects by identity. Elsewhere two of them are equal when their tags are equal.
- `loadUnsentEmails` also takes an `editPassword` parameter it never uses; `LoadUnsent.LoadUnsentEmails` omits it.
- `Variants.GenerateEmailVariants`: the parsed answer holds arrays of strings. An answer whose `subjects` is a five-character string, or an array of non-strings, is not modelled.
- `Variants.ReplaceFirstSplices`: `$` patterns in the replacement are not interpreted. None of the four replacements contains `$`.
- The Groq request (prompt text, model name, temperature) is not modelled, nor is `JSON.parse`.
- nodemailer, the Gmail credentials, `dotenv` and `process.env` are not modelled. They become the `sender` parameter and the `transport` oracle.
- `Campaign.RunCampaign`: pauses are reported as the indices of the batches they follow, not interleaved in time with the messages. `setTimeout` and the two-second delay are not modelled.
- Console logging and the `substring` preview of the subject are not modelled.
- The body of `prepareBatches` (scripts/phase2) is not part of this model. Only its assumed contract is used.
- `Campaign.RunCampaign`: whether reading the sheet link as a file path succeeds is left to the read oracle.
- `inb/linkedin_connect.py` and `scripts/send-linkedin-notification.js` are separate utilities and are not modelled.
