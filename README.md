# HR screening and voice-interview core, in Dafny

This project models the rule logic of a résumé-screening and voice-interview
system. The system's external services are left abstract: the language
model, speech services, the warehouse tables, object storage and mail.

- **Resume screening.** Two pipelines, `uploaded_resume_processing.py` and
  `resume_processing.py`. Each lists PDF résumés, wraps every model call in
  a retry-with-backoff executor, and scores each résumé against weighted
  keyword categories (an ATS score). A résumé is shortlisted at 60 or more
  when it has contact details. Shortlisted files are copied, rows are
  loaded, and candidates are invited by e-mail. Both pipelines are modelled
  and compared: how ids are assigned, what happens on errors, which
  transient-error keywords apply, and the e-mail filters. The batch
  pipeline's query for the latest shortlist is modelled too.
- **Upload front end.** In `app.py`, the `.pdf` filename filter and the
  list of blob names handed to the batch pipeline.
- **Voice interview.** `interview.py` covers these steps:
  - login, behind a check for an earlier result;
  - the per-candidate session of `candidate_info`, `questions`, `index` and
    `transcript`;
  - the interview and processing pages;
  - answer submission;
  - the background transcription worker, which appends numbered entries to
    a per-candidate text file once each;
  - the results page, which waits a bounded number of polls, scores the
    text, falls back to a degraded result on failure, and writes one row.

Every external call becomes a parameter:
- a call script `nat -> Outcome` (the n-th call's value or error);
- an observation per poll;
- an opaque parser `string -> Option<…>` standing for `json.loads` of a
  model reply;
- a flag saying whether an insert reported errors.

Scores are `real`, and the final `round(…, 2)` is dropped. Sleeps are
modelled by their integer lower bound.

Modules, one per file:
- `Wrappers`: `Option` and `Result`.
- `Text`: Python string operations on `seq<char>`.
- `Backoff`: the retry executor.
- `AtsScoring`.
- `Candidates`: rows shared by both pipelines, and the per-blob `Step` log.
- `UploadedResumeProcessing`.
- `ResumeProcessing`.
- `ShortlistQuery`.
- `ResumeUpload`.
- `InterviewRecords`: the interview record types and the session invariant.
- `InterviewSession`.
- `TranscriptStore`.
- `InterviewResults`.

Where the code changes state in place, the model does too:
- the session is a `Session` class;
- the transcript directory is a `Store` class;
- the loops are `while`/`for` methods.

Each of these is proved against a function, and the properties are lemmas
about that function.

## Model

| member | source | states |
|---|---|---|
| Text.CleanFences | interview.py:98 | the cleaned reply contains no "```" at all, so every fence is gone before parsing; a reply without fences comes back only stripped |
| Text.NormalizeEmail | uploaded_resume_processing.py:243 | the loaded e-mail is the stripped input with each character lower-cased; it has no surrounding whitespace and no upper-case letter |
| Text.Strip | interview.py:137 | the result has no whitespace at either end and is no longer than the input |
| Text.StripDecomposes | interview.py:137 | the input is the result with only whitespace added on each side |
| Text.StripUnique | interview.py:137 | padding a stripped text with whitespace on both sides and stripping gives the text back, so `strip()` removes exactly the whitespace ends |
| Text.NormalizeEmailIdempotent | uploaded_resume_processing.py:243 | normalizing an already normalized e-mail changes nothing |
| Text.CleanFencesUnwrapsJsonBlock | interview.py:98 | a "```json" block whose body holds no backtick cleans to exactly its body |
| Text.BeforeFirst | resume_processing.py:208 | `split(" ")[0]` is a prefix without a space, followed in the input by a space unless it is the whole input |
| Text.LastSegment | uploaded_resume_processing.py:374 | `split('/')[-1]` (and `rsplit('.', 1)[1]`) is a suffix holding no separator, preceded by the separator unless it is the whole input |
| Backoff.RetryWithBackoff | uploaded_resume_processing.py:19-41 | at most `max_retries` calls; every call before the last failed transiently; a value is the last call's success; a re-raise is the last call's non-transient error; exhaustion means `max_retries` transient failures and the distinct message; the wait after attempt n is at least `base_delay*n`; the batch pipeline's copy (resume_processing.py:52-63) is the same executor with its own markers and its "Max retries reached" message |
| Backoff.BatchTransientIsUploadedTransient | resume_processing.py:58 | every message the batch pipeline retries is also retried by the uploaded pipeline |
| Backoff.ExhaustedOnlyUploadedTransient | uploaded_resume_processing.py:27-31 | "Exhausted" is transient only for the uploaded pipeline, whose markers include "exhaust" |
| Backoff.RateLimitIsTransient | resume_processing.py:58-62 | a rate-limit message is retried by both pipelines |
| Backoff.PermissionIsFatal | resume_processing.py:58-62 | a permission error is retried by neither pipeline |
| Backoff.GenerateCountsAsRate | resume_processing.py:58 | markers match as bare substrings, so a message containing "generate" counts as a rate error |
| AtsScoring.Hits | uploaded_resume_processing.py:144 | the hit count is the number of keyword positions whose keyword occurs in the text, so a repeated keyword counts each time; all hit iff every keyword occurs; none iff no keyword occurs |
| AtsScoring.Divisor | uploaded_resume_processing.py:145 | the divisor is the keyword count, or 1 for an empty list |
| AtsScoring.Ratio | uploaded_resume_processing.py:144-146 | a category's share lies in [0,1], and is 1 exactly when the list is non-empty and every keyword occurs |
| AtsScoring.WeightOrZero | resume_processing.py:107 | a weighted category gets its weight and a missing one 0; every weight lies in [0, 0.6] |
| AtsScoring.Weighted | uploaded_resume_processing.py:146-147 | a category's contribution lies between 0 and its weight |
| AtsScoring.BatchTerm | resume_processing.py:105-107 | a batch category's contribution lies between 0 and its weight, and equals the uploaded contribution whenever the category has a weight |
| AtsScoring.CalculateAtsScoreUploaded | uploaded_resume_processing.py:132-151 | the loop computes the score; it fails iff some category has no weight, naming the first such category; with distinct categories the score lies in [0,100] |
| AtsScoring.UploadedScoreProperties | uploaded_resume_processing.py:135-150 | the failure and range facts of the uploaded score, over all inputs |
| AtsScoring.CalculateAtsScoreBatch | resume_processing.py:93-109 | the loop computes the batch score (`None` text as ""); with distinct categories it lies in [0,100] |
| AtsScoring.SumWeightsDistinct | resume_processing.py:96-102 | the weights of distinct categories sum to at most 1 |
| AtsScoring.BatchTotalBounds | resume_processing.py:104-107 | the unscaled batch total lies in [0,1] for distinct categories |
| AtsScoring.UploadedErrIffMissing | uploaded_resume_processing.py:147 | the uploaded total fails iff a category is missing from the weights |
| AtsScoring.UploadedErrIsFirstMissing | uploaded_resume_processing.py:143-147 | the failure names the first missing category in iteration order |
| AtsScoring.UploadedAgreesWithBatch | resume_processing.py:104-107 | when every category has a weight, the two totals agree, since the clamp never bites |
| AtsScoring.UploadedScoreMatchesBatchScore | uploaded_resume_processing.py:132-151 | with every category weighted, both pipelines give the same score for the same text |
| AtsScoring.KeywordTablesWellFormed | uploaded_resume_processing.py:108-128 | both keyword tables have distinct categories, all of them weighted |
| AtsScoring.ShippedTablesScoreInRange | resume_processing.py:73-89 | with the shipped tables, both scores exist and lie in [0,100] for any text |
| AtsScoring.Status | uploaded_resume_processing.py:370 | the status is "YES" exactly for a shortlisted résumé, and "NO" for one that is not |
| Candidates.ShortlistedPath | uploaded_resume_processing.py:372-375 | the copy goes under "resumes-shortlisted/", to the blob's last path segment: a suffix without "/" that is preceded by "/" unless it is the whole name |
| Candidates.YesRows | uploaded_resume_processing.py:232 | never more rows than given, and every kept row holds "YES" |
| Candidates.YesRowsMembers | uploaded_resume_processing.py:232 | keeps exactly the "YES" rows and nothing else |
| Candidates.YesRowsInOrder | uploaded_resume_processing.py:232 | the k-th kept row is the row at the k-th position holding "YES": an order-preserving filter |
| Candidates.KeptPositions | uploaded_resume_processing.py:232 | the positions an order-preserving filter keeps: strictly increasing, all accepted, and every accepted position among them |
| Candidates.RowIdsIncreasing | uploaded_resume_processing.py:352-378 | emitted ids lie in [100, 100+n) and strictly increase |
| Candidates.RowProvenance | uploaded_resume_processing.py:378-388 | the row with id 100+i came from blob i |
| Candidates.RowCompleteness | uploaded_resume_processing.py:380-388 | every row a blob produced is in the output |
| Candidates.CopiesMatchShortlisted | uploaded_resume_processing.py:372-375 | one copy is made per "YES" row |
| Candidates.RowsOnePerStep | resume_processing.py:251-290 | when every blob yields a row, row k is blob k's row |
| Candidates.RowsAtMostSteps | uploaded_resume_processing.py:352-392 | never more rows than blobs |
| UploadedResumeProcessing.ScoredStep | uploaded_resume_processing.py:356-388 | the row for blob i has id 100+i, the text, the score, the extracted e-mail and phone (or "") and name (or "N/A"); its status is `Status` of being shortlisted by that score and those contacts, so "YES" or "NO"; a failed copy of a shortlisted résumé drops the row; a copy is made iff "YES" |
| UploadedResumeProcessing.StepAt | uploaded_resume_processing.py:353-392 | a row is emitted iff the name is a PDF (any case), the parse succeeded with text, the score did not raise, and no failed copy of a shortlisted résumé; the row carries id 100+i, that score and the extracted contacts, and "YES" or "NO" as `Status` of being shortlisted; a copy is made iff "YES" |
| UploadedResumeProcessing.Steps | uploaded_resume_processing.py:352 | one step per listed blob; ids follow positions; copies follow "YES" |
| UploadedResumeProcessing.LoadShortlisted | uploaded_resume_processing.py:226-243 | nothing is loaded iff no row is "YES"; otherwise the "YES" rows are loaded in order, each with its e-mail normalized |
| UploadedResumeProcessing.UploadedGreeting | uploaded_resume_processing.py:291 | "Candidate" for an empty name; otherwise the text before the first space, stripped, which has no space |
| UploadedResumeProcessing.UploadedInvitations | uploaded_resume_processing.py:282-291 | every invitation comes from a "YES" row with a non-empty e-mail, and every such row is invited |
| UploadedResumeProcessing.UploadedInvitationsInOrder | uploaded_resume_processing.py:282-291 | the k-th invitation is the one for the k-th "YES" row with an e-mail, with equal counts: each such row is mailed once, in row order |
| UploadedResumeProcessing.ProcessAllResumes | uploaded_resume_processing.py:338-401 | stops iff the JD text is missing or empty; otherwise rows, copies, the load and the e-mails are those of the step log |
| UploadedResumeProcessing.SkippedBlobLeavesGap | uploaded_resume_processing.py:352-354 | a non-PDF listed first still uses id 100, so the only row has id 101 |
| ResumeProcessing.PdfNames | resume_processing.py:236-239 | never more names than listed, each ending in ".pdf" in some case |
| ResumeProcessing.PdfNamesInOrder | resume_processing.py:236-239 | the k-th name is the listed name at the k-th PDF position: an order-preserving filter |
| ResumeProcessing.PdfNamesMembers | resume_processing.py:236-239 | keeps exactly the listed names ending in ".pdf", in any case |
| ResumeProcessing.SelectBlobNames | resume_processing.py:235-241 | the loop selects the PDF listing, or the caller's names as given |
| ResumeProcessing.BatchStepAt | resume_processing.py:251-290 | every name yields a row with id 100+k and the batch id; a parse failure yields the error row; a failed copy of a shortlisted résumé yields the error row with the copy's message; otherwise the row has the batch score, the text and the extracted contacts; the status is `Status` of being shortlisted, "NO" for every error row; a copy iff "YES" |
| ResumeProcessing.BatchSteps | resume_processing.py:251 | one step per name; every step has a row with the batch id |
| ResumeProcessing.LoadAll | resume_processing.py:163-165 | nothing is loaded iff there are no rows; otherwise every row is loaded unfiltered |
| ResumeProcessing.BatchGreeting | resume_processing.py:208 | the text before the first space, or "Candidate" when that is empty; never empty and never holding a space |
| ResumeProcessing.GreetingsAgree | resume_processing.py:208 | when the first word is non-empty and has no surrounding whitespace, both pipelines greet alike |
| ResumeProcessing.BatchInvitations | resume_processing.py:199-205 | every invitation comes from a "YES" row whose e-mail is non-empty and contains "@", and every such row is invited |
| ResumeProcessing.BatchInvitationsInOrder | resume_processing.py:199-207 | the k-th invitation is the one for the k-th invitable row, with equal counts: each such row is mailed once, in row order |
| ResumeProcessing.ProcessBlob | resume_processing.py:253-290 | the `try`/`except` body for one name emits exactly the row and copy of `BatchStepAt` |
| ResumeProcessing.ProcessBlobs | resume_processing.py:250-290 | the loop appends the rows and copies of the steps, one per name, in order |
| ResumeProcessing.ProcessAllResumes | resume_processing.py:230-295 | stops iff no names are selected; otherwise rows, copies, the load and the e-mails are those of the step log |
| ResumeProcessing.OneRowPerName | resume_processing.py:247-290 | exactly one row per name, with id 100+k, in input order, all with the same batch id |
| ResumeProcessing.FailedResumeKeepsRow | resume_processing.py:280-290 | a failing résumé still has its row: score 0, "NO", empty contacts, the error text |
| ResumeProcessing.UploadedEmitsAtMostBatch | uploaded_resume_processing.py:352-392 | on the same names, the uploaded pipeline never emits more rows than the batch pipeline |
| ResumeProcessing.FirstWordOfAnnLee | resume_processing.py:208 | the first word of "Ann Lee" is "Ann" |
| ResumeProcessing.GreetingOfFullName | resume_processing.py:208 | both pipelines greet "Ann Lee" as "Ann" |
| ResumeProcessing.GreetingOfLeadingSpace | uploaded_resume_processing.py:291 | for " Ann", the batch pipeline greets "Candidate" but the uploaded pipeline greets with an empty word |
| ShortlistQuery.LatestBatch | resume_processing.py:300-303 | the largest batch id in the table; none iff no row has one |
| ShortlistQuery.SelectedEntries | resume_processing.py:306-308 | exactly the rows with lower-cased status "yes" from the latest batch |
| ShortlistQuery.Insert | resume_processing.py:308 | inserting into a descending list keeps it descending and adds exactly one element |
| ShortlistQuery.SortDesc | resume_processing.py:308 | descending by score and a permutation of the input |
| ShortlistQuery.FetchShortlisted | resume_processing.py:298-323 | `[]` on a query error; sorted by score descending; at most `limit` rows; exactly min(limit, matches) rows; a sub-multiset of the matching entries |
| ShortlistQuery.FetchFromLatestBatch | resume_processing.py:306-308 | every fetched entry is a "yes" row of the latest batch |
| ShortlistQuery.FetchIsTopK | resume_processing.py:308-309 | every matching row left out scores no higher than any row returned |
| ResumeUpload.AllowedFileByExtension | app.py:26 | a name is allowed iff the text after its last "." is "pdf" in some case |
| ResumeUpload.UpperCaseExtensionAllowed | app.py:26 | "a.PDF" is allowed |
| ResumeUpload.DoubleExtensionRejected | app.py:26 | "a.pdf.exe" is rejected |
| ResumeUpload.EmptyStemAllowed | app.py:26 | ".pdf" is allowed |
| ResumeUpload.EmptyExtensionRejected | app.py:26 | "report." is rejected |
| ResumeUpload.UploadedBlobNames | app.py:48-59 | never more names than files |
| ResumeUpload.UploadedBlobNamesInOrder | app.py:48-59 | the k-th name is "resumes-all/" plus the secured k-th allowed file: an order-preserving filter |
| ResumeUpload.UploadedBlobNamesMembers | app.py:48-59 | each allowed file gives "resumes-all/" plus its secured name; every name comes from an allowed file; the list is empty iff no file is allowed |
| ResumeUpload.IndexPost | app.py:37-78 | redirects iff there are no files, or no file is allowed; otherwise runs the batch pipeline on exactly the uploaded names with e-mails on: its rows and copies are those of the steps on those names, every row is loaded, and the invitable rows are mailed |
| InterviewSession.FindCandidate | interview.py:36-61 | a found candidate is a shortlist row with the id; nothing is found iff the query failed or no row has the id |
| InterviewSession.FirstWithId | interview.py:49-50 | the first row with the id is the one taken |
| InterviewSession.LoginDecision | interview.py:206-223 | `int()` failure, then the duplicate check (a failed query means no duplicate), then the lookup, then question generation, in that order |
| InterviewSession.AfterLogin | interview.py:214-220 | success starts `index` at 0 with an empty transcript; a generation failure leaves only `candidate_info` changed; the session invariant is kept |
| InterviewSession.Session.Login | interview.py:206-223 | the route in place: its outcome is the login decision, and the session becomes the one described by `AfterLogin` |
| InterviewSession.Submit | interview.py:256-298 | fails, changing nothing, iff a lookup fails (no JSON object, `index` not below the question count, missing keys); otherwise appends one pair for `questions[index]` and raises `index` by 1; an audio answer hands the pre-increment index to the worker, a text answer hands nothing |
| InterviewSession.AnswerText | interview.py:275-289 | audio stores "[Processing...]"; a given `answer_text` is stored as is; a missing one stores "[no answer]" |
| InterviewSession.SubmitPreservesWellFormed | interview.py:271-276 | `len(transcript) == index <= len(questions)` and the question alignment survive every submission |
| InterviewSession.NoAnswerPastTheEnd | interview.py:271-272 | once all questions are answered, every submission fails |
| InterviewSession.AcceptedAtMostRemaining | interview.py:291-296 | over any request sequence, at most `len(questions) - index` are accepted, each raising `index` by one |
| InterviewSession.InterviewRoute | interview.py:226-246 | to login iff `questions` is missing; to processing iff `index >= len(questions)`; a crash iff `index` is missing or speaking the question fails; otherwise shows `questions[index]` with its audio, numbered `index+1` of the total |
| InterviewSession.ProcessingRoute | interview.py:248-254 | bounces back iff `index < len(questions)`, with the missing-key defaults |
| InterviewSession.RoutesAgree | interview.py:234-251 | on a valid session the two pages never send the user back and forth; the question shown is the first unanswered one; the interview page crashes only when speaking it fails |
| InterviewSession.AudioTaskMatchesShownQuestion | interview.py:271-284 | when the question could be spoken, the worker receives the question the page showed; its entry number is the shown number |
| InterviewSession.Session.SubmitAnswer | interview.py:256-298 | the route in place: it keeps the invariant; a rejection leaves the session as it was; an audio answer saves the advanced session and then submits the task |
| TranscriptStore.WrittenAnswer | interview.py:136-137 | nothing is written iff the transcription call raised; a reply with text is written as that text stripped; a reply without a text attribute is written as "[No speech detected]" |
| TranscriptStore.EntryStartsWithMarker | interview.py:141-155 | the entry begins with the marker "Question{k}:" that the duplicate check looks for |
| TranscriptStore.AppendOnce | interview.py:155-157 | the old text is a prefix of the new; an existing marker means no change; otherwise exactly the entry is appended |
| TranscriptStore.AfterTaskIsAppendOnce | interview.py:148-157 | with an answer to write, the worker replaces the candidate's file (or "") by `AppendOnce` of it |
| TranscriptStore.AppendOnceIdempotent | interview.py:155-160 | after the append the marker is present, and a repeat for the same number changes nothing whatever its text |
| TranscriptStore.AppendOnceCount | interview.py:155-157 | the count of "Question" never drops, and rises by at least one when an entry is written |
| TranscriptStore.WorkerTouchesOnlyItsFile | interview.py:147-160 | only the file of the task's candidate can change, and once an answer was written or already present the file holds the marker numbered `index+1` |
| TranscriptStore.WorkerIdempotent | interview.py:149-160 | a second run for the same candidate and number leaves the files as the first run did |
| TranscriptStore.WorkerOnlyAppends | interview.py:149-157 | every file only grows at its end, and its count of "Question" never drops |
| TranscriptStore.WorkerRaisesCount | interview.py:155-157 | a missing entry, once written, raises the count by at least one |
| TranscriptStore.Store.ProcessAudio | interview.py:127-163 | the worker in place: the files become `AfterTask` of the old files and the written answer, so a failed call changes nothing and otherwise the file read (or "") gets the entry appended when its marker is absent |
| InterviewResults.ReadyStaysReady | interview.py:320 | once the file is ready, later worker runs keep it ready |
| InterviewResults.WaitForTranscript | interview.py:315-322 | one to 15 polls; every poll before the last saw the file not ready; it stopped ready iff the last poll saw at least 10 "Question"; it sleeps once per non-ready poll |
| InterviewResults.FinalText | interview.py:325-329 | the file's text, or "Transcription incomplete." when there is no file |
| InterviewResults.Evaluate | interview.py:332-345 | a failed call or parse gives 0.0 and "Evaluation error." as both summary and feedback; otherwise the parsed average and summary |
| InterviewResults.ResultRowFor | interview.py:349-357 | the inserted row carries the candidate's id and contacts, the text, the score and the summary |
| InterviewResults.Results | interview.py:301-375 | to login iff no candidate or an empty transcript; otherwise exactly one insert attempt, of the candidate's row; the table grows by that row iff the insert succeeds |
| InterviewResults.InsertedCandidateCannotLogInAgain | interview.py:63-83 | once the row is stored, logging in with that id is refused as already interviewed |
| InterviewResults.FreshLoginHasNoResults | interview.py:308-309 | straight after login the transcript is empty, so the results page sends back to login |

## Left out

- The external services are opaque parameters: the language model, Text-to-Speech, the warehouse tables, object storage and SMTP. This covers the prompts, the PDF transcription, the field extraction, the audio encoding, the table schemas and the e-mail bodies. `json.loads` of a model reply is an opaque parser that either yields the expected shape or fails. A reply of another JSON shape, such as a dictionary where a list of questions is expected, counts as a failure.
- The thread pool and its races are not modelled. The worker body runs sequentially. Concurrent check-then-append on one file and the race between the duplicate check and the insert are out of scope.
- Flask is not modelled: routing, templates, `flash`, redirects as HTTP responses, and the cookie serialisation at interview.py:279-282. Only the session keys and the redirect decisions are kept. Saving the session is an `Effect` recorded before the task.
- Files and time are not modelled: writing the audio file, the temporary upload file and the GCS upload, and their failures. `time.sleep` and the `random.uniform` jitter appear only as integer lower bounds (`waits`, `sleeps`). The batch id `int(time.time())` is a parameter.
- Text.Lower: lower-cases ASCII only; Python's Unicode case mapping is not modelled.
- AtsScoring.CalculateAtsScoreUploaded: returns the unrounded score; `round(…, 2)` and the float casts are floating point and are dropped.
- AtsScoring.CalculateAtsScoreBatch: returns the unrounded score; the rounding is dropped as above.
- ShortlistQuery.FetchShortlisted: treats a negative `limit` as a failing query and returns `[]`. Rows with equal scores come back in one fixed order, where SQL leaves their order unspecified; no contract depends on that order.
- ResumeUpload.UploadedBlobNames: takes `secure_filename` as an opaque function. Its output is not assumed to keep the extension.
- The pandas conversions in both `load_to_bigquery` functions are not modelled. The uploaded pipeline's `.str.strip().str.lower()` is kept as `Text.NormalizeEmail`.
- `load_and_analyze_jd` (file reading) is not modelled: the JD text is a parameter and the keyword tables are constants.
- A JSON `null` for `answer_text`, or for the extracted e-mail, name and phone, is treated like a missing key.
- clean_up.py (dropping and creating tables) is not part of this model.
- The prompt at interview.py:90 asks for 10 questions, but `generate_questions` stores whatever list the parser returns, of any length; the model does the same.
- The degraded summary and feedback are "Evaluation error." with a period (interview.py:344-345).
