# PrepPal admin dashboard: the local rules, in Dafny

The PrepPal admin dashboard is a set of page controllers over a hosted database
and object store. Exams contain subjects, subjects contain chapters, and chapters
and books carry PDF attachments. Almost everything the pages do is a remote call.
This project models the deterministic rules that run between those calls, on
data already in memory:

- **Attachment keys** (`Attachments`). This covers the chapters page's filename
  sanitiser and the `{Date.now()}_{name}` upload keys of the chapters page
  (sanitised) and the books page (name as given). It also covers the two ways
  the chapters page recovers a storage key from a public URL's pathname, the
  order in which the delete handler tries those keys, and the PDF-only file picker.
- **Cascading filters** (`Cascade`, `Forms`). Loose mode serves the list filters
  of the chapters and books pages, where an empty id means "All". This includes
  the reset effect that clears a subject that no longer fits the exam, and the
  list precedence: subject, then exam, then all. Strict mode serves the add forms
  and both tabs of the questions page: no parent gives no children, and a parent
  change clears the children. The preview query applies one filter: chapter, then
  subject, then exam.
- **Question import** (`QuestionsPage`). This covers validation of the parsed
  JSON array, the insert rows for the selected chapter, and the page state
  around both.
- **List maintenance and validation** (`PromptsPage`, `ChaptersPage`,
  `BooksPage`). This covers replace-by-id, prepend-on-create and remove-by-id on
  the in-memory lists, the required-field checks done before any remote call,
  and the add/edit/reset form state.
- **Environment check** (`EnvCheck`). This covers which required variables the
  env file lacks, and the exit decision.

Remote calls are modelled as their inputs and outputs. What a page sends is
returned as a request value. What the service answered (rows, error messages,
removal outcomes) is a parameter. `Date.now()` is a parameter, and so is
`new URL(u).pathname`, which is absent when the URL does not parse. `JSON.parse`
is replaced by its result (a `Json` value, or the message it threw). React
effects are modelled by the state they settle in once every triggered effect
has run. Queries that an effect fires from an intermediate render, before the
reset effects have run, are not modelled; only the query from the settled
state is.

Behaviour of the code that a reader might not expect, stated as the model states it:

- Method 2 of the key recovery uses `pathname.split('/storage/v1/object/public/')[1]`.
  That is the text between the first occurrence of the prefix and the next one,
  not everything after the prefix (`SecondSplitPart`).
- `sanitizeFilename` gives an empty stem for names such as `.pdf`; the model says
  exactly when that happens (`SanitizedStemEmptyIff`).
- Deleting a chapter tries up to three keys, not only the last path segment
  (`DeletionAttempts`). Replacing a chapter's PDF removes the old object by the
  last path segment only (`ReplacedObjectKey`).
- `handleSubmitQuestions` inserts into the single selected chapter.
- A `null` element of the question array makes `question.question_text` throw a
  TypeError. The message shown is then V8's (Chrome's) TypeError text, not the
  validation message (`CheckQuestions`).
- In `updateChapter`, a failed validation shows the generic "Failed to update
  chapter. Please try again.", because the catch replaces the thrown message
  (`ChaptersPage.PlanSubmit`).

## Model

| member | source | states |
|---|---|---|
| Attachments.StemExtensionSplit | pages/chapters.tsx:352-354 | the stem and the extension (the suffix from the last `.`, or empty) put back together give the file name |
| Attachments.ReplaceNonAlnum | pages/chapters.tsx:358 | each character becomes `_` unless it is an ASCII letter or digit; the length is kept |
| Attachments.CollapseUnderscores | pages/chapters.tsx:359 | the result has no two adjacent `_`, is no longer than the input, is empty only for empty input, starts with the input's first character and uses only the input's characters |
| Attachments.CollapseKeepsOtherChars | pages/chapters.tsx:359 | collapsing removes only underscores: the other characters survive, in order |
| Attachments.CollapseFixesClean | pages/chapters.tsx:359 | a string without adjacent underscores is unchanged by collapsing |
| Attachments.CollapseShortensRun | pages/chapters.tsx:359 | a run of two underscores anywhere collapses exactly like a single one, so a run of any length becomes one `_` |
| Attachments.SanitizeStem | pages/chapters.tsx:357-359 | the sanitised stem has only `[A-Za-z0-9_]` and no `__`; it is empty exactly when the stem was |
| Attachments.SanitizeKeepsExtension | pages/chapters.tsx:350-361 | the sanitised name has exactly the original extension, and its stem is the sanitised original stem |
| Attachments.SanitizeIdempotent | pages/chapters.tsx:350-362 | sanitising a sanitised name changes nothing |
| Attachments.SanitizedStemEmptyIff | pages/chapters.tsx:352-359 | the sanitised stem is empty exactly when the original stem is (for example `.pdf`) |
| Attachments.UploadKeyRoundTrip | pages/chapters.tsx:422 | the digits before the first `_` of `{timestamp}_{name}` read back as the timestamp, and the rest is the name |
| Attachments.UploadKeyInjective | pages/books.tsx:259 | different timestamps or names never give the same storage key |
| Attachments.LastSegment | pages/chapters.tsx:237-238 | Method 1: the pathname's suffix after its last `/`; it contains no `/`, and a `/` precedes it when the pathname has one |
| Attachments.SecondSplitPart | pages/chapters.tsx:243-245 | the second part of a split exists exactly when the separator occurs; it is the text right after the first occurrence, no occurrence of the separator starts inside it, and it ends at the next occurrence or at the end |
| Attachments.PublicObjectPath | pages/chapters.tsx:243-252 | Method 2 gives a result exactly when the pathname contains `/storage/v1/object/public/`; the result is the second split part with one leading `chapters/` removed, and the part unchanged when it does not start with `chapters/` |
| Attachments.LastSegmentOfPublicPath | pages/chapters.tsx:237-238 | Method 1 recovers any key without `/` from its public pathname |
| Attachments.PublicObjectPathOfChapterKey | pages/chapters.tsx:243-252 | Method 2, including the removal of a leading `chapters/`, recovers any key without `/` from its public pathname in the chapters bucket |
| Attachments.ChapterKeyHasNoSlash | pages/chapters.tsx:421-422 | a chapter upload key has no `/` when the picked file name has none |
| Attachments.ChapterKeyIsUrlPathSafe | pages/chapters.tsx:418-422 | when the file extension uses only URL-path-safe characters, the chapter upload key uses only `[A-Za-z0-9_.-]` and contains no `/` |
| Attachments.ChapterKeyRoundTrip | pages/chapters.tsx:421-439 | for a file whose extension is URL-path-safe, the key a chapter PDF is uploaded under is what both Methods read back from its public URL's pathname |
| Attachments.ReplacedObjectKey | pages/chapters.tsx:395-407 | on update, the old object is removed exactly when Method 1's segment is non-empty, and under exactly that segment, which has no `/` |
| Attachments.ReplacedKeyIsUploadKey | pages/chapters.tsx:395-407 | replacing a PDF this page uploaded removes the old object under the key it was uploaded with |
| Attachments.FallbackAttempts | pages/chapters.tsx:279-317 | after Method 1: Method 2's key is tried exactly when it is non-empty; the URL's last segment follows exactly when that call returned an error and the segment is non-empty; no call before the last removed its object |
| Attachments.DeletionAttempts | pages/chapters.tsx:255-321 | on delete, Method 1's key is tried first when non-empty; a success there ends the chain, otherwise the fallbacks follow from the next call (from the first call when Method 1 was empty); at most three non-empty keys, and no key before the last removed its object |
| Attachments.UploadedKeyTriedThreeTimes | pages/chapters.tsx:235-317 | for a PDF this page uploaded, a failed first call followed by an error on the second makes the handler ask for the same key three times |
| Attachments.SameKeyTriedThreeTimes | pages/chapters.tsx:235-317 | for any slash-free key in the chapters bucket, all three methods read that key back from its public URL, so a failed first call and an error on the second lead to three calls with that key |
| Attachments.AcceptFile | pages/books.tsx:187-196 | a file is kept exactly when its type is `application/pdf`; otherwise the pending file is cleared and "Please upload a PDF file" is set |
| Text.TrimEmptyIffBlank | pages/prompts.tsx:84 | `trim()` gives the empty string exactly for strings of JavaScript whitespace |
| Text.ContainsIffOccurs | scripts/check-env.js:29 | `includes` holds exactly when the pattern occurs at some position |
| Cascade.SubjectOptionsExactly | pages/chapters.tsx:147-153 | with no exam, the loose list is every subject and the strict list is empty; with exam `e`, both are exactly the subjects with `exam_id == e`, in the original order |
| Cascade.Reconcile | pages/chapters.tsx:155-164 | the reset effect keeps the exam, only ever clears the subject, leaves a consistent selection unchanged, and always ends consistent |
| Cascade.ReconcileIdempotent | pages/books.tsx:152-161 | running the reset effect again changes nothing |
| Cascade.ConsistentSubjectIsListed | pages/chapters.tsx:147-164 | after the reset, a selected subject is among the subject options shown for the selected exam |
| Cascade.ChooseExam | pages/chapters.tsx:650-653 | the exam filter select sets the exam and puts the subject back to "All"; the result is consistent, so the reset effect leaves it as it is |
| Cascade.ChooseSubject | pages/chapters.tsx:671 | a subject selection survives the reset exactly when it belongs to the selected exam, or no exam is selected |
| Cascade.ViewPrecedence | pages/chapters.tsx:168-176 | a selected subject filters by `subject_id` and ignores the exam; otherwise a selected exam filters by the joined exam; otherwise the list is unchanged |
| Cascade.SubjectViewNarrowsExamView | pages/books.tsx:165-173 | when the joins agree with the subjects, the rows of a selected subject are a sub-list of the rows of its exam |
| Cascade.InitialCascade | pages/questions.tsx:66-72 | the mount state, with nothing selected, already has the option lists its selections derive |
| Cascade.LoadReference | pages/questions.tsx:148-171 | a reload of the reference lists keeps the exam, clears subject and chapter, and recomputes the options |
| Cascade.SelectExam | pages/questions.tsx:160-171 | an exam change recomputes the subjects strictly and clears subject and chapter; selecting the same exam again changes nothing |
| Cascade.SelectSubject | pages/questions.tsx:173-184 | a subject change recomputes the chapters strictly and clears the chapter |
| Cascade.SelectChapter | pages/questions.tsx:407 | a chapter selection touches no other tier |
| Cascade.TransitionsKeepSettled | pages/questions.tsx:160-211 | every selection keeps the option lists equal to what the selections derive, and no chapter option is left after an exam change |
| Cascade.StrictOptionsBelongToExam | pages/questions.tsx:160-184 | strict options only offer subjects of the selected exam and chapters of the selected subject |
| Cascade.PreviewFilter | pages/questions.tsx:245-251 | exactly one of chapter, subject, exam or no filter is applied, the most specific selected tier first |
| Cascade.PreviewAfterExamChange | pages/questions.tsx:186-198 | after a preview exam change the query filters by that exam alone, or by nothing for "All" |
| Forms.InputChange | pages/chapters.tsx:479-487 | the named field takes the value; an exam change also clears `subject_id`; every other field is unchanged |
| Forms.InputChangeKeepsConsistent | pages/books.tsx:176-202 | the form's subject stays empty or one of the subjects offered for its exam across any input change, as long as a chosen subject is one of those offered |
| Forms.FormSubjectsBelongToExam | pages/chapters.tsx:490-493 | form subjects are empty without an exam, and otherwise exactly the subjects of that exam |
| Json.Get | pages/questions.tsx:283-288 | a truthy property read comes from an object that has that key |
| QuestionsPage.CheckQuestions | pages/questions.tsx:282-291 | the loop passes exactly when every element has truthy question text, options A to D and correct option; `explaination` is not checked |
| QuestionsPage.ParseQuestions | pages/questions.tsx:272-299 | success exactly for an array of complete questions, returning that array; a non-array gives "Input must be a JSON array"; every error message is non-empty |
| QuestionsPage.HandleParseJson | pages/questions.tsx:267-300 | on success the pending list is exactly the parsed array; on failure the error is shown and the pending list is unchanged |
| QuestionsPage.InsertRows | pages/questions.tsx:320-329 | one row per pending question, in order, each being that question's row for the chapter |
| QuestionsPage.InsertRowsCarryContent | pages/questions.tsx:320-329 | for a validated list, every row is for the selected chapter, has truthy content fields, and has an explanation that is truthy or null |
| QuestionsPage.InsertRowsCopyFields | pages/questions.tsx:320-329 | each row copies its question's text, options and correct option as read, and its explanation when truthy, `null` otherwise |
| QuestionsPage.InsertRowsConcat | pages/questions.tsx:320 | the rows of a concatenation are the rows of its parts, in order |
| QuestionsPage.SubmissionRows | pages/questions.tsx:302-329 | no selected chapter or nothing pending is refused with the matching message; otherwise one row per pending question for the selected chapter |
| QuestionsPage.SubmitQuestions | pages/questions.tsx:302-350 | a refused submission sets only the error and issues no insert; a successful insert clears the pending list and the JSON input; a failed one keeps them |
| QuestionsPage.NoDoubleSubmission | pages/questions.tsx:309-343 | after a successful submission, submitting again issues no insert |
| QuestionsPage.ExamChangeBlocksSubmission | pages/questions.tsx:160-171 | an add-tab exam change leaves no chapter, so submission is refused; the pending list and the preview tab are untouched |
| QuestionsPage.PreviewQueryFollowsSelection | pages/questions.tsx:245-247 | a selected preview chapter makes the query filter by that chapter |
| QuestionsPage.PreviewPicksStaySettled | pages/questions.tsx:186-251 | after any sequence of preview select changes, the preview options still derive from the selections, the add tab and pending list are untouched, and a last chapter pick makes the query filter by that chapter |
| PromptsPage.ResetForm | pages/prompts.tsx:68-74 | title and content empty, no current prompt, neither adding nor editing; the list is unchanged |
| PromptsPage.EditPrompt | pages/prompts.tsx:153-159 | the prompt's title and content are loaded, it becomes current, and both flags are set |
| PromptsPage.RequestFor | pages/prompts.tsx:102-127 | an update of the current prompt's id exactly when editing with a current prompt, otherwise a create with the user's id |
| PromptsPage.ApplyUpdate | pages/prompts.tsx:113-117 | rows with the id get the new title, content and `updated_at`; all other rows keep their value and place |
| PromptsPage.ApplyUpdateKeepsIds | pages/prompts.tsx:113-117 | an update keeps every row's id in place, and changes nothing when no row has the id |
| PromptsPage.ApplyCreate | pages/prompts.tsx:137-139 | the first returned row is put in front of the unchanged list; no returned row leaves the list unchanged |
| PromptsPage.ApplyDelete | pages/prompts.tsx:172 | exactly the rows with another id remain, in their order |
| PromptsPage.ApplyDeleteProperties | pages/prompts.tsx:172 | deleting an absent id changes nothing, and deleting twice equals deleting once |
| PromptsPage.ApplyCreateThenDelete | pages/prompts.tsx:137-139 | deleting a freshly created prompt's id restores the list as it was before the create |
| PromptsPage.Submit | pages/prompts.tsx:77-150 | a blank title or content, or a missing session, is refused with no write; a valid form issues the update or create; success empties title and content, closes the form, sets "Prompt updated successfully" or "Prompt created successfully" and updates the list; failure keeps list and form |
| PromptsPage.BlankIsRefused | pages/prompts.tsx:84-88 | a title or content made only of whitespace is refused before any remote call, whatever the session |
| PromptsPage.Delete | pages/prompts.tsx:162-183 | a successful delete removes the row, and resets the form only when it held that prompt; a failed one only sets the error |
| PromptsPage.EditThenSaveTouchesOnlyThatRow | pages/prompts.tsx:102-117 | editing a prompt and saving changes only that prompt's rows |
| ChaptersPage.FilterByExam | pages/chapters.tsx:650-653 | the exam filter sets the exam and clears the subject filter; the list then shows exactly the chapters whose joined exam is that exam, or all chapters for "All Exams" |
| ChaptersPage.FilterBySubject | pages/chapters.tsx:671 | the subject filter keeps the exam; the chosen subject stays exactly when it fits the selected exam (or no exam is selected), and is otherwise reset to "All" |
| ChaptersPage.VisibleChaptersExactly | pages/chapters.tsx:168-176 | the visible chapters are exactly those of the selected subject, else of the selected exam, else all, in list order |
| ChaptersPage.InputChange | pages/chapters.tsx:479-487 | the named form field takes the value; an exam change also clears the subject; other fields are unchanged |
| ChaptersPage.FileChange | pages/chapters.tsx:496-505 | only a PDF becomes the pending file; anything else clears it and sets the error |
| ChaptersPage.OnlyPdfIsUploaded | pages/chapters.tsx:418-422 | after a file change, a planned write carries an upload key exactly when the picked file is a PDF |
| ChaptersPage.EditChapter | pages/chapters.tsx:179-196 | the form holds the row's name, description (empty when absent), subject and joined exam, and its order as text; editing is on for that id; the list, pending file, filters and messages are unchanged |
| ChaptersPage.FindChapter | pages/chapters.tsx:392 | the row found is the first one with the looked-up id; none found means no row has it |
| ChaptersPage.StoredUrl | pages/chapters.tsx:392-395 | the stored URL is present exactly when the found row has a non-empty `pdf_url`, and is that URL |
| ChaptersPage.PlanSubmit | pages/chapters.tsx:365-594 | an invalid form is refused with the create or update message; a valid update fails exactly when a file is pending, the row has a non-empty `pdf_url` and that URL does not parse; otherwise the plan writes the form's columns, carries a sanitised upload key exactly when a file is pending, and removes Method 1's key of the old URL exactly when both a file and an old URL are present |
| ChaptersPage.ApplyUpdated | pages/chapters.tsx:452-468 | the edited row is replaced by the returned row and every other row keeps its place; the error is clear, the success message set, and the form closed |
| ChaptersPage.ApplyUpdatedKeepsIds | pages/chapters.tsx:453 | replacing the edited row by the returned row with the same id keeps every id in place; with no row of the edited id the list is unchanged |
| ChaptersPage.ApplyCreated | pages/chapters.tsx:597-600 | success message with the error clear, empty closed form, no pending file; the list is left to the reload |
| ChaptersPage.ApplyUpdateFailed | pages/chapters.tsx:470-472 | a failed update shows the generic update message and no success message; the list and the form are kept |
| ChaptersPage.ApplyCreateFailed | pages/chapters.tsx:605-607 | a failed create shows the thrown message, or "Failed to add chapter" when it is empty, and no success message; the list and the form are kept |
| ChaptersPage.Submit | pages/chapters.tsx:365-611 | a submission clears both messages first; it writes exactly when the plan succeeds; a refusal shows the plan's error; a successful write leaves the error clear and the form closed, and an update applies the returned row; a failed write leaves a non-empty error, no success message, and the list and form kept |
| ChaptersPage.AttachmentRemovals | pages/chapters.tsx:224-327 | no removal is tried for an unknown chapter, an empty or absent `pdf_url`, or a URL that does not parse; otherwise the keys are exactly the deletion attempts for that URL |
| ChaptersPage.DeleteTriesUploadedKeyFirst | pages/chapters.tsx:224-264 | deleting a chapter whose PDF this page uploaded, with a URL-path-safe extension, tries that upload's key first |
| ChaptersPage.ApplyDeleted | pages/chapters.tsx:337-339 | exactly the rows with another id remain, in order |
| ChaptersPage.Delete | pages/chapters.tsx:199-347 | the delete tries exactly the attachment removals, then: on success exactly the rows with another id remain, in order, with the success message; on failure the list is kept and the delete error shown; the form and filters are untouched |
| BooksPage.VisibleBooksExactly | pages/books.tsx:165-173 | the visible books are exactly those of the selected subject, else of the selected exam, else all, in list order |
| BooksPage.FilterByExam | pages/books.tsx:320-323 | the exam filter sets the exam and clears the subject filter; the list then shows exactly the books whose joined exam is that exam, or all books for "All Exams" |
| BooksPage.FilterBySubject | pages/books.tsx:341 | the subject filter keeps the exam; the chosen subject stays exactly when it fits the selected exam (or no exam is selected), and is otherwise reset to "All" |
| BooksPage.InputChange | pages/books.tsx:176-184 | the named field takes the value; an exam change clears the subject; other fields are unchanged |
| BooksPage.FileChange | pages/books.tsx:187-196 | only a PDF becomes the pending file; anything else clears it and sets the error |
| BooksPage.OnlyPdfIsUploaded | pages/books.tsx:187-196 | for a valid form, the insert after a file change carries an upload key exactly when the picked file is a PDF |
| BooksPage.PlanSubmit | pages/books.tsx:237-259 | refused unless title, author, subject and exam are all non-empty; otherwise the form's columns, `link` null when empty, and the unsanitised upload key exactly when a file is pending |
| BooksPage.BookKeyKeepsName | pages/books.tsx:259 | a book's storage key decodes back to the timestamp and the file name exactly as picked |
| BooksPage.ApplyCreated | pages/books.tsx:281-284 | success message, empty closed form, no pending file; the error is left as the submission cleared it |
| BooksPage.ApplySubmitFailed | pages/books.tsx:289-291 | the error shown is never empty: the thrown message, or "Failed to add book" when it is empty; the list and the form are kept |
| BooksPage.Submit | pages/books.tsx:231-295 | an invalid form sets the required-fields error and issues no insert; a valid one issues the planned insert |
| EnvCheck.MissingVars | scripts/check-env.js:22-32 | the missing list is exactly the required variables `V` whose `V=` does not occur in the content, in required order |
| EnvCheck.CheckEnvFile | scripts/check-env.js:9-41 | a missing file exits 1 with the not-found message before any content check; a read that throws exits 1 with none of the script's messages; otherwise the exit code is 0 exactly when every variable is defined, and the error names the missing ones |

## Left out

- Remote services are not modelled. This covers the session check and login
  redirect, table select/insert/update/delete, storage
  list/upload/remove/getPublicUrl, and bucket creation. Their answers are
  parameters, and the reloads after a create are not modelled.
- `new URL(...)` is a library call. The pathname is an input, absent when the
  URL does not parse.
- `JSON.parse` is a library call. Its result, or its error message, is an input.
- `parseInt` of the chapter's order is a library call. The form text is passed on.
- `Date.now()` and `new Date().toISOString()` are clock reads, passed as
  parameters. `String(n)` is modelled only as plain decimal, which JavaScript
  uses for integers below 10^21.
- Left out as timer, console and browser effects: the 3-second message
  timeouts, console logging, the debug bucket listing in the chapter delete
  handler, `window.confirm` (the model starts after the user confirmed), and
  scrolling.
- The `uploading`, `submitting`, `loading` and `isDeleting` flags are left out. They only
  disable controls.
- The add-exam and add-subject modal flows of the chapters and books pages
  (`handleExamAdded`, `handleSubjectAdded`, `openAddSubjectModal`) are
  remote-backed helpers around the cascade, so they are left out.
- The dashboard's concurrent count fetches and the exam/subject/login pages are
  thin remote wrappers, so they are left out.
- Presentation-only layout and UI components are left out.
- JSON numbers are exact reals. JavaScript doubles can round, but rounding
  never turns a non-zero literal into `0` except by underflow. Underflow to
  zero is not modelled.
- Cascade.PreviewAfterExamChange: the render right after a preview exam change
  still holds the old subject and chapter, and the fetch effect fires from it
  with the stale filter before the reset effect clears them. That first query
  and the order in which the two responses arrive are not modelled.
- Attachments.ChapterKeyRoundTrip: `new URL` percent-encodes characters outside
  the URL path set and splits at `?` and `#`, and neither is modelled. The
  round trip is stated only for file extensions made of `[A-Za-z0-9_.-]`,
  where the encoding changes nothing.
- ChaptersPage.DeleteTriesUploadedKeyFirst: for the same reason, this is
  stated only for URL-path-safe extensions.
- The chapter delete handler can pass the same key to `remove` up to three
  times (`Attachments.UploadedKeyTriedThreeTimes`). The model records every
  call, and the storage service's answer to each call is a parameter.
- Strings are sequences of code points, while JavaScript strings are UTF-16
  code units. `Attachments.ReplaceNonAlnum` therefore gives one `_` where
  JavaScript gives two for a character outside the Basic Multilingual Plane;
  the collapse that follows makes the sanitised names agree.
- Json.Get: an absent property (`undefined`) is represented as `null`. Both are
  falsy, and both end up as SQL NULL in an insert.
