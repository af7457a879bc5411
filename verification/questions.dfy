/** The questions page: validation of the pasted JSON array, the rows inserted for
    the selected chapter, and the page state around both, with the strict cascades
    of its two tabs. */
module QuestionsPage {
  import opened Wrappers
  import opened Text
  import opened Json
  import opened Records
  import opened Cascade

  const RequiredFields: seq<string> :=
    ["question_text", "option_a", "option_b", "option_c", "option_d", "correct_option"]

  const NotAnArrayMessage: string := "Input must be a JSON array"
  const MissingFieldsMessage: string := "All questions must have question text, options A-D, and correct option"
  /** What the JavaScript engine (V8) reports for `null.question_text`. */
  const NullElementMessage: string := "Cannot read properties of null (reading 'question_text')"
  const InvalidJsonMessage: string := "Invalid JSON format"
  const ParsedMessage: string := "Questions parsed successfully"
  const NoChapterMessage: string := "Please select a chapter before submitting questions"
  const NothingParsedMessage: string := "Please parse questions before submitting"
  const SaveFailedPrefix: string := "Failed to save questions: "
  const UnknownErrorMessage: string := "Unknown error"

  /** An element passes the check: every required field is truthy. */
  predicate IsCompleteQuestion(q: Json) {
    forall k :: 0 <= k < |RequiredFields| ==> Truthy(Get(q, RequiredFields[k]))
  }

  /** The loop over the parsed elements: the first element that is `null` throws a
      TypeError, the first that lacks a truthy required field throws the validation error. */
  function CheckQuestions(elems: seq<Json>): (r: Option<string>)
    ensures r.None? <==> forall i :: 0 <= i < |elems| ==> IsCompleteQuestion(elems[i])
    ensures r.Some? ==> r.value == NullElementMessage || r.value == MissingFieldsMessage
  {
    if |elems| == 0 then None
    else if elems[0].JNull? then
      assert !Truthy(Get(elems[0], RequiredFields[0]));
      Some(NullElementMessage)
    else if !IsCompleteQuestion(elems[0]) then Some(MissingFieldsMessage)
    else
      var rest := CheckQuestions(elems[1..]);
      assert forall i :: 1 <= i < |elems| ==> elems[i] == elems[1..][i - 1];
      rest
  }

  /** `handleParseJson` without the state: `parsed` is what `JSON.parse` returned, or
      the message of the error it threw. The error shown is the thrown message, or
      the generic one when that message is empty. */
  function ParseQuestions(parsed: Result<Json, string>): (r: Result<seq<Json>, string>)
    ensures r.Success? <==> (parsed.Success? && parsed.value.JArr? &&
                             forall i :: 0 <= i < |parsed.value.elems| ==> IsCompleteQuestion(parsed.value.elems[i]))
    ensures r.Success? ==> r.value == parsed.value.elems
    ensures parsed.Success? && !parsed.value.JArr? ==> r == Failure(NotAnArrayMessage)
    ensures r.Failure? ==> r.error != ""
  {
    match parsed
    case Failure(msg) => Failure(if msg == "" then InvalidJsonMessage else msg)
    case Success(v) =>
      if !v.JArr? then Failure(NotAnArrayMessage)
      else match CheckQuestions(v.elems)
        case Some(msg) => Failure(msg)
        case None => Success(v.elems)
  }

  /** One row of the insert, for the chapter selected at submit time. */
  datatype QuestionRow = QuestionRow(
    chapterId: string,
    questionText: Json,
    optionA: Json,
    optionB: Json,
    optionC: Json,
    optionD: Json,
    correctOption: Json,
    explaination: Json)

  /** The content of a pending question as the insert copies it (`q.explaination || null`). */
  function ToRow(chapter: string, q: Json): QuestionRow {
    var explaination := Get(q, "explaination");
    QuestionRow(chapter,
      Get(q, "question_text"), Get(q, "option_a"), Get(q, "option_b"), Get(q, "option_c"),
      Get(q, "option_d"), Get(q, "correct_option"),
      if Truthy(explaination) then explaination else JNull)
  }

  /** `questions.map(...)`: one row per pending question, in order. */
  function InsertRows(pending: seq<Json>, chapter: string): (rows: seq<QuestionRow>)
    ensures |rows| == |pending|
    ensures forall i :: 0 <= i < |rows| ==> rows[i] == ToRow(chapter, pending[i])
  {
    seq(|pending|, i requires 0 <= i < |pending| => ToRow(chapter, pending[i]))
  }

  /** Every row is for the selected chapter; a validated pending list yields rows whose
      content fields are all truthy, and whose explanation is truthy or null. */
  lemma InsertRowsCarryContent(pending: seq<Json>, chapter: string)
    requires forall i :: 0 <= i < |pending| ==> IsCompleteQuestion(pending[i])
    ensures forall r :: r in InsertRows(pending, chapter) ==>
      r.chapterId == chapter &&
      Truthy(r.questionText) && Truthy(r.optionA) && Truthy(r.optionB) &&
      Truthy(r.optionC) && Truthy(r.optionD) && Truthy(r.correctOption) &&
      (Truthy(r.explaination) || r.explaination == JNull)
  {
    var rows := InsertRows(pending, chapter);
    forall r | r in rows
      ensures Truthy(r.questionText) && Truthy(r.optionA) && Truthy(r.optionB)
      ensures Truthy(r.optionC) && Truthy(r.optionD) && Truthy(r.correctOption)
    {
      var i :| 0 <= i < |rows| && rows[i] == r;
      assert IsCompleteQuestion(pending[i]);
      assert Truthy(Get(pending[i], RequiredFields[0]));
      assert Truthy(Get(pending[i], RequiredFields[1]));
      assert Truthy(Get(pending[i], RequiredFields[2]));
      assert Truthy(Get(pending[i], RequiredFields[3]));
      assert Truthy(Get(pending[i], RequiredFields[4]));
      assert Truthy(Get(pending[i], RequiredFields[5]));
    }
  }

  /** Each row copies its question's fields as read (`question.question_text`, ...),
      and its explanation when truthy, `null` otherwise. */
  lemma InsertRowsCopyFields(pending: seq<Json>, chapter: string)
    ensures forall i :: 0 <= i < |pending| ==>
      var r := InsertRows(pending, chapter)[i];
      r.chapterId == chapter &&
      r.questionText == Get(pending[i], "question_text") &&
      r.optionA == Get(pending[i], "option_a") && r.optionB == Get(pending[i], "option_b") &&
      r.optionC == Get(pending[i], "option_c") && r.optionD == Get(pending[i], "option_d") &&
      r.correctOption == Get(pending[i], "correct_option") &&
      r.explaination == (if Truthy(Get(pending[i], "explaination")) then Get(pending[i], "explaination") else JNull)
  {
  }

  /** The insert for a list is the inserts for its parts, one after the other. */
  lemma InsertRowsConcat(a: seq<Json>, b: seq<Json>, chapter: string)
    ensures InsertRows(a + b, chapter) == InsertRows(a, chapter) + InsertRows(b, chapter)
  {
  }

  // ---------------------------------------------------------------------------
  // Page state
  // ---------------------------------------------------------------------------

  datatype Page = Page(
    subjects: seq<Subject>,
    chapters: seq<Chapter>,
    add: StrictCascade,
    preview: StrictCascade,
    jsonInput: string,
    pending: seq<Json>,
    error: string,
    success: string)

  /** `handleParseJson`: messages cleared, then either the pending list becomes the
      parsed array or an error is shown and the pending list is kept. */
  function HandleParseJson(page: Page, parsed: Result<Json, string>): (r: Page)
    ensures ParseQuestions(parsed).Success? ==>
      r == page.(pending := ParseQuestions(parsed).value, error := "", success := ParsedMessage)
    ensures ParseQuestions(parsed).Failure? ==>
      r == page.(error := ParseQuestions(parsed).error, success := "")
    ensures r.pending == page.pending || parsed.Success?
  {
    match ParseQuestions(parsed)
    case Success(qs) => page.(pending := qs, error := "", success := ParsedMessage)
    case Failure(msg) => page.(error := msg, success := "")
  }

  /** The guards of `handleSubmitQuestions`, checked before any remote call: a chapter
      must be selected and the pending list must not be empty. */
  function SubmissionRows(page: Page): (r: Result<seq<QuestionRow>, string>)
    ensures r.Failure? <==> page.add.chapter == "" || |page.pending| == 0
    ensures page.add.chapter == "" ==> r == Failure(NoChapterMessage)
    ensures page.add.chapter != "" && |page.pending| == 0 ==> r == Failure(NothingParsedMessage)
    ensures r.Success? ==> |r.value| == |page.pending| > 0
    ensures r.Success? ==> forall i :: 0 <= i < |r.value| ==> r.value[i].chapterId == page.add.chapter
  {
    if page.add.chapter == "" then Failure(NoChapterMessage)
    else if |page.pending| == 0 then Failure(NothingParsedMessage)
    else Success(InsertRows(page.pending, page.add.chapter))
  }

  function SavedMessage(count: nat): string {
    "Successfully saved " + NatToString(count) + " questions to the database"
  }

  /** `handleSubmitQuestions`. Returns the page afterwards and the rows handed to the
      insert, if it was issued; `insertError` is the outcome of that insert. */
  function SubmitQuestions(page: Page, insertError: Option<string>): (r: (Page, Option<seq<QuestionRow>>))
    ensures SubmissionRows(page).Failure? ==> r.1.None? && r.0 == page.(error := SubmissionRows(page).error)
    ensures SubmissionRows(page).Success? ==> r.1 == Some(InsertRows(page.pending, page.add.chapter))
    ensures SubmissionRows(page).Success? && insertError.None? ==>
      r.0.pending == [] && r.0.jsonInput == "" && r.0.error == "" && r.0.success == SavedMessage(|page.pending|)
    ensures insertError.Some? ==> r.0.pending == page.pending && r.0.jsonInput == page.jsonInput
    ensures r.0.add == page.add && r.0.preview == page.preview
  {
    match SubmissionRows(page)
    case Failure(msg) => (page.(error := msg), None)
    case Success(rows) =>
      var after := match insertError
        case None => page.(pending := [], jsonInput := "", error := "", success := SavedMessage(|rows|))
        case Some(msg) =>
          page.(error := SaveFailedPrefix + (if msg == "" then UnknownErrorMessage else msg), success := "");
      (after, Some(rows))
  }

  /** A successful submission leaves nothing pending, so submitting again is refused
      before any remote call. */
  lemma NoDoubleSubmission(page: Page)
    requires SubmissionRows(page).Success?
    ensures SubmitQuestions(SubmitQuestions(page, None).0, None).1.None?
  {
  }

  // Tab transitions: each tab's selects drive its own strict cascade.

  function SelectAddExam(page: Page, exam: string): Page {
    page.(add := SelectExam(page.subjects, page.chapters, page.add, exam))
  }

  function SelectAddSubject(page: Page, subject: string): Page {
    page.(add := SelectSubject(page.chapters, page.add, subject))
  }

  function SelectAddChapter(page: Page, chapter: string): Page {
    page.(add := SelectChapter(page.add, chapter))
  }

  function SelectPreviewExam(page: Page, exam: string): Page {
    page.(preview := SelectExam(page.subjects, page.chapters, page.preview, exam))
  }

  function SelectPreviewSubject(page: Page, subject: string): Page {
    page.(preview := SelectSubject(page.chapters, page.preview, subject))
  }

  function SelectPreviewChapter(page: Page, chapter: string): Page {
    page.(preview := SelectChapter(page.preview, chapter))
  }

  /** A change of exam on the add tab leaves no chapter selected, so submission is
      refused until a chapter of the new exam's subjects is chosen; the pending list
      and the preview tab are untouched. */
  lemma ExamChangeBlocksSubmission(page: Page, exam: string)
    requires exam != page.add.exam
    ensures SelectAddExam(page, exam).add.chapter == ""
    ensures SubmissionRows(SelectAddExam(page, exam)) == Failure(NoChapterMessage)
    ensures SelectAddExam(page, exam).pending == page.pending
    ensures SelectAddExam(page, exam).preview == page.preview
  {
  }

  /** A chosen preview chapter becomes the query's filter, whatever exam and subject
      are selected. */
  lemma PreviewQueryFollowsSelection(page: Page, chapter: string)
    requires chapter != ""
    ensures PreviewFilter(SelectPreviewChapter(page, chapter).preview) == ByChapter(chapter)
  {
  }

  /** One change of a preview select. */
  datatype PreviewPick = PickExam(exam: string) | PickSubject(subject: string) | PickChapter(chapter: string)

  /** The page after a sequence of preview select changes, in order. */
  function ApplyPreviewPicks(page: Page, picks: seq<PreviewPick>): Page
    decreases |picks|
  {
    if |picks| == 0 then page
    else
      var next := match picks[0]
        case PickExam(e) => SelectPreviewExam(page, e)
        case PickSubject(s) => SelectPreviewSubject(page, s)
        case PickChapter(c) => SelectPreviewChapter(page, c);
      ApplyPreviewPicks(next, picks[1..])
  }

  /** After any sequence of preview selections from a settled state, the preview
      options still derive from the selections, the add tab and the pending list are
      untouched, and a last pick of a chapter makes the query filter by it. */
  lemma {:induction false} PreviewPicksStaySettled(page: Page, picks: seq<PreviewPick>)
    requires Settled(page.subjects, page.chapters, page.preview)
    ensures var r := ApplyPreviewPicks(page, picks);
      Settled(page.subjects, page.chapters, r.preview) &&
      r.subjects == page.subjects && r.chapters == page.chapters &&
      r.add == page.add && r.pending == page.pending
    ensures |picks| > 0 && picks[|picks| - 1].PickChapter? && picks[|picks| - 1].chapter != "" ==>
      PreviewFilter(ApplyPreviewPicks(page, picks).preview) == ByChapter(picks[|picks| - 1].chapter)
    decreases |picks|
  {
    if |picks| > 0 {
      var next := match picks[0]
        case PickExam(e) => SelectPreviewExam(page, e)
        case PickSubject(s) => SelectPreviewSubject(page, s)
        case PickChapter(c) => SelectPreviewChapter(page, c);
      match picks[0] {
        case PickExam(e) => TransitionsKeepSettled(page.subjects, page.chapters, page.preview, e, "", "");
        case PickSubject(s) => TransitionsKeepSettled(page.subjects, page.chapters, page.preview, "", s, "");
        case PickChapter(c) => TransitionsKeepSettled(page.subjects, page.chapters, page.preview, "", "", c);
      }
      PreviewPicksStaySettled(next, picks[1..]);
      if |picks| == 1 && picks[0].PickChapter? && picks[0].chapter != "" {
        PreviewQueryFollowsSelection(page, picks[0].chapter);
      } else if |picks| > 1 {
        assert picks[1..][|picks[1..]| - 1] == picks[|picks| - 1];
      }
    }
  }
}
