/** The chapters page: list filters, the add/edit form, the submission plans for a
    create or an update, and the in-memory list after an update or a delete. */
module ChaptersPage {
  import opened Wrappers
  import opened Seqs
  import opened Text
  import opened Records
  import opened Attachments
  import Cascade
  import Forms

  const RequiredMessage: string := "Name and Subject are required"
  const AddFailedMessage: string := "Failed to add chapter"
  const UpdateFailedMessage: string := "Failed to update chapter. Please try again."
  const UpdatedMessage: string := "Chapter updated successfully"
  const AddedMessage: string := "Chapter added successfully!"
  const DeletedMessage: string := "Chapter deleted successfully"
  const DeleteFailedMessage: string := "Failed to delete chapter. Please try again."

  const NameField: string := "name"
  const DescriptionField: string := "description"
  const OrderField: string := "order"

  /** The empty form (`{ name: '', description: '', order: '', subject_id: '', exam_id: '' }`). */
  const EmptyForm: Forms.Form :=
    map[NameField := "", DescriptionField := "", OrderField := "", Forms.SubjectField := "", Forms.ExamField := ""]

  datatype Page = Page(
    chapters: seq<Chapter>,
    subjects: seq<Subject>,
    view: Cascade.ViewSelection,
    form: Forms.Form,
    pdf: Option<FileInfo>,
    isAdding: bool,
    isEditing: bool,
    editingId: Option<string>,
    error: string,
    success: string)

  /** `filteredChapters`: subject filter, else exam filter on the joined exam, else all. */
  function VisibleChapters(page: Page): seq<Chapter> {
    Cascade.RowsInView(page.chapters, page.view, (c: Chapter) => c.subjectId, (c: Chapter) => c.parentExamId)
  }

  /** The exam filter select: sets the exam and puts the subject filter back to "All". */
  function FilterByExam(page: Page, exam: string): (r: Page)
    ensures r.view == Cascade.ViewSelection(exam, "") && r.chapters == page.chapters
    ensures exam != "" ==> forall c :: c in VisibleChapters(r) <==> c in page.chapters && c.parentExamId == Some(exam)
    ensures exam == "" ==> VisibleChapters(r) == page.chapters
  {
    var r := page.(view := Cascade.ChooseExam(page.subjects, exam));
    VisibleChaptersExactly(r);
    r
  }

  /** The subject filter select, followed by the reset effect. */
  function FilterBySubject(page: Page, subject: string): (r: Page)
    ensures r.view.exam == page.view.exam && Cascade.Consistent(page.subjects, r.view)
    ensures r.view.subject == subject <==> Cascade.Consistent(page.subjects, page.view.(subject := subject))
    ensures r.view.subject != subject ==> r.view.subject == ""
  {
    page.(view := Cascade.ChooseSubject(page.subjects, page.view, subject))
  }

  /** A selected subject filter shows exactly that subject's chapters, in list order;
      otherwise a selected exam shows the chapters whose joined exam is that exam. */
  lemma VisibleChaptersExactly(page: Page)
    ensures page.view.subject != "" ==>
      forall c :: c in VisibleChapters(page) <==> c in page.chapters && c.subjectId == page.view.subject
    ensures page.view.subject == "" && page.view.exam != "" ==>
      forall c :: c in VisibleChapters(page) <==> c in page.chapters && c.parentExamId == Some(page.view.exam)
    ensures page.view.subject == "" && page.view.exam == "" ==> VisibleChapters(page) == page.chapters
    ensures IsSubsequence(VisibleChapters(page), page.chapters)
  {
    Cascade.ViewPrecedence(page.chapters, page.view, (c: Chapter) => c.subjectId, (c: Chapter) => c.parentExamId);
    FilterIsSubsequence(page.chapters, Cascade.InViewOf(page.view, (c: Chapter) => c.subjectId, (c: Chapter) => c.parentExamId));
  }

  /** `handleInputChange`. */
  function InputChange(page: Page, name: string, value: string): (r: Page)
    ensures Forms.Field(r.form, name) == value
    ensures name == Forms.ExamField ==> Forms.Field(r.form, Forms.SubjectField) == ""
    ensures forall k :: k != name && !(name == Forms.ExamField && k == Forms.SubjectField) ==>
      Forms.Field(r.form, k) == Forms.Field(page.form, k)
    ensures r.chapters == page.chapters && r.view == page.view
  {
    page.(form := Forms.InputChange(page.form, name, value))
  }

  /** `getFormSubjects`. */
  function FormSubjects(page: Page): seq<Subject> {
    Forms.FormSubjects(page.subjects, page.form)
  }

  /** `handleFileChange`: a PDF becomes the pending file; anything else clears it and sets the error. */
  function FileChange(page: Page, picked: Option<FileInfo>): (r: Page)
    ensures r.pdf.Some? <==> picked.Some? && picked.value.mimeType == PdfMimeType
    ensures r.pdf.Some? ==> r.pdf == picked && r.error == page.error
    ensures r.pdf.None? ==> r.error == NotPdfMessage
  {
    var (file, err) := AcceptFile(picked);
    page.(pdf := file, error := err.GetOr(page.error))
  }

  /** `handleEditChapter`: the form is loaded from the row, with the joined exam as its exam. */
  function EditChapter(page: Page, c: Chapter): (r: Page)
    ensures r.isAdding && r.isEditing && r.editingId == Some(c.id)
    ensures Forms.Field(r.form, NameField) == c.name
    ensures Forms.Field(r.form, Forms.SubjectField) == c.subjectId
    ensures Forms.Field(r.form, Forms.ExamField) == c.parentExamId.GetOr("")
    ensures c.order.Some? ==> Forms.Field(r.form, OrderField) == IntToString(c.order.value)
    ensures c.order.None? ==> Forms.Field(r.form, OrderField) == ""
    ensures Forms.Field(r.form, DescriptionField) == c.description.GetOr("")
    ensures r.chapters == page.chapters && r.pdf == page.pdf && r.view == page.view &&
            r.error == page.error && r.success == page.success
  {
    var form := map[
      NameField := c.name,
      DescriptionField := c.description.GetOr(""),
      OrderField := if c.order.Some? then IntToString(c.order.value) else "",
      Forms.SubjectField := c.subjectId,
      Forms.ExamField := c.parentExamId.GetOr("")];
    page.(editingId := Some(c.id), form := form, isAdding := true, isEditing := true)
  }

  /** The columns written for a chapter. `order` is the form text handed to
      `parseInt` when non-empty; absent means `null` on insert and "left out" on update. */
  datatype ChapterWrite = ChapterWrite(name: string, description: string, subjectId: string, order: Option<string>)

  /** The remote work a valid submission asks for. */
  datatype ChapterRequest =
    | CreateChapter(row: ChapterWrite, uploadKey: Option<string>)
    | UpdateChapter(id: Option<string>, row: ChapterWrite, removeKey: Option<string>, uploadKey: Option<string>)

  predicate FormIsValid(form: Forms.Form) {
    Forms.Field(form, NameField) != "" && Forms.Field(form, Forms.SubjectField) != ""
  }

  function WriteOf(form: Forms.Form): ChapterWrite {
    var order := Forms.Field(form, OrderField);
    ChapterWrite(Forms.Field(form, NameField), Forms.Field(form, DescriptionField),
                 Forms.Field(form, Forms.SubjectField), if order != "" then Some(order) else None)
  }

  /** `chapters.find(c => c.id === id)`: the first row with that id. */
  function FindChapter(chapters: seq<Chapter>, id: Option<string>): (r: Option<Chapter>)
    ensures r.Some? ==> r.value in chapters && id == Some(r.value.id)
    ensures r.Some? ==> exists i :: 0 <= i < |chapters| && chapters[i] == r.value &&
                                    forall j :: 0 <= j < i ==> id != Some(chapters[j].id)
    ensures r.None? ==> forall c :: c in chapters ==> id != Some(c.id)
  {
    if |chapters| == 0 then None
    else if id == Some(chapters[0].id) then Some(chapters[0])
    else
      var r := FindChapter(chapters[1..], id);
      assert r.Some? ==> exists i :: 0 <= i < |chapters| && chapters[i] == r.value &&
                                     forall j :: 0 <= j < i ==> id != Some(chapters[j].id) by {
        if r.Some? {
          var k :| 0 <= k < |chapters[1..]| && chapters[1..][k] == r.value &&
                   forall j :: 0 <= j < k ==> id != Some(chapters[1..][j].id);
          assert chapters[k + 1] == r.value;
          assert forall j :: 0 <= j < k + 1 ==> id != Some(chapters[j].id) by {
            forall j | 0 <= j < k + 1 ensures id != Some(chapters[j].id) {
              if j > 0 {
                assert chapters[j] == chapters[1..][j - 1];
              }
            }
          }
        }
      }
      r
  }

  /** The attachment URL stored on the first row with that id, when it is truthy
      (`chapter?.pdf_url` in a condition). */
  function StoredUrl(chapters: seq<Chapter>, id: Option<string>): (r: Option<string>)
    ensures r.Some? <==> FindChapter(chapters, id).Some? && FindChapter(chapters, id).value.pdfUrl.Some? &&
                         FindChapter(chapters, id).value.pdfUrl.value != ""
    ensures r.Some? ==> r == FindChapter(chapters, id).value.pdfUrl
  {
    match FindChapter(chapters, id)
    case Some(c) => if c.pdfUrl.Some? && c.pdfUrl.value != "" then c.pdfUrl else None
    case None => None
  }

  /** `handleSubmit` / `updateChapter` up to the remote calls. `now` is `Date.now()`;
      `pathnameOf` is `new URL(u).pathname`, absent when the URL does not parse. A
      failed validation reports its own message on create and the generic message on
      update (the catch there replaces it). An update with a new file first removes
      the previous attachment under Method 1's key; a stored URL that does not parse
      makes that update fail. */
  function PlanSubmit(page: Page, now: nat, pathnameOf: string -> Option<string>): (r: Result<ChapterRequest, string>)
    ensures !FormIsValid(page.form) ==> r == Failure(if page.isEditing then UpdateFailedMessage else RequiredMessage)
    ensures page.isEditing && FormIsValid(page.form) ==>
      (r.Failure? <==> page.pdf.Some? && StoredUrl(page.chapters, page.editingId).Some? &&
                       pathnameOf(StoredUrl(page.chapters, page.editingId).value).None?)
    ensures page.isEditing && r.Failure? ==> r.error == UpdateFailedMessage
    ensures !page.isEditing && FormIsValid(page.form) ==> r.Success? && r.value.CreateChapter?
    ensures r.Success? ==> r.value.row == WriteOf(page.form)
    ensures r.Success? ==> r.value.CreateChapter? == !page.isEditing
    ensures r.Success? ==> (r.value.uploadKey.Some? <==> page.pdf.Some?)
    ensures r.Success? && page.pdf.Some? ==> r.value.uploadKey == Some(ChapterUploadKey(now, page.pdf.value.name))
    ensures r.Success? && r.value.UpdateChapter? ==> r.value.id == page.editingId
    ensures r.Success? && r.value.UpdateChapter? && page.pdf.Some? && StoredUrl(page.chapters, page.editingId).Some? ==>
      pathnameOf(StoredUrl(page.chapters, page.editingId).value).Some? &&
      r.value.removeKey == ReplacedObjectKey(pathnameOf(StoredUrl(page.chapters, page.editingId).value).value)
    ensures r.Success? && r.value.UpdateChapter? && (page.pdf.None? || StoredUrl(page.chapters, page.editingId).None?) ==>
      r.value.removeKey.None?
  {
    var upload := if page.pdf.Some? then Some(ChapterUploadKey(now, page.pdf.value.name)) else None;
    if !FormIsValid(page.form) then
      Failure(if page.isEditing then UpdateFailedMessage else RequiredMessage)
    else if !page.isEditing then
      Success(CreateChapter(WriteOf(page.form), upload))
    else if page.pdf.None? then
      Success(UpdateChapter(page.editingId, WriteOf(page.form), None, None))
    else
      match StoredUrl(page.chapters, page.editingId)
      case None => Success(UpdateChapter(page.editingId, WriteOf(page.form), None, upload))
      case Some(url) =>
        (match pathnameOf(url)
         case None => Failure(UpdateFailedMessage)
         case Some(path) => Success(UpdateChapter(page.editingId, WriteOf(page.form), ReplacedObjectKey(path), upload)))
  }

  /** Only a file that passed the picker is uploaded: after a file change, a planned
      write carries an upload key exactly when the picked file is a PDF. */
  lemma OnlyPdfIsUploaded(page: Page, picked: Option<FileInfo>, now: nat, pathnameOf: string -> Option<string>)
    requires PlanSubmit(FileChange(page, picked), now, pathnameOf).Success?
    ensures PlanSubmit(FileChange(page, picked), now, pathnameOf).value.uploadKey.Some? <==>
            picked.Some? && picked.value.mimeType == PdfMimeType
  {
  }

  /** The form after a successful save: empty, closed, no pending file. */
  function Closed(page: Page): Page {
    page.(form := EmptyForm, pdf := None, isAdding := false, isEditing := false)
  }

  /** The local list after a successful update: the edited row is replaced by the
      returned row, every other row stays in place; then the form closes. The error
      was cleared when the submission started. */
  function ApplyUpdated(page: Page, returned: Chapter): (r: Page)
    ensures |r.chapters| == |page.chapters|
    ensures forall i :: 0 <= i < |r.chapters| ==>
      r.chapters[i] == (if page.editingId == Some(page.chapters[i].id) then returned else page.chapters[i])
    ensures r.form == EmptyForm && r.pdf.None? && !r.isAdding && !r.isEditing && r.editingId.None?
    ensures r.success == UpdatedMessage && r.error == ""
  {
    var id := page.editingId;
    Closed(page).(
      chapters := MapWhere(page.chapters, (c: Chapter) => id == Some(c.id), (_: Chapter) => returned),
      editingId := None,
      error := "",
      success := UpdatedMessage)
  }

  /** An update keeps every row's id in place when the returned row is the edited one,
      and changes nothing when no row has the edited id. */
  lemma ApplyUpdatedKeepsIds(page: Page, returned: Chapter)
    ensures page.editingId == Some(returned.id) ==>
      forall i :: 0 <= i < |page.chapters| ==> ApplyUpdated(page, returned).chapters[i].id == page.chapters[i].id
    ensures (forall i :: 0 <= i < |page.chapters| ==> page.editingId != Some(page.chapters[i].id)) ==>
      ApplyUpdated(page, returned).chapters == page.chapters
  {
    var r := ApplyUpdated(page, returned);
    if forall i :: 0 <= i < |page.chapters| ==> page.editingId != Some(page.chapters[i].id) {
      assert forall i :: 0 <= i < |page.chapters| ==> r.chapters[i] == page.chapters[i];
    }
  }

  /** A create is followed by a reload of the list from the database, not a local
      change. The error was cleared when the submission started. */
  function ApplyCreated(page: Page): (r: Page)
    ensures r.chapters == page.chapters
    ensures r.form == EmptyForm && r.pdf.None? && !r.isAdding && r.success == AddedMessage && r.error == ""
  {
    Closed(page).(isEditing := page.isEditing, error := "", success := AddedMessage)
  }

  /** A remote step of an update threw: the catch shows the generic message, whatever
      was thrown. The form stays open with its contents. */
  function ApplyUpdateFailed(page: Page): (r: Page)
    ensures r.error == UpdateFailedMessage && r.success == ""
    ensures r.chapters == page.chapters && r.form == page.form && r.pdf == page.pdf && r.isEditing == page.isEditing
  {
    page.(error := UpdateFailedMessage, success := "")
  }

  /** A remote step of a create threw: its message is shown, or the default when it
      is empty, so the error is never empty. The form stays open with its contents. */
  function ApplyCreateFailed(page: Page, message: string): (r: Page)
    ensures r.error != "" && r.success == ""
    ensures r.error == (if message != "" then message else AddFailedMessage)
    ensures r.chapters == page.chapters && r.form == page.form && r.pdf == page.pdf && r.isAdding == page.isAdding
  {
    page.(error := if message == "" then AddFailedMessage else message, success := "")
  }

  /** What the remote writes of a submission came back with: the row an update
      returned (a create reloads the list instead), or the message of the first step
      that threw. */
  datatype WriteOutcome = Written(returned: Chapter) | WriteFailed(message: string)

  /** The submit button: `handleSubmit`, which hands an edit to `updateChapter`. Both
      clear the error and the success message first; the plan decides whether a remote
      write is issued and `outcome` is how it ended. */
  function Submit(page: Page, now: nat, pathnameOf: string -> Option<string>, outcome: WriteOutcome): (r: (Page, Option<ChapterRequest>))
    ensures r.1.Some? <==> PlanSubmit(page, now, pathnameOf).Success?
    ensures r.1.Some? ==> r.1 == Some(PlanSubmit(page, now, pathnameOf).value)
    ensures r.1.None? ==>
      r.0 == page.(error := PlanSubmit(page, now, pathnameOf).error, success := "") && r.0.error != ""
    ensures r.1.Some? && outcome.Written? ==>
      r.0.error == "" && r.0.success != "" && r.0.form == EmptyForm && r.0.pdf.None? && !r.0.isAdding
    ensures r.1.Some? && outcome.Written? && r.1.value.UpdateChapter? ==> r.0 == ApplyUpdated(page, outcome.returned)
    ensures r.1.Some? && outcome.WriteFailed? ==>
      r.0.success == "" && r.0.error != "" && r.0.chapters == page.chapters && r.0.form == page.form
  {
    var cleared := page.(error := "", success := "");
    match PlanSubmit(cleared, now, pathnameOf)
    case Failure(message) => (cleared.(error := message), None)
    case Success(request) =>
      var after := match outcome
        case Written(returned) =>
          if request.UpdateChapter? then ApplyUpdated(cleared, returned) else ApplyCreated(cleared)
        case WriteFailed(message) =>
          if request.UpdateChapter? then ApplyUpdateFailed(cleared) else ApplyCreateFailed(cleared, message);
      (after, Some(request))
  }

  /** The storage keys `handleDeleteChapter` tries to remove before deleting the row:
      none when the chapter is unknown, has no truthy attachment URL, or the URL does
      not parse; otherwise the Method 1 / Method 2 / last-segment chain. */
  function AttachmentRemovals(page: Page, id: string, pathnameOf: string -> Option<string>, remove: Remover): (keys: seq<string>)
    ensures |keys| <= 3 && StopsAtSuccess(keys, remove, 0)
    ensures StoredUrl(page.chapters, Some(id)).None? ==> keys == []
    ensures StoredUrl(page.chapters, Some(id)).Some? && pathnameOf(StoredUrl(page.chapters, Some(id)).value).None? ==> keys == []
    ensures StoredUrl(page.chapters, Some(id)).Some? && pathnameOf(StoredUrl(page.chapters, Some(id)).value).Some? ==>
      keys == DeletionAttempts(pathnameOf(StoredUrl(page.chapters, Some(id)).value).value, StoredUrl(page.chapters, Some(id)).value, remove)
  {
    match StoredUrl(page.chapters, Some(id))
    case None => []
    case Some(url) =>
      match pathnameOf(url)
      case None => []
      case Some(path) => DeletionAttempts(path, url, remove)
  }

  /** After the row delete succeeded: exactly the other rows remain, in order. */
  function ApplyDeleted(page: Page, id: string): (r: Page)
    ensures forall c :: c in r.chapters <==> c in page.chapters && c.id != id
    ensures IsSubsequence(r.chapters, page.chapters)
    ensures r.success == DeletedMessage && r.form == page.form
  {
    FilterIsSubsequence(page.chapters, (c: Chapter) => c.id != id);
    page.(chapters := Filter(page.chapters, (c: Chapter) => c.id != id), success := DeletedMessage)
  }

  /** `handleDeleteChapter` once confirmed: the attachment removals, then the row
      delete, whose error (if any) is `deleteError`. The row is deleted whatever became
      of the attachment, and no message is cleared first. */
  function Delete(page: Page, id: string, pathnameOf: string -> Option<string>, remove: Remover,
                  deleteError: Option<string>): (r: (Page, seq<string>))
    ensures r.1 == AttachmentRemovals(page, id, pathnameOf, remove)
    ensures deleteError.None? ==>
      (forall c :: c in r.0.chapters <==> c in page.chapters && c.id != id) &&
      IsSubsequence(r.0.chapters, page.chapters) &&
      r.0.success == DeletedMessage && r.0.error == page.error
    ensures deleteError.Some? ==>
      r.0.chapters == page.chapters && r.0.error == DeleteFailedMessage && r.0.success == page.success
    ensures r.0.form == page.form && r.0.view == page.view && r.0.isEditing == page.isEditing
  {
    var keys := AttachmentRemovals(page, id, pathnameOf, remove);
    if deleteError.None? then (ApplyDeleted(page, id), keys)
    else (page.(error := DeleteFailedMessage), keys)
  }

  /** Deleting a chapter whose attachment was uploaded by this page tries its key first. */
  lemma DeleteTriesUploadedKeyFirst(page: Page, id: string, now: nat, filename: string,
                                    pathnameOf: string -> Option<string>, remove: Remover)
    requires IsUrlPathSafe(Extension(filename))
    requires StoredUrl(page.chapters, Some(id)).Some?
    requires pathnameOf(StoredUrl(page.chapters, Some(id)).value) == Some(PublicPath("chapters", ChapterUploadKey(now, filename)))
    ensures var keys := AttachmentRemovals(page, id, pathnameOf, remove);
            |keys| > 0 && keys[0] == ChapterUploadKey(now, filename)
  {
    ChapterKeyRoundTrip(now, filename);
    var key := ChapterUploadKey(now, filename);
    assert key != "" by {
      assert |NatToString(now)| > 0;
    }
  }
}
