/** The books page: list filters, the add form, its validation and the storage key
    of the attached PDF. */
module BooksPage {
  import opened Wrappers
  import opened Seqs
  import opened Records
  import opened Attachments
  import Cascade
  import Forms

  const RequiredMessage: string := "Title, Author, Exam and Subject are required"
  const AddFailedMessage: string := "Failed to add book"
  const AddedMessage: string := "Book added successfully!"

  const TitleField: string := "title"
  const AuthorField: string := "author"
  const LinkField: string := "link"

  /** The empty form (`{ title: '', author: '', link: '', subject_id: '', exam_id: '' }`). */
  const EmptyForm: Forms.Form :=
    map[TitleField := "", AuthorField := "", LinkField := "", Forms.SubjectField := "", Forms.ExamField := ""]

  datatype Page = Page(
    books: seq<Book>,
    subjects: seq<Subject>,
    view: Cascade.ViewSelection,
    form: Forms.Form,
    pdf: Option<FileInfo>,
    isAdding: bool,
    error: string,
    success: string)

  /** `filteredBooks`: subject filter, else exam filter on the joined exam, else all. */
  function VisibleBooks(page: Page): seq<Book> {
    Cascade.RowsInView(page.books, page.view, (b: Book) => b.subjectId, (b: Book) => b.parentExamId)
  }

  /** A selected subject filter shows exactly that subject's books, in list order;
      otherwise a selected exam shows the books whose joined exam is that exam. */
  lemma VisibleBooksExactly(page: Page)
    ensures page.view.subject != "" ==>
      forall b :: b in VisibleBooks(page) <==> b in page.books && b.subjectId == page.view.subject
    ensures page.view.subject == "" && page.view.exam != "" ==>
      forall b :: b in VisibleBooks(page) <==> b in page.books && b.parentExamId == Some(page.view.exam)
    ensures page.view.subject == "" && page.view.exam == "" ==> VisibleBooks(page) == page.books
    ensures IsSubsequence(VisibleBooks(page), page.books)
  {
    Cascade.ViewPrecedence(page.books, page.view, (b: Book) => b.subjectId, (b: Book) => b.parentExamId);
    FilterIsSubsequence(page.books, Cascade.InViewOf(page.view, (b: Book) => b.subjectId, (b: Book) => b.parentExamId));
  }

  /** The exam filter select: sets the exam and puts the subject filter back to "All". */
  function FilterByExam(page: Page, exam: string): (r: Page)
    ensures r.view == Cascade.ViewSelection(exam, "") && r.books == page.books
    ensures exam != "" ==> forall b :: b in VisibleBooks(r) <==> b in page.books && b.parentExamId == Some(exam)
    ensures exam == "" ==> VisibleBooks(r) == page.books
  {
    var r := page.(view := Cascade.ChooseExam(page.subjects, exam));
    VisibleBooksExactly(r);
    r
  }

  /** The subject filter select (enabled even with "All Exams"), followed by the reset effect. */
  function FilterBySubject(page: Page, subject: string): (r: Page)
    ensures r.view.exam == page.view.exam && Cascade.Consistent(page.subjects, r.view)
    ensures r.view.subject == subject <==> Cascade.Consistent(page.subjects, page.view.(subject := subject))
    ensures r.view.subject != subject ==> r.view.subject == ""
    ensures page.view.exam == "" ==> r.view.subject == subject
  {
    page.(view := Cascade.ChooseSubject(page.subjects, page.view, subject))
  }

  /** `handleInputChange`. */
  function InputChange(page: Page, name: string, value: string): (r: Page)
    ensures Forms.Field(r.form, name) == value
    ensures name == Forms.ExamField ==> Forms.Field(r.form, Forms.SubjectField) == ""
    ensures forall k :: k != name && !(name == Forms.ExamField && k == Forms.SubjectField) ==>
      Forms.Field(r.form, k) == Forms.Field(page.form, k)
  {
    page.(form := Forms.InputChange(page.form, name, value))
  }

  /** `getFormSubjects`. */
  function FormSubjects(page: Page): seq<Subject> {
    Forms.FormSubjects(page.subjects, page.form)
  }

  /** `handleFileChange`: a PDF becomes the pending file; anything else clears it and sets the error. */
  function FileChange(page: Page, picked: Option<FileInfo>): (r: Page)
    ensures r.pdf.Some? <==> picked.Some? && picked.value.mimeType == PdfMimeType
    ensures r.pdf.Some? ==> r.pdf == picked && r.error == page.error
    ensures r.pdf.None? ==> r.error == NotPdfMessage
  {
    var (file, err) := AcceptFile(picked);
    page.(pdf := file, error := err.GetOr(page.error))
  }

  /** The insert: `link` is `null` when empty; the PDF key, if any, is the upload key
      of the file's name as given. */
  datatype BookInsert = BookInsert(title: string, author: string, link: Option<string>, subjectId: string, uploadKey: Option<string>)

  predicate FormIsValid(form: Forms.Form) {
    Forms.Field(form, TitleField) != "" && Forms.Field(form, AuthorField) != "" &&
    Forms.Field(form, Forms.SubjectField) != "" && Forms.Field(form, Forms.ExamField) != ""
  }

  /** `handleSubmit` up to the remote calls; `now` is `Date.now()`. Nothing is
      inserted unless title, author, subject and exam are all filled in. */
  function PlanSubmit(page: Page, now: nat): (r: Result<BookInsert, string>)
    ensures r.Failure? <==> !FormIsValid(page.form)
    ensures r.Failure? ==> r.error == RequiredMessage
    ensures r.Success? ==>
      r.value.title == Forms.Field(page.form, TitleField) &&
      r.value.author == Forms.Field(page.form, AuthorField) &&
      r.value.subjectId == Forms.Field(page.form, Forms.SubjectField)
    ensures r.Success? ==> (r.value.link.None? <==> Forms.Field(page.form, LinkField) == "")
    ensures r.Success? && r.value.link.Some? ==> r.value.link.value == Forms.Field(page.form, LinkField)
    ensures r.Success? ==> (r.value.uploadKey.Some? <==> page.pdf.Some?)
    ensures r.Success? && page.pdf.Some? ==> r.value.uploadKey == Some(BookUploadKey(now, page.pdf.value.name))
  {
    if !FormIsValid(page.form) then Failure(RequiredMessage)
    else
      var link := Forms.Field(page.form, LinkField);
      Success(BookInsert(
        Forms.Field(page.form, TitleField),
        Forms.Field(page.form, AuthorField),
        if link != "" then Some(link) else None,
        Forms.Field(page.form, Forms.SubjectField),
        if page.pdf.Some? then Some(BookUploadKey(now, page.pdf.value.name)) else None))
  }

  /** Only a file that passed the picker is uploaded: after a file change, a planned
      insert carries an upload key exactly when the picked file is a PDF. */
  lemma OnlyPdfIsUploaded(page: Page, picked: Option<FileInfo>, now: nat)
    requires FormIsValid(page.form)
    ensures PlanSubmit(FileChange(page, picked), now).value.uploadKey.Some? <==>
            picked.Some? && picked.value.mimeType == PdfMimeType
  {
  }

  /** The key of a book upload carries the file name unchanged: decoding it gives back
      the timestamp and the name as picked (a chapter key carries the sanitised name). */
  lemma BookKeyKeepsName(page: Page, now: nat)
    requires PlanSubmit(page, now).Success? && page.pdf.Some?
    ensures DecodeUploadKey(PlanSubmit(page, now).value.uploadKey.value) == Some((now, page.pdf.value.name))
  {
    UploadKeyRoundTrip(now, page.pdf.value.name);
  }

  /** After a successful create: success message, empty closed form, no pending file;
      the list itself is reloaded from the database. */
  function ApplyCreated(page: Page): (r: Page)
    ensures r.books == page.books && r.form == EmptyForm && r.pdf.None? && !r.isAdding && r.success == AddedMessage
    ensures r.error == page.error
  {
    page.(success := AddedMessage, form := EmptyForm, pdf := None, isAdding := false)
  }

  /** The error shown when validation or a remote step fails: the thrown message, or the generic one. */
  function ApplySubmitFailed(page: Page, message: string): (r: Page)
    ensures r.books == page.books && r.form == page.form && r.pdf == page.pdf && r.isAdding == page.isAdding
    ensures r.error != ""
    ensures r.error == (if message != "" then message else AddFailedMessage)
  {
    page.(error := if message == "" then AddFailedMessage else message)
  }

  /** The submit handler end to end: messages cleared, then the insert or the validation error. */
  function Submit(page: Page, now: nat): (r: (Page, Option<BookInsert>))
    ensures !FormIsValid(page.form) ==> r.1.None? && r.0.error == RequiredMessage && r.0.form == page.form
    ensures FormIsValid(page.form) ==> r.1 == Some(PlanSubmit(page, now).value) && r.0.error == ""
  {
    var cleared := page.(error := "", success := "");
    match PlanSubmit(page, now)
    case Failure(msg) => (ApplySubmitFailed(cleared, msg), None)
    case Success(insert) => (cleared, Some(insert))
  }
}
