/** The cascading exam -> subject -> chapter filters of the pages. Two modes:
    loose (an empty id means "All", used by the list filters of the chapters and
    books pages) and strict (no parent means no children, used by the add forms
    and the questions page). */
module Cascade {
  import opened Wrappers
  import opened Seqs
  import opened Records

  /** The subjects of exam `exam`, in their original order. */
  function SubjectsOfExam(subjects: seq<Subject>, exam: string): seq<Subject> {
    Filter(subjects, (s: Subject) => s.examId == exam)
  }

  /** The chapters of subject `subject`, in their original order. */
  function ChaptersOfSubject(chapters: seq<Chapter>, subject: string): seq<Chapter> {
    Filter(chapters, (c: Chapter) => c.subjectId == subject)
  }

  /** Loose mode: no exam selected lists every subject. */
  function LooseSubjects(subjects: seq<Subject>, exam: string): seq<Subject> {
    if exam == "" then subjects else SubjectsOfExam(subjects, exam)
  }

  /** Strict mode: no exam selected lists no subject. */
  function StrictSubjects(subjects: seq<Subject>, exam: string): seq<Subject> {
    if exam == "" then [] else SubjectsOfExam(subjects, exam)
  }

  /** Strict mode one tier down: no subject selected lists no chapter. */
  function StrictChapters(chapters: seq<Chapter>, subject: string): seq<Chapter> {
    if subject == "" then [] else ChaptersOfSubject(chapters, subject)
  }

  /** The subject options are exactly the subjects of the selected exam, in order;
      loose mode shows all of them when no exam is selected, strict mode none. */
  lemma SubjectOptionsExactly(subjects: seq<Subject>, exam: string)
    ensures exam == "" ==> LooseSubjects(subjects, exam) == subjects && StrictSubjects(subjects, exam) == []
    ensures exam != "" ==> LooseSubjects(subjects, exam) == StrictSubjects(subjects, exam)
    ensures exam != "" ==> forall s :: s in StrictSubjects(subjects, exam) <==> s in subjects && s.examId == exam
    ensures IsSubsequence(LooseSubjects(subjects, exam), subjects)
    ensures IsSubsequence(StrictSubjects(subjects, exam), subjects)
  {
    FilterIsSubsequence(subjects, (s: Subject) => s.examId == exam);
    SubsequenceReflexive(subjects);
  }

  lemma {:induction false} SubsequenceReflexive<T>(s: seq<T>)
    ensures IsSubsequence(s, s)
    ensures IsSubsequence([], s)
  {
    if |s| > 0 {
      SubsequenceReflexive(s[1..]);
    }
  }

  // ---------------------------------------------------------------------------
  // Loose list filters (chapters and books pages)
  // ---------------------------------------------------------------------------

  /** The "Filter by Exam" / "Filter by Subject" selection of a list page. */
  datatype ViewSelection = ViewSelection(exam: string, subject: string)

  /** Some subject has id `id` and belongs to exam `exam`. */
  predicate SubjectUnderExam(subjects: seq<Subject>, id: string, exam: string) {
    exists i :: 0 <= i < |subjects| && subjects[i].id == id && subjects[i].examId == exam
  }

  /** What the reset effect maintains: a selected subject belongs to the selected exam. */
  predicate Consistent(subjects: seq<Subject>, sel: ViewSelection) {
    sel.exam == "" || sel.subject == "" || SubjectUnderExam(subjects, sel.subject, sel.exam)
  }

  /** The reset effect: the subject is cleared only when an exam and a subject are
      both selected and no subject has that id under that exam. */
  function Reconcile(subjects: seq<Subject>, sel: ViewSelection): (r: ViewSelection)
    ensures r.exam == sel.exam
    ensures r.subject == sel.subject || r.subject == ""
    ensures Consistent(subjects, r)
    ensures Consistent(subjects, sel) ==> r == sel
  {
    if sel.exam != "" && sel.subject != "" && !SubjectUnderExam(subjects, sel.subject, sel.exam)
    then sel.(subject := "")
    else sel
  }

  /** Reconciling twice changes nothing more. */
  lemma ReconcileIdempotent(subjects: seq<Subject>, sel: ViewSelection)
    ensures Reconcile(subjects, Reconcile(subjects, sel)) == Reconcile(subjects, sel)
  {
  }

  /** A consistent selection names a subject that is among the subject options shown. */
  lemma ConsistentSubjectIsListed(subjects: seq<Subject>, sel: ViewSelection)
    requires Consistent(subjects, sel) && sel.exam != "" && sel.subject != ""
    ensures exists s :: s in LooseSubjects(subjects, sel.exam) && s.id == sel.subject
  {
    var i :| 0 <= i < |subjects| && subjects[i].id == sel.subject && subjects[i].examId == sel.exam;
    assert subjects[i] in LooseSubjects(subjects, sel.exam);
  }

  /** "Filter by Exam" change: the subject filter is set back to "All", so the
      selection is consistent at once and the reset effect has nothing to do. */
  function ChooseExam(subjects: seq<Subject>, exam: string): (r: ViewSelection)
    ensures r.exam == exam && r.subject == ""
    ensures Consistent(subjects, r) && Reconcile(subjects, r) == r
  {
    Reconcile(subjects, ViewSelection(exam, ""))
  }

  /** "Filter by Subject" change, followed by the reset effect. */
  function ChooseSubject(subjects: seq<Subject>, sel: ViewSelection, subject: string): (r: ViewSelection)
    ensures r.exam == sel.exam
    ensures Consistent(subjects, r)
    ensures r.subject == subject <==> Consistent(subjects, sel.(subject := subject))
  {
    Reconcile(subjects, sel.(subject := subject))
  }

  /** Whether a row with subject `subjectId` and joined exam `parentExam` is listed:
      a selected subject wins, then a selected exam, then everything. */
  predicate InView(sel: ViewSelection, subjectId: string, parentExam: Option<string>) {
    if sel.subject != "" then subjectId == sel.subject
    else if sel.exam != "" then parentExam == Some(sel.exam)
    else true
  }

  /** `rows.filter(...)` of the list pages, for any row type with a subject and a joined exam. */
  function RowsInView<T>(rows: seq<T>, sel: ViewSelection, subjectOf: T -> string, examOf: T -> Option<string>): seq<T> {
    Filter(rows, InViewOf(sel, subjectOf, examOf))
  }

  function InViewOf<T>(sel: ViewSelection, subjectOf: T -> string, examOf: T -> Option<string>): T -> bool {
    (x: T) => InView(sel, subjectOf(x), examOf(x))
  }

  /** The precedence of the list filters: subject over exam over all. */
  lemma ViewPrecedence<T>(rows: seq<T>, sel: ViewSelection, subjectOf: T -> string, examOf: T -> Option<string>)
    ensures sel.subject != "" ==>
      RowsInView(rows, sel, subjectOf, examOf) == Filter(rows, (x: T) => subjectOf(x) == sel.subject)
    ensures sel.subject == "" && sel.exam != "" ==>
      RowsInView(rows, sel, subjectOf, examOf) == Filter(rows, (x: T) => examOf(x) == Some(sel.exam))
    ensures sel.subject == "" && sel.exam == "" ==>
      RowsInView(rows, sel, subjectOf, examOf) == rows
  {
    var p := InViewOf(sel, subjectOf, examOf);
    if sel.subject != "" {
      FilterCongruent(rows, p, (x: T) => subjectOf(x) == sel.subject);
    } else if sel.exam != "" {
      FilterCongruent(rows, p, (x: T) => examOf(x) == Some(sel.exam));
    } else {
      FilterAll(rows, p);
    }
  }

  /** Every row's joined exam is the exam of the subject it names. */
  ghost predicate JoinedConsistently<T>(rows: seq<T>, subjects: seq<Subject>, subjectOf: T -> string, examOf: T -> Option<string>) {
    forall i, j :: 0 <= i < |rows| && 0 <= j < |subjects| && subjects[j].id == subjectOf(rows[i]) ==>
      examOf(rows[i]) == Some(subjects[j].examId)
  }

  /** Selecting a subject of the selected exam narrows the exam's list: the rows of
      the subject are a sub-list of the rows of the exam. */
  lemma SubjectViewNarrowsExamView<T>(rows: seq<T>, subjects: seq<Subject>, sel: ViewSelection,
                                      subjectOf: T -> string, examOf: T -> Option<string>)
    requires JoinedConsistently(rows, subjects, subjectOf, examOf)
    requires sel.exam != "" && sel.subject != "" && Consistent(subjects, sel)
    ensures IsSubsequence(RowsInView(rows, sel, subjectOf, examOf), RowsInView(rows, sel.(subject := ""), subjectOf, examOf))
  {
    var j :| 0 <= j < |subjects| && subjects[j].id == sel.subject && subjects[j].examId == sel.exam;
    var p := InViewOf(sel, subjectOf, examOf);
    var q := InViewOf(sel.(subject := ""), subjectOf, examOf);
    forall i | 0 <= i < |rows| && p(rows[i]) ensures q(rows[i]) {
      assert subjectOf(rows[i]) == sel.subject;
      assert examOf(rows[i]) == Some(subjects[j].examId);
    }
    FilterNarrows(rows, p, q);
  }

  // ---------------------------------------------------------------------------
  // Strict cascade (questions page, both tabs)
  // ---------------------------------------------------------------------------

  /** Selections and the option lists derived from them. */
  datatype StrictCascade = StrictCascade(
    exam: string,
    subject: string,
    chapter: string,
    subjectOptions: seq<Subject>,
    chapterOptions: seq<Chapter>)

  /** The option lists are the ones the current selections derive. */
  predicate Settled(subjects: seq<Subject>, chapters: seq<Chapter>, c: StrictCascade) {
    c.subjectOptions == StrictSubjects(subjects, c.exam) &&
    c.chapterOptions == StrictChapters(chapters, c.subject)
  }

  /** The state on mount, before anything is selected. */
  function InitialCascade(): (c: StrictCascade)
    ensures forall subjects, chapters :: Settled(subjects, chapters, c)
  {
    StrictCascade("", "", "", [], [])
  }

  /** The effects after the reference lists are (re)loaded: both option lists are
      recomputed and the subject and chapter selections are cleared. */
  function LoadReference(subjects: seq<Subject>, chapters: seq<Chapter>, c: StrictCascade): (r: StrictCascade)
    ensures Settled(subjects, chapters, r)
    ensures r.exam == c.exam && r.subject == "" && r.chapter == ""
  {
    StrictCascade(c.exam, "", "", StrictSubjects(subjects, c.exam), [])
  }

  /** Exam select change. The exam effect recomputes the subjects and clears the
      subject and chapter; the subject effect then runs only if the subject changed.
      Re-selecting the same exam triggers no effect. */
  function SelectExam(subjects: seq<Subject>, chapters: seq<Chapter>, c: StrictCascade, exam: string): (r: StrictCascade)
    ensures r.exam == exam
    ensures exam != c.exam ==> r.subject == "" && r.chapter == ""
    ensures exam != c.exam ==> r.subjectOptions == StrictSubjects(subjects, exam)
    ensures exam == c.exam ==> r == c
  {
    if exam == c.exam then c
    else
      var chapterOptions := if c.subject != "" then StrictChapters(chapters, "") else c.chapterOptions;
      StrictCascade(exam, "", "", StrictSubjects(subjects, exam), chapterOptions)
  }

  /** Subject select change: the chapters are recomputed and the chapter cleared. */
  function SelectSubject(chapters: seq<Chapter>, c: StrictCascade, subject: string): (r: StrictCascade)
    ensures r.exam == c.exam && r.subject == subject && r.subjectOptions == c.subjectOptions
    ensures subject != c.subject ==> r.chapter == "" && r.chapterOptions == StrictChapters(chapters, subject)
    ensures subject == c.subject ==> r == c
  {
    if subject == c.subject then c
    else c.(subject := subject, chapter := "", chapterOptions := StrictChapters(chapters, subject))
  }

  /** Chapter select change: no effect on the other tiers. */
  function SelectChapter(c: StrictCascade, chapter: string): (r: StrictCascade)
    ensures r.chapter == chapter
    ensures r.exam == c.exam && r.subject == c.subject
    ensures r.subjectOptions == c.subjectOptions && r.chapterOptions == c.chapterOptions
  {
    c.(chapter := chapter)
  }

  /** Every transition keeps the option lists derived from the selections; after an
      exam change there are no chapter options left. */
  lemma TransitionsKeepSettled(subjects: seq<Subject>, chapters: seq<Chapter>, c: StrictCascade, exam: string, subject: string, chapter: string)
    requires Settled(subjects, chapters, c)
    ensures Settled(subjects, chapters, SelectExam(subjects, chapters, c, exam))
    ensures exam != c.exam ==> SelectExam(subjects, chapters, c, exam).chapterOptions == []
    ensures Settled(subjects, chapters, SelectSubject(chapters, c, subject))
    ensures Settled(subjects, chapters, SelectChapter(c, chapter))
  {
  }

  /** A strict option list only offers subjects of the selected exam. */
  lemma StrictOptionsBelongToExam(subjects: seq<Subject>, chapters: seq<Chapter>, c: StrictCascade)
    requires Settled(subjects, chapters, c)
    ensures forall s :: s in c.subjectOptions ==> s in subjects && s.examId == c.exam && c.exam != ""
    ensures forall ch :: ch in c.chapterOptions ==> ch in chapters && ch.subjectId == c.subject && c.subject != ""
  {
  }

  /** The single filter the preview query applies. */
  datatype QuestionFilter = NoFilter | ByExam(exam: string) | BySubject(subject: string) | ByChapter(chapter: string)

  /** Preview query filter: chapter, then subject, then exam, then none. */
  function PreviewFilter(c: StrictCascade): (f: QuestionFilter)
    ensures f.ByChapter? <==> c.chapter != ""
    ensures f.BySubject? <==> c.chapter == "" && c.subject != ""
    ensures f.ByExam? <==> c.chapter == "" && c.subject == "" && c.exam != ""
    ensures f.NoFilter? <==> c.chapter == "" && c.subject == "" && c.exam == ""
    ensures f.ByChapter? ==> f.chapter == c.chapter
    ensures f.BySubject? ==> f.subject == c.subject
    ensures f.ByExam? ==> f.exam == c.exam
  {
    if c.chapter != "" then ByChapter(c.chapter)
    else if c.subject != "" then BySubject(c.subject)
    else if c.exam != "" then ByExam(c.exam)
    else NoFilter
  }

  /** After an exam change the preview query filters by that exam alone (or not at all). */
  lemma PreviewAfterExamChange(subjects: seq<Subject>, chapters: seq<Chapter>, c: StrictCascade, exam: string)
    requires exam != c.exam
    ensures PreviewFilter(SelectExam(subjects, chapters, c, exam)) == (if exam == "" then NoFilter else ByExam(exam))
  {
  }
}
