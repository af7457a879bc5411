/** The add/edit forms of the chapters and books pages. `handleInputChange`
    updates the field named by the input, so a form is a map from field name to
    text; a field never set reads as empty. */
module Forms {
  import opened Seqs
  import opened Records
  import Cascade

  type Form = map<string, string>

  const ExamField: string := "exam_id"
  const SubjectField: string := "subject_id"

  /** The text of a field (`""` when unset). */
  function Field(form: Form, name: string): string {
    if name in form then form[name] else ""
  }

  /** `handleInputChange`: set the named field; a change of the exam also clears the subject. */
  function InputChange(form: Form, name: string, value: string): (r: Form)
    ensures Field(r, name) == value
    ensures name == ExamField ==> Field(r, SubjectField) == ""
    ensures forall k :: k != name && !(name == ExamField && k == SubjectField) ==> Field(r, k) == Field(form, k)
  {
    if name == ExamField then form[name := value][SubjectField := ""] else form[name := value]
  }

  /** `getFormSubjects`: nothing before an exam is chosen, then that exam's subjects. */
  function FormSubjects(subjects: seq<Subject>, form: Form): seq<Subject> {
    Cascade.StrictSubjects(subjects, Field(form, ExamField))
  }

  /** The form's subject is empty or one of the subjects offered for its exam. */
  predicate FormConsistent(subjects: seq<Subject>, form: Form) {
    Field(form, SubjectField) == "" ||
    exists i :: 0 <= i < |FormSubjects(subjects, form)| && FormSubjects(subjects, form)[i].id == Field(form, SubjectField)
  }

  /** A form never ends up holding a subject of another exam: every change keeps it
      consistent, as long as a subject is chosen among the offered ones. */
  lemma InputChangeKeepsConsistent(subjects: seq<Subject>, form: Form, name: string, value: string)
    requires FormConsistent(subjects, form)
    requires name == SubjectField ==> value == "" || exists s :: s in FormSubjects(subjects, form) && s.id == value
    ensures FormConsistent(subjects, InputChange(form, name, value))
  {
    var r := InputChange(form, name, value);
    if name != ExamField {
      assert Field(r, ExamField) == Field(form, ExamField);
      assert FormSubjects(subjects, r) == FormSubjects(subjects, form);
    }
  }

  /** Every subject offered in the form belongs to the form's exam. */
  lemma FormSubjectsBelongToExam(subjects: seq<Subject>, form: Form)
    ensures Field(form, ExamField) == "" ==> FormSubjects(subjects, form) == []
    ensures forall s :: s in FormSubjects(subjects, form) <==> Field(form, ExamField) != "" && s in subjects && s.examId == Field(form, ExamField)
  {
  }
}
