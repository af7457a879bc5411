/** The rows the pages hold in memory, as the remote tables return them. Joined
    parent columns the pages read are flattened into optional fields. */
module Records {
  import opened Wrappers

  datatype Exam = Exam(id: string, name: string)

  datatype Subject = Subject(id: string, name: string, examId: string)

  /** A chapter row; `parentExamId` is the joined `subjects.exam_id`, absent when
      the join returned no subject. */
  datatype Chapter = Chapter(
    id: string,
    name: string,
    description: Option<string>,
    order: Option<int>,
    subjectId: string,
    pdfUrl: Option<string>,
    parentExamId: Option<string>)

  /** A book row, with the same joined parent exam as a chapter. */
  datatype Book = Book(
    id: string,
    title: string,
    author: string,
    link: Option<string>,
    pdfUrl: Option<string>,
    subjectId: string,
    parentExamId: Option<string>)

  datatype Prompt = Prompt(id: string, title: string, content: string, createdAt: string, updatedAt: string)
}
