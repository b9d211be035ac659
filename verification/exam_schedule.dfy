/**
 * `src/academic/exam_schedule.py` once the page is fetched: the exam records of every table
 * on the page, and their text listing.
 */
module ExamSchedule {
  import opened Strings
  import opened OrderedDict
  import TableRecords

  const NoExams: String := "📅 暂无考试安排"
  const ExamLabels: TableRecords.Labels := TableRecords.Labels(NoExams, "📅 考试安排", "📝 考试")

  /** `get_exam_schedule` on the tables' cell texts: every record is non-empty and has one
      entry per distinct header. */
  function GetExamSchedule(tables: seq<TableRecords.Table>): (r: seq<Dict>)
    ensures forall i :: 0 <= i < |r| ==> r[i] != [] && KeysDistinct(r[i])
  {
    TableRecords.Records(tables)
  }

  /** `format_exam_schedule`: the no-exam text exactly for an empty list, otherwise the
      titled listing with one numbered block per exam. */
  function FormatExamSchedule(exams: seq<Dict>): (r: String)
    ensures exams == [] <==> r == NoExams
  {
    assert ExamLabels.title[2] != ExamLabels.none[2];
    TableRecords.Format(ExamLabels, exams)
  }
}
