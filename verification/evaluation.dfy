/**
 * `src/academic/evaluation.py` once the page is fetched: the course-evaluation records of every
 * table on the page, and their text listing.
 */
module Evaluation {
  import opened Strings
  import opened OrderedDict
  import TableRecords

  const NoCourses: String := "📊 暂无可评价课程"
  const CourseLabels: TableRecords.Labels := TableRecords.Labels(NoCourses, "📊 课程评价", "📚 课程")

  /** `get_evaluation_list` on the tables' cell texts: every record is non-empty and has one
      entry per distinct header. */
  function GetEvaluationList(tables: seq<TableRecords.Table>): (r: seq<Dict>)
    ensures forall i :: 0 <= i < |r| ==> r[i] != [] && KeysDistinct(r[i])
  {
    TableRecords.Records(tables)
  }

  /** `format_evaluation_list`: the no-course text exactly for an empty list, otherwise the
      titled listing with one numbered block per course. */
  function FormatEvaluationList(courses: seq<Dict>): (r: String)
    ensures courses == [] <==> r == NoCourses
  {
    assert CourseLabels.title[2] != CourseLabels.none[2];
    TableRecords.Format(CourseLabels, courses)
  }
}
