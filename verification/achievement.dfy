/**
 * The grade-list decoder of `src/academic/achievement.py`: the page text loses its line
 * breaks and tabs, the table rows after the two header rows are cleaned by a fixed list of
 * replacements, cut at `<td>`, and every row with at least 16 fields becomes one grade
 * record, its fields taken by position.
 */
module Achievement {
  import opened Wrappers
  import opened Strings

  // ---------------------------------------------------------------------------------------
  // Page and row clean-up
  // ---------------------------------------------------------------------------------------

  predicate IsLayout(c: char) {
    c == '\r' || c == '\n' || c == '\t'
  }

  /** The text with its carriage returns, line feeds and tabs left out, in one pass. */
  function KeepText(s: String): (r: String)
    ensures forall i :: 0 <= i < |r| ==> !IsLayout(r[i])
    ensures |r| <= |s|
  {
    if s == [] then []
    else (if IsLayout(s[0]) then [] else [s[0]]) + KeepText(s[1..])
  }

  /** `_clean_html_content`: `\r`, then `\n`, then `\t` substituted by nothing. */
  function CleanHtmlContent(content: String): String {
    Replace(Replace(Replace(content, "\r", ""), "\n", ""), "\t", "")
  }

  /** The three substitutions delete exactly the line breaks and tabs and keep every other
      character, in order. */
  lemma CleanHtmlKeepsText(content: String)
    ensures CleanHtmlContent(content) == KeepText(content)
  {
    ReplaceCharIsRemoval(content, '\r');
    ReplaceCharIsRemoval(RemoveAll(content, '\r'), '\n');
    ReplaceCharIsRemoval(RemoveAll(RemoveAll(content, '\r'), '\n'), '\t');
    RemoveLayoutIsKeepText(content);
  }

  lemma {:induction false} RemoveLayoutIsKeepText(s: String)
    ensures RemoveAll(RemoveAll(RemoveAll(s, '\r'), '\n'), '\t') == KeepText(s)
    decreases |s|
  {
    if s != [] {
      var h := [s[0]];
      assert s == h + s[1..];
      RemoveAllAppend(h, s[1..], '\r');
      RemoveAllAppend(RemoveAll(h, '\r'), RemoveAll(s[1..], '\r'), '\n');
      RemoveAllAppend(RemoveAll(RemoveAll(h, '\r'), '\n'), RemoveAll(RemoveAll(s[1..], '\r'), '\n'), '\t');
      RemoveLayoutIsKeepText(s[1..]);
      assert RemoveAll(RemoveAll(RemoveAll(h, '\r'), '\n'), '\t') == if IsLayout(s[0]) then [] else h;
    }
  }

  /** `_extract_table_rows` after the row search: the two header rows dropped when there are
      at least two rows; fewer rows come back as they are. */
  function ExtractTableRows(rows: seq<String>): (r: seq<String>)
    ensures |rows| >= 2 ==> |r| == |rows| - 2 && rows == rows[..2] + r
    ensures |rows| < 2 ==> r == rows
  {
    if |rows| >= 2 then rows[2..] else rows
  }

  /** The substitutions of `_clean_row_data`, applied in this order. */
  const Replacements: seq<(String, String)> := [
    ("align=\"left\"", ""),
    (" ", ""),
    ("<tr>", ""),
    ("</tr>", ""),
    ("</td>", ""),
    ("style=\" color:red;\"", ""),
    ("<!-- 由于成绩项目基本不会改动，未做对应变化。 -->", ""),
    ("<!--控制绩点显示-->", ""),
    ("<!--控制成绩显示-->", ""),
    ("<!--技能成绩-->", ""),
    ("<!--平时成绩-->", ""),
    ("<!--卷面成绩-->", ""),
    ("<td style=\" \">", "<td>"),
    ("<tdstyle=\"\">", "<td>"),
    ("<tdstyle=\"color:red;\">", "<td>"),
    ("</a>", "")
  ]

  predicate PatternsNonEmpty(reps: seq<(String, String)>) {
    forall i :: 0 <= i < |reps| ==> |reps[i].0| > 0
  }

  /** `for old, new in reps: row = row.replace(old, new)`. */
  function ApplyAll(row: String, reps: seq<(String, String)>): String
    requires PatternsNonEmpty(reps)
    decreases |reps|
  {
    if reps == [] then row
    else ApplyAll(Replace(row, reps[0].0, reps[0].1), reps[1..])
  }

  /** Every pattern is non-empty, and every replacement is empty or `<td>`. */
  lemma ReplacementsShape()
    ensures PatternsNonEmpty(Replacements)
    ensures forall i :: 0 <= i < |Replacements| ==> Replacements[i].1 == [] || Replacements[i].1 == CellTag
  {
  }

  /** `_clean_row_data`. */
  function CleanRowData(row: String): String {
    ReplacementsShape();
    ApplyAll(row, Replacements)
  }

  /** A character absent from the text and from every replacement stays absent. */
  lemma {:induction false} ApplyAllKeepsAbsent(row: String, reps: seq<(String, String)>, c: char)
    requires PatternsNonEmpty(reps)
    requires c !in row && forall i :: 0 <= i < |reps| ==> c !in reps[i].1
    ensures c !in ApplyAll(row, reps)
    decreases |reps|
  {
    if reps != [] {
      ReplaceKeepsAbsent(row, reps[0].0, reps[0].1, c);
      ApplyAllKeepsAbsent(Replace(row, reps[0].0, reps[0].1), reps[1..], c);
    }
  }

  /** A cleaned row holds no space: the second substitution deletes them all and no later one
      brings one back. */
  lemma CleanRowHasNoSpace(row: String)
    ensures ' ' !in CleanRowData(row)
  {
    ReplacementsShape();
    assert Replacements[1] == (" ", "");
    assert forall i :: 0 <= i < |Replacements| ==> ' ' !in Replacements[i].1 by {
      assert ' ' !in CellTag;
    }
    SpacesRemoved(row, Replacements);
  }

  lemma SpacesRemoved(row: String, reps: seq<(String, String)>)
    requires PatternsNonEmpty(reps) && |reps| >= 2 && reps[1] == (" ", "")
    requires forall i :: 0 <= i < |reps| ==> ' ' !in reps[i].1
    ensures ' ' !in ApplyAll(row, reps)
  {
    var afterFirst := Replace(row, reps[0].0, reps[0].1);
    ReplaceCharIsRemoval(afterFirst, ' ');
    assert reps[1..][1..] == reps[2..];
    ApplyAllKeepsAbsent(Replace(afterFirst, " ", ""), reps[2..], ' ');
  }

  /** A substitution whose pattern holds a character the text lacks changes nothing. */
  lemma ReplaceNeverMatches(s: String, pat: String, rep: String, c: char)
    requires |pat| > 0 && c in pat && c !in s
    ensures Replace(s, pat, rep) == s
  {
  }

  /** The substitutions whose pattern holds no space: the others come after the spaces are
      gone and can never match. */
  function WithoutSpacedPatterns(reps: seq<(String, String)>): (r: seq<(String, String)>)
    ensures forall i :: 0 <= i < |r| ==> r[i] in reps && ' ' !in r[i].0
  {
    if reps == [] then []
    else (if ' ' in reps[0].0 then [] else [reps[0]]) + WithoutSpacedPatterns(reps[1..])
  }

  /** On a text without spaces, dropping the spaced patterns from the list changes
      nothing. */
  lemma {:induction false} SpacedPatternsNeverApply(row: String, reps: seq<(String, String)>)
    requires PatternsNonEmpty(reps) && ' ' !in row
    requires forall i :: 0 <= i < |reps| ==> ' ' !in reps[i].1
    ensures PatternsNonEmpty(WithoutSpacedPatterns(reps))
    ensures ApplyAll(row, reps) == ApplyAll(row, WithoutSpacedPatterns(reps))
    decreases |reps|
  {
    if reps != [] {
      var rest := WithoutSpacedPatterns(reps[1..]);
      if ' ' in reps[0].0 {
        ReplaceNeverMatches(row, reps[0].0, reps[0].1, ' ');
        SpacedPatternsNeverApply(row, reps[1..]);
        assert WithoutSpacedPatterns(reps) == rest;
      } else {
        var next := Replace(row, reps[0].0, reps[0].1);
        ReplaceKeepsAbsent(row, reps[0].0, reps[0].1, ' ');
        SpacedPatternsNeverApply(next, reps[1..]);
        assert WithoutSpacedPatterns(reps) == [reps[0]] + rest;
        assert ([reps[0]] + rest)[1..] == rest;
      }
    }
  }

  /** Of the fourteen substitutions after the space removal, the three whose pattern holds a
      space (`style=" color:red;"`, the long comment and `<td style=" ">`) never apply. */
  lemma CleanRowLivePatterns(row: String)
    ensures ' ' in Replacements[5].0 && ' ' in Replacements[6].0 && ' ' in Replacements[12].0
    ensures PatternsNonEmpty(WithoutSpacedPatterns(Replacements[2..]))
    ensures CleanRowData(row)
      == ApplyAll(Replace(Replace(row, "align=\"left\"", ""), " ", ""), WithoutSpacedPatterns(Replacements[2..]))
  {
    ReplacementsShape();
    assert Replacements[1] == (" ", "");
    assert forall i :: 0 <= i < |Replacements| ==> ' ' !in Replacements[i].1 by {
      assert ' ' !in CellTag;
    }
    LiveAfterSpaces(row, Replacements);
    SpacedPatterns();
  }

  lemma SpacedPatterns()
    ensures ' ' in Replacements[5].0 && ' ' in Replacements[6].0 && ' ' in Replacements[12].0
  {
    assert Replacements[5].0[7] == ' ';
    assert Replacements[6].0[4] == ' ';
    assert Replacements[12].0[3] == ' ';
  }

  lemma LiveAfterSpaces(row: String, reps: seq<(String, String)>)
    requires PatternsNonEmpty(reps) && |reps| >= 2 && reps[1] == (" ", "")
    requires forall i :: 0 <= i < |reps| ==> ' ' !in reps[i].1
    ensures PatternsNonEmpty(WithoutSpacedPatterns(reps[2..]))
    ensures ApplyAll(row, reps)
      == ApplyAll(Replace(Replace(row, reps[0].0, reps[0].1), " ", ""), WithoutSpacedPatterns(reps[2..]))
  {
    var afterSpaces := Replace(Replace(row, reps[0].0, reps[0].1), " ", "");
    ReplaceCharIsRemoval(Replace(row, reps[0].0, reps[0].1), ' ');
    assert reps[1..][1..] == reps[2..];
    SpacedPatternsNeverApply(afterSpaces, reps[2..]);
  }

  // ---------------------------------------------------------------------------------------
  // Fields of a row
  // ---------------------------------------------------------------------------------------

  const CellTag: String := "<td>"

  /** `cleaned_row.split('<td>')` with one leading empty piece dropped. */
  function SplitCells(cleaned: String): (r: seq<String>)
    ensures Join(r, CellTag) == cleaned || CellTag + Join(r, CellTag) == cleaned
  {
    var parts := Split(cleaned, CellTag);
    if parts[0] == [] then
      JoinAfterEmpty(parts);
      parts[1..]
    else parts
  }

  lemma JoinAfterEmpty(parts: seq<String>)
    requires |parts| >= 1 && parts[0] == []
    ensures Join(parts, CellTag) == Join(parts[1..], CellTag)
      || Join(parts, CellTag) == CellTag + Join(parts[1..], CellTag)
  {
  }

  /** A row written as `<td>` before each field reads back as those fields, when no field
      holds a `<`. */
  lemma CellsRoundTrip(fields: seq<String>)
    requires |fields| >= 1
    requires forall k :: 0 <= k < |fields| ==> '<' !in fields[k]
    ensures SplitCells(Join([[]] + fields, CellTag)) == fields
  {
    var parts := [[]] + fields;
    assert parts[1..] == fields;
    SplitJoinBy(parts, CellTag);
  }

  /** The grade `zcj=(\d{2}|通过)` captures at index i: two digits, else `通过`. */
  function GradeAt(s: String, i: nat): Option<String> {
    if OccursAt(s, "zcj=", i) then
      var j := i + 4;
      if j + 2 <= |s| && IsDigit(s[j]) && IsDigit(s[j + 1]) then Some(s[j..j + 2])
      else if OccursAt(s, "通过", j) then Some("通过")
      else None
    else None
  }

  /** The first match from index i on, scanning left to right. */
  function GradeFrom(s: String, i: nat): (r: Option<String>)
    requires i <= |s|
    ensures r.Some? ==> exists k :: (i <= k < |s| && GradeAt(s, k) == r
      && forall j :: i <= j < k ==> GradeAt(s, j).None?)
    ensures r.None? ==> forall k :: i <= k < |s| ==> GradeAt(s, k).None?
    decreases |s| - i
  {
    if i == |s| then None
    else if GradeAt(s, i).Some? then GradeAt(s, i)
    else GradeFrom(s, i + 1)
  }

  /** `re.findall(r'zcj=(\d{2}|通过)', s)[0]`, if any. */
  function FirstGrade(s: String): Option<String> {
    GradeFrom(s, 0)
  }

  /** A grade link whose text before `zcj=` has no `z` yields its two digits or `通过`. */
  lemma GradeFound(prefix: String, grade: String, rest: String)
    requires 'z' !in prefix
    requires (|grade| == 2 && IsDigit(grade[0]) && IsDigit(grade[1])) || grade == "通过"
    ensures FirstGrade(prefix + "zcj=" + grade + rest) == Some(grade)
  {
    var s := prefix + "zcj=" + grade + rest;
    var p := |prefix|;
    assert s[p..p + 4] == "zcj=";
    assert s[p + 4..p + 4 + |grade|] == grade;
    forall j | 0 <= j < p
      ensures GradeAt(s, j).None?
    {
      assert s[j] == prefix[j];
    }
    GradeScan(s, p);
  }

  lemma {:induction false} GradeScan(s: String, p: nat)
    requires p < |s| && GradeAt(s, p).Some?
    requires forall j :: 0 <= j < p ==> GradeAt(s, j).None?
    ensures FirstGrade(s) == GradeAt(s, p)
  {
  }

  /** Text without `zcj=` has no grade. */
  lemma NoGradeLink(s: String)
    requires !Contains(s, "zcj=")
    ensures FirstGrade(s).None?
  {
  }

  /** One grade record: the positional fields 1 to 15 under their keys. */
  datatype Record = Record(
    xnxqmc: String,  // term
    kcbh: String,    // course number
    kcmc: String,    // course name
    kczcj: String,   // grade
    jncj: String,    // skills grade
    pscj: String,    // coursework grade
    jmcj: String,    // paper grade
    cjbz: String,    // grade mark
    xf: String,      // credits
    ksxz: String,    // exam kind
    zxs: String,     // hours
    cjjd: String,    // grade point
    khfs: String,    // assessment
    kcsx: String,    // course attribute
    kcxz: String)    // course kind

  const FieldCount: nat := 16

  /** `_parse_row_to_dict`: fewer than 16 fields raise; field 0 and fields past 15 are
      ignored; the grade is the first grade link's capture in field 4, else field 4 as is. */
  function ParseRow(fields: seq<String>): (r: Result<Record, String>)
    ensures r.Err? <==> |fields| < FieldCount
    ensures r.Ok? ==> r.value.kczcj == FirstGrade(fields[4]).GetOr(fields[4])
  {
    if |fields| < FieldCount then Err("行数据不完整")
    else
      var grade := match FirstGrade(fields[4]) case Some(g) => g case None => fields[4];
      Ok(Record(fields[1], fields[2], fields[3], grade, fields[5], fields[6], fields[7], fields[8],
                fields[9], fields[10], fields[11], fields[12], fields[13], fields[14], fields[15]))
  }

  /** The fields of a record in row order, behind the given index field. */
  function RecordFields(index: String, a: Record): (fields: seq<String>)
    ensures |fields| == FieldCount && fields[0] == index
  {
    [index, a.xnxqmc, a.kcbh, a.kcmc, a.kczcj, a.jncj, a.pscj, a.jmcj, a.cjbz, a.xf, a.ksxz,
     a.zxs, a.cjjd, a.khfs, a.kcsx, a.kcxz]
  }

  /** Fields written from a record read back as that record, whatever the index field and
      whatever follows, as long as the grade text holds no grade link. */
  lemma ParseRowRoundTrip(index: String, a: Record, extra: seq<String>)
    requires !Contains(a.kczcj, "zcj=")
    ensures ParseRow(RecordFields(index, a) + extra) == Ok(a)
  {
    NoGradeLink(a.kczcj);
  }

  /** The grade is the link's capture when the grade field holds a link. */
  lemma ParseRowGrade(fields: seq<String>, prefix: String, grade: String, rest: String)
    requires |fields| >= FieldCount && fields[4] == prefix + "zcj=" + grade + rest
    requires 'z' !in prefix
    requires (|grade| == 2 && IsDigit(grade[0]) && IsDigit(grade[1])) || grade == "通过"
    ensures ParseRow(fields).Ok? && ParseRow(fields).value.kczcj == grade
  {
    GradeFound(prefix, grade, rest);
  }

  // ---------------------------------------------------------------------------------------
  // The row loop
  // ---------------------------------------------------------------------------------------

  /** What one table row contributes: its record when it has at least 16 fields. */
  function RowRecord(row: String): (r: Option<Record>)
    ensures r.Some? <==> |SplitCells(CleanRowData(row))| >= FieldCount
  {
    var fields := SplitCells(CleanRowData(row));
    if |fields| >= FieldCount then Some(ParseRow(fields).value) else None
  }

  /** What each row contributes, in row order. */
  function RowRecords(rows: seq<String>): (r: seq<Option<Record>>)
    ensures |r| == |rows| && forall k :: 0 <= k < |rows| ==> r[k] == RowRecord(rows[k])
  {
    seq(|rows|, k requires 0 <= k < |rows| => RowRecord(rows[k]))
  }

  /** The records the rows contribute, in row order. */
  function Collect(results: seq<Option<Record>>): (r: seq<Record>)
    ensures |r| <= |results|
    ensures forall a :: a in r ==> Some(a) in results
  {
    if results == [] then []
    else
      var rest := Collect(results[1..]);
      match results[0]
      case Some(a) => [a] + rest
      case None => rest
  }

  /** The records of two runs of rows are the records of each run, one after the other. */
  lemma {:induction false} CollectAppend(a: seq<Option<Record>>, b: seq<Option<Record>>)
    ensures Collect(a + b) == Collect(a) + Collect(b)
    decreases |a|
  {
    if a != [] {
      assert (a + b)[1..] == a[1..] + b;
      CollectAppend(a[1..], b);
    } else {
      assert a + b == b;
    }
  }

  /** Only rows with enough fields contribute, each exactly once. */
  lemma {:induction false} CollectCounts(results: seq<Option<Record>>, a: Record)
    ensures multiset(Collect(results))[a] == multiset(results)[Some(a)]
    decreases |results|
  {
    if results != [] {
      var tail := results[1..];
      assert results == [results[0]] + tail;
      CollectCounts(tail, a);
      var head: seq<Record> := if results[0].Some? then [results[0].value] else [];
      assert Collect(results) == head + Collect(tail);
      assert multiset(Collect(results)) == multiset(head) + multiset(Collect(tail));
      assert multiset(results) == multiset([results[0]]) + multiset(tail);
    }
  }

  /** `fetch_achievements` on the rows the row search found in the cleaned page. */
  function FetchAchievements(rows: seq<String>): (r: seq<Record>)
    ensures |r| <= |ExtractTableRows(rows)|
    ensures forall a :: a in r ==> exists k :: 0 <= k < |ExtractTableRows(rows)| && RowRecord(ExtractTableRows(rows)[k]) == Some(a)
  {
    Collect(RowRecords(ExtractTableRows(rows)))
  }

  /** The two header rows never contribute. */
  lemma HeaderRowsIgnored(h1: String, h2: String, body: seq<String>)
    ensures FetchAchievements([h1, h2] + body) == Collect(RowRecords(body))
  {
    assert ([h1, h2] + body)[2..] == body;
  }
}
