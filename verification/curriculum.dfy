/**
 * The timetable decoder of `src/academic/curriculum.py`: the week/period field of a course
 * (`1-8,10-16(周)[01-02节]`), the tables that name weekdays and class periods, the weekday
 * carried in a slot's element id, and the per-week course records built from one slot.
 */
module Curriculum {
  import opened Wrappers
  import opened Strings
  import opened WeekText

  /** The marker that ends the week part of a time field. */
  const WeekMarker: String := "(周)"

  predicate StrictlyIncreasing(xs: seq<int>) {
    forall i, j :: 0 <= i < j < |xs| ==> xs[i] < xs[j]
  }

  // ---------------------------------------------------------------------------------------
  // Weeks: `sorted(set(weeks))` over the comma-separated pieces of the week part
  // ---------------------------------------------------------------------------------------

  /** The weeks one comma piece contributes. A piece with `-` must split into exactly two
      integers (else the `ValueError` is caught and the piece dropped); a piece without `-`
      counts only when it is all digits. */
  function PartWeeks(piece: String): seq<int> {
    var t := Strip(piece);
    if Contains(t, "-") then
      var bounds := Split(t, "-");
      if |bounds| == 2 && ParseInt(bounds[0]).Some? && ParseInt(bounds[1]).Some? then
        Range(ParseInt(bounds[0]).value, ParseInt(bounds[1]).value)
      else []
    else if IsDigits(t) then [DigitsValue(t)]
    else []
  }

  /** Week `w` is contributed by some piece. */
  predicate Contributes(pieces: seq<String>, w: int) {
    exists k :: 0 <= k < |pieces| && w in PartWeeks(pieces[k])
  }

  /** The weeks of all pieces in the order met (the `weeks.extend` loop). */
  function AllWeeks(pieces: seq<String>): seq<int> {
    if pieces == [] then [] else PartWeeks(pieces[0]) + AllWeeks(pieces[1..])
  }

  /** A week is collected exactly when some piece contributes it. */
  lemma {:induction false} AllWeeksMembers(pieces: seq<String>)
    ensures forall w :: w in AllWeeks(pieces) <==> Contributes(pieces, w)
    decreases |pieces|
  {
    if pieces != [] {
      var tail := pieces[1..];
      AllWeeksMembers(tail);
      assert AllWeeks(pieces) == PartWeeks(pieces[0]) + AllWeeks(tail);
      forall w
        ensures w in AllWeeks(pieces) <==> Contributes(pieces, w)
      {
        if w in PartWeeks(pieces[0]) {
          assert Contributes(pieces, w);
        } else if Contributes(tail, w) {
          var k :| 0 <= k < |tail| && w in PartWeeks(tail[k]);
          assert tail[k] == pieces[k + 1];
        }
      }
    }
  }

  /** Inserts `w` into a strictly increasing list, keeping it strictly increasing. */
  function InsertSorted(xs: seq<int>, w: int): (r: seq<int>)
    requires StrictlyIncreasing(xs)
    ensures StrictlyIncreasing(r)
    ensures forall x :: x in r <==> x in xs || x == w
  {
    if xs == [] then [w]
    else if w < xs[0] then [w] + xs
    else if w == xs[0] then xs
    else
      var tail := InsertSorted(xs[1..], w);
      assert forall i :: 0 <= i < |tail| ==> xs[0] < tail[i] by {
        forall i | 0 <= i < |tail|
          ensures xs[0] < tail[i]
        {
          assert tail[i] in tail;
          if tail[i] != w {
            assert tail[i] in xs[1..];
            var j :| 0 <= j < |xs[1..]| && xs[1..][j] == tail[i];
            assert xs[1..][j] == xs[j + 1];
          }
        }
      }
      [xs[0]] + tail
  }

  /** `sorted(set(ws))`. */
  function SortUnique(ws: seq<int>): (r: seq<int>)
    ensures StrictlyIncreasing(r)
    ensures forall x :: x in r <==> x in ws
  {
    if ws == [] then []
    else
      assert ws == ws[..|ws| - 1] + [ws[|ws| - 1]];
      InsertSorted(SortUnique(ws[..|ws| - 1]), ws[|ws| - 1])
  }

  /** A strictly increasing list is determined by its members. */
  lemma {:induction false} SortedSetUnique(a: seq<int>, b: seq<int>)
    requires StrictlyIncreasing(a) && StrictlyIncreasing(b)
    requires forall x :: x in a <==> x in b
    ensures a == b
    decreases |a|
  {
    if a != [] {
      assert a[0] in a;
    }
    if b != [] {
      assert b[0] in b;
    }
    if a != [] && b != [] {
      HeadIsLeast(a, b[0]);
      HeadIsLeast(b, a[0]);
      assert a[0] == b[0];
      forall x
        ensures x in a[1..] <==> x in b[1..]
      {
        TailMembers(a, x);
        TailMembers(b, x);
      }
      SortedSetUnique(a[1..], b[1..]);
      assert a == [a[0]] + a[1..];
      assert b == [b[0]] + b[1..];
    }
  }

  lemma HeadIsLeast(a: seq<int>, x: int)
    requires StrictlyIncreasing(a) && x in a
    ensures a[0] <= x
  {
  }

  lemma TailMembers(a: seq<int>, x: int)
    requires StrictlyIncreasing(a) && a != []
    ensures x in a[1..] <==> x in a && x != a[0]
  {
    if x in a[1..] {
      var i :| 0 <= i < |a[1..]| && a[1..][i] == x;
      assert a[i + 1] == x;
    }
    if x in a && x != a[0] {
      var i :| 0 <= i < |a| && a[i] == x;
      assert a[1..][i - 1] == x;
    }
  }

  /** The week list the decoder reports for the given comma pieces. */
  function WeekList(pieces: seq<String>): (r: seq<int>)
    ensures StrictlyIncreasing(r)
    ensures forall w :: w in r <==> Contributes(pieces, w)
  {
    AllWeeksMembers(pieces);
    SortUnique(AllWeeks(pieces))
  }

  // ---------------------------------------------------------------------------------------
  // Periods: the first match of `\[(.*?)\]` (its `.` does not cross a line break)
  // ---------------------------------------------------------------------------------------

  /** The index of the `]` that closes a bracket opened before `j`, unless a line break comes
      first. */
  function CloseAt(s: String, j: nat): (r: Option<nat>)
    ensures r.Some? ==> j <= r.value < |s| && s[r.value] == ']'
    ensures r.Some? ==> forall m :: j <= m < r.value ==> s[m] != ']' && s[m] != '\n'
    decreases |s| - j
  {
    if j >= |s| then None
    else if s[j] == ']' then Some(j)
    else if s[j] == '\n' then None
    else CloseAt(s, j + 1)
  }

  lemma {:induction false} CloseAtFinds(s: String, j: nat, e: nat)
    requires j <= e < |s| && s[e] == ']'
    requires forall m :: j <= m < e ==> s[m] != ']' && s[m] != '\n'
    ensures CloseAt(s, j) == Some(e)
    decreases e - j
  {
    if j < e {
      CloseAtFinds(s, j + 1, e);
    }
  }

  /** The group of the first bracket pair at or after `i` that the pattern matches. */
  function BracketFrom(s: String, i: nat): (r: Option<String>)
    ensures r.Some? ==> ']' !in r.value && '\n' !in r.value
    decreases |s| - i
  {
    if i >= |s| then None
    else if s[i] == '[' then
      match CloseAt(s, i + 1)
      case Some(e) => Some(s[i + 1..e])
      case None => BracketFrom(s, i + 1)
    else BracketFrom(s, i + 1)
  }

  datatype TimeInfo = TimeInfo(weeks: seq<int>, periods: String)

  /** The comma pieces of the week part of a time field. */
  function WeekPieces(timeInfo: String): seq<String> {
    Split(Split(timeInfo, WeekMarker)[0], ",")
  }

  /** `_parse_time_info`: no marker gives no weeks and no periods; otherwise the weeks are
      exactly those the week pieces contribute, ascending and without repeats, and the
      periods are the first bracketed group after the marker. */
  function ParseTimeInfo(timeInfo: String): (r: TimeInfo)
    ensures !Contains(timeInfo, WeekMarker) ==> r == TimeInfo([], "")
    ensures StrictlyIncreasing(r.weeks)
    ensures Contains(timeInfo, WeekMarker) ==>
      forall w :: w in r.weeks <==> Contributes(WeekPieces(timeInfo), w)
    ensures ']' !in r.periods && '\n' !in r.periods
  {
    if !Contains(timeInfo, WeekMarker) then TimeInfo([], "")
    else
      var parts := Split(timeInfo, WeekMarker);
      TimeInfo(WeekList(Split(parts[0], ",")), Periods(parts))
  }

  /** The periods: the first bracketed group of the text after the marker, or `""`. */
  function Periods(parts: seq<String>): (p: String)
    ensures ']' !in p && '\n' !in p
  {
    if |parts| > 1 && Contains(parts[1], "[") && Contains(parts[1], "]")
    then BracketFrom(parts[1], 0).GetOr("")
    else ""
  }

  /** A range piece contributes exactly its range. */
  lemma PieceOfRange(a: nat, b: nat)
    ensures PartWeeks(RangeText(a, b)) == Range(a, b)
  {
    var t := RangeText(a, b);
    var x, y := NatToString(a), NatToString(b);
    assert t[0] == x[0] && t[|t| - 1] == y[|y| - 1];
    StripUnpadded(t);
    assert t[|x|] == '-';
    ContainsChar(t, '-');
    RangeTextSplits(a, b);
    ParseIntOfString(a);
    ParseIntOfString(b);
    assert ParseInt(x) == Some(a as int) && ParseInt(y) == Some(b as int);
    PartWeeksOfRange(t, x, y, a, b);
  }

  lemma PartWeeksOfRange(t: String, x: String, y: String, a: int, b: int)
    requires Strip(t) == t && Contains(t, "-") && Split(t, "-") == [x, y]
    requires ParseInt(x) == Some(a) && ParseInt(y) == Some(b)
    ensures PartWeeks(t) == Range(a, b)
  {
  }

  /** A single-week piece contributes exactly that week. */
  lemma PieceOfWeek(n: nat)
    ensures PartWeeks(NatToString(n)) == [n]
  {
    var t := NatToString(n);
    StripUnpadded(t);
    DigitsHaveNo(n, '-');
    assert "-" == ['-'];
    DigitPiece(t, t);
  }

  /** A piece that strips to a dash-free numeral contributes its value. */
  lemma DigitPiece(piece: String, t: String)
    requires t == Strip(piece) && !Contains(t, "-") && IsDigits(t)
    ensures PartWeeks(piece) == [DigitsValue(t)]
  {
  }

  lemma {:induction false} AllWeeksOfRanges(ranges: seq<(nat, nat)>)
    ensures AllWeeks(RangeTexts(ranges)) == Expand(ranges)
    decreases |ranges|
  {
    if ranges != [] {
      assert RangeTexts(ranges)[1..] == RangeTexts(ranges[1..]);
      PieceOfRange(ranges[0].0, ranges[0].1);
      AllWeeksOfRanges(ranges[1..]);
    }
  }

  /** A time field written from week ranges and a period text decodes to the sorted,
      de-duplicated weeks of those ranges and to that period text. */
  lemma TimeInfoRoundTrip(ranges: seq<(nat, nat)>, p: String)
    requires ']' !in p && '\n' !in p && '(' !in p
    ensures ParseTimeInfo(RangesText(ranges) + WeekMarker + "[" + p + "]")
      == TimeInfo(SortUnique(Expand(ranges)), p)
  {
    var w := RangesText(ranges);
    var rest := "[" + p + "]";
    assert w + WeekMarker + rest == RangesText(ranges) + WeekMarker + "[" + p + "]";
    RangesTextHasNo(ranges, '(');
    SplitAtMarker(w, rest);
    BracketOfPeriod(p);
    WeekListOfRanges(ranges);
    ParseTimeInfoParts(w + WeekMarker + rest, w, rest);
  }

  lemma ParseTimeInfoParts(s: String, w: String, rest: String)
    requires Contains(s, WeekMarker) && Split(s, WeekMarker) == [w, rest]
    ensures ParseTimeInfo(s).weeks == WeekList(Split(w, ","))
    ensures Contains(rest, "[") && Contains(rest, "]") ==> ParseTimeInfo(s).periods == BracketFrom(rest, 0).GetOr("")
  {
  }

  /** In a field with one `(周)`, the weeks depend only on the text before the marker and
      the period only on the text after it. */
  lemma TimeInfoLocality(w: String, rest: String, w': String, rest': String)
    requires '(' !in w && '(' !in rest && '(' !in w' && '(' !in rest'
    ensures ParseTimeInfo(w + WeekMarker + rest).weeks == ParseTimeInfo(w + WeekMarker + rest').weeks
    ensures ParseTimeInfo(w + WeekMarker + rest).periods == ParseTimeInfo(w' + WeekMarker + rest).periods
  {
    SplitAtMarker(w, rest);
    SplitAtMarker(w, rest');
    SplitAtMarker(w', rest);
  }

  lemma SplitAtMarker(w: String, rest: String)
    requires '(' !in w && '(' !in rest
    ensures Contains(w + WeekMarker + rest, WeekMarker)
    ensures Split(w + WeekMarker + rest, WeekMarker) == [w, rest]
  {
    var s := w + WeekMarker + rest;
    assert s[|w|..|w| + |WeekMarker|] == WeekMarker;
    assert OccursAt(s, WeekMarker, |w|);
    SplitAfterHead(w, WeekMarker, rest);
    AbsentFirstChar(rest, WeekMarker);
    SplitWithout(rest, WeekMarker);
  }

  lemma BracketOfPeriod(p: String)
    requires ']' !in p && '\n' !in p
    ensures Contains("[" + p + "]", "[") && Contains("[" + p + "]", "]")
    ensures BracketFrom("[" + p + "]", 0) == Some(p)
  {
    var rest := "[" + p + "]";
    ContainsChar(rest, '[');
    ContainsChar(rest, ']');
    assert rest[|rest| - 1] == ']';
    CloseAtFinds(rest, 1, |rest| - 1);
    assert rest[1..|rest| - 1] == p;
  }

  /** Text holding no `[` is passed over: the search resumes where it ends. */
  lemma {:induction false} SkipNoBracket(s: String, i: nat, k: nat)
    requires i <= k <= |s|
    requires forall m :: i <= m < k ==> s[m] != '['
    ensures BracketFrom(s, i) == BracketFrom(s, k)
    decreases k - i
  {
    if i < k {
      SkipNoBracket(s, i + 1, k);
    }
  }

  /** The group taken is the one opened by the first `[`, whatever follows its `]`. */
  lemma BracketFromFirst(a: String, p: String, b: String)
    requires '[' !in a && ']' !in p && '\n' !in p
    ensures BracketFrom(a + "[" + p + "]" + b, 0) == Some(p)
  {
    var s := a + "[" + p + "]" + b;
    var e := |a| + 1 + |p|;
    assert forall m :: 0 <= m < |a| ==> s[m] == a[m];
    SkipNoBracket(s, 0, |a|);
    assert s[|a|] == '[';
    assert s[e] == ']';
    assert forall m :: |a| + 1 <= m < e ==> s[m] == p[m - |a| - 1];
    CloseAtFinds(s, |a| + 1, e);
    assert s[|a| + 1..e] == p;
  }

  /** The period of a time field is the group of the first `[` after `(周)`, with any text
      before that `[` and any later groups ignored. */
  lemma PeriodAfterPrefix(w: String, a: String, p: String, b: String)
    requires '(' !in w && '(' !in a && '(' !in p && '(' !in b
    requires '[' !in a && ']' !in p && '\n' !in p
    ensures ParseTimeInfo(w + WeekMarker + a + "[" + p + "]" + b).periods == p
  {
    var rest := a + "[" + p + "]" + b;
    assert '(' !in rest;
    assert w + WeekMarker + a + "[" + p + "]" + b == w + WeekMarker + rest;
    SplitAtMarker(w, rest);
    BracketFromFirst(a, p, b);
    assert rest[|a|] == '[' && rest[|a| + 1 + |p|] == ']';
    ContainsChar(rest, '[');
    ContainsChar(rest, ']');
  }

  lemma WeekListOfRanges(ranges: seq<(nat, nat)>)
    ensures WeekList(Split(RangesText(ranges), ",")) == SortUnique(Expand(ranges))
  {
    if ranges == [] {
      SplitWithout(RangesText(ranges), ",");
      assert AllWeeks([""]) == [];
    } else {
      RangesTextSplits(ranges);
      AllWeeksOfRanges(ranges);
    }
  }

  /** When the ranges are already written in ascending order without overlap, the decoded
      weeks are exactly the weeks written. */
  lemma TimeInfoAscendingRoundTrip(ranges: seq<(nat, nat)>, p: String)
    requires ']' !in p && '\n' !in p && '(' !in p
    requires StrictlyIncreasing(Expand(ranges))
    ensures ParseTimeInfo(RangesText(ranges) + WeekMarker + "[" + p + "]") == TimeInfo(Expand(ranges), p)
  {
    TimeInfoRoundTrip(ranges, p);
    SortedSetUnique(SortUnique(Expand(ranges)), Expand(ranges));
  }

  /** A piece the decoder cannot read changes nothing: the reported weeks are those of the
      remaining pieces. */
  lemma MalformedPieceIgnored(before: seq<String>, bad: String, after: seq<String>)
    requires PartWeeks(bad) == []
    ensures WeekList(before + [bad] + after) == WeekList(before + after)
  {
    DropEmptyPiece(before, bad, after);
  }

  lemma DropEmptyPiece(before: seq<String>, bad: String, after: seq<String>)
    requires PartWeeks(bad) == []
    ensures AllWeeks(before + [bad] + after) == AllWeeks(before + after)
  {
    var one: seq<String> := [bad];
    var front := before + one;
    assert one[1..] == [];
    assert AllWeeks(one) == PartWeeks(bad) + AllWeeks([]);
    AllWeeksAppend(before, one);
    assert AllWeeks(front) == AllWeeks(before);
    AllWeeksAppend(front, after);
    AllWeeksAppend(before, after);
  }

  /** The `weeks.extend` loop over two runs of pieces collects the first run's weeks, then
      the second's. */
  lemma {:induction false} AllWeeksAppend(a: seq<String>, b: seq<String>)
    ensures AllWeeks(a + b) == AllWeeks(a) + AllWeeks(b)
    decreases |a|
  {
    if a == [] {
      assert a + b == b;
    } else {
      var head := PartWeeks(a[0]);
      assert (a + b)[0] == a[0];
      assert (a + b)[1..] == a[1..] + b;
      assert AllWeeks(a + b) == head + AllWeeks(a[1..] + b);
      AllWeeksAppend(a[1..], b);
      assert AllWeeks(a) == head + AllWeeks(a[1..]);
      WeeksAssoc(head, AllWeeks(a[1..]), AllWeeks(b));
    }
  }

  lemma WeeksAssoc(x: seq<int>, y: seq<int>, z: seq<int>)
    ensures x + (y + z) == (x + y) + z
  {
  }

  // ---------------------------------------------------------------------------------------
  // Class periods and weekdays
  // ---------------------------------------------------------------------------------------

  /** `time_slots`: slot key to slot name. */
  const TimeSlots: map<String, String> := map[
    "12" := "第1-2节", "34" := "第3-4节", "56" := "第5-6节",
    "78" := "第7-8节", "910" := "第9-10节", "1112" := "第11-12节"]

  /** The period codes looked for, in the order they are tried, with the slot key each selects
      and the name it is given. */
  const PeriodCodes: seq<(String, String, String)> := [
    ("01-02", "12", "第1-2节"), ("03-04", "34", "第3-4节"), ("05-06", "56", "第5-6节"),
    ("07-08", "78", "第7-8节"), ("09-10", "910", "第9-10节"), ("11-12", "1112", "第11-12节")]

  /** The first code at or after `k` that the period text contains. */
  function FirstCode(period: String, k: nat): (r: Option<nat>)
    requires k <= |PeriodCodes|
    ensures r.Some? ==> k <= r.value < |PeriodCodes| && Contains(period, PeriodCodes[r.value].0)
    ensures forall j :: k <= j < |PeriodCodes| && (r.None? || j < r.value) ==> !Contains(period, PeriodCodes[j].0)
    decreases |PeriodCodes| - k
  {
    if k == |PeriodCodes| then None
    else if Contains(period, PeriodCodes[k].0) then Some(k)
    else FirstCode(period, k + 1)
  }

  /** `_determine_time_slot`: the slot of the first code found, `'12'` when none is. The
      element id plays no part. */
  function DetermineTimeSlot(divId: String, period: String): (r: String)
    ensures r in TimeSlots
    ensures forall k ::
      (0 <= k < |PeriodCodes| && Contains(period, PeriodCodes[k].0)
       && (forall j :: 0 <= j < k ==> !Contains(period, PeriodCodes[j].0)))
      ==> r == PeriodCodes[k].1
    ensures (forall k :: 0 <= k < |PeriodCodes| ==> !Contains(period, PeriodCodes[k].0)) ==> r == "12"
  {
    match FirstCode(period, 0)
    case Some(k) => PeriodCodes[k].1
    case None => "12"
  }

  /** `_get_time_name`: the name of the first code found; otherwise the period text itself,
      or `'未知时间'` when that is empty. Never empty. */
  function GetTimeName(period: String): (r: String)
    ensures r != ""
    ensures forall k ::
      (0 <= k < |PeriodCodes| && Contains(period, PeriodCodes[k].0)
       && (forall j :: 0 <= j < k ==> !Contains(period, PeriodCodes[j].0)))
      ==> r == PeriodCodes[k].2
    ensures (forall k :: 0 <= k < |PeriodCodes| ==> !Contains(period, PeriodCodes[k].0)) ==>
      r == if period == "" then "未知时间" else period
  {
    match FirstCode(period, 0)
    case Some(k) => PeriodCodes[k].2
    case None => if period == "" then "未知时间" else period
  }

  /** For a recognised period code, the name given to a course is the name `time_slots`
      lists for the slot it is filed under. */
  lemma SlotNameAgrees(divId: String, period: String, k: nat)
    requires k < |PeriodCodes| && Contains(period, PeriodCodes[k].0)
    ensures TimeSlots[DetermineTimeSlot(divId, period)] == GetTimeName(period)
  {
    var f := FirstCode(period, 0);
    assert f.Some?;
    SlotTablesAgree(f.value);
  }

  /** Each period code's slot is a key of `time_slots`, listed there under the code's name. */
  lemma SlotTablesAgree(k: nat)
    requires k < |PeriodCodes|
    ensures PeriodCodes[k].1 in TimeSlots && TimeSlots[PeriodCodes[k].1] == PeriodCodes[k].2
  {
  }

  /** `weekdays`. */
  const Weekdays: map<int, String> := map[
    1 := "星期一", 2 := "星期二", 3 := "星期三", 4 := "星期四",
    5 := "星期五", 6 := "星期六", 7 := "星期日"]

  /** `weekdays.get(w, f'星期{w}')`. */
  function WeekdayName(w: int): String {
    if w in Weekdays then Weekdays[w] else "星期" + IntToString(w)
  }

  /** The weekday of a slot id `<slot>-<weekday>-<n>`: at least three `-` pieces, the second
      all digits (else 0), and within 1..7; `None` where the source logs and gives up. */
  function DivWeekday(divId: String): (r: Option<int>)
    ensures r.Some? ==> r.value in Weekdays && 1 <= r.value <= 7
    ensures r.Some? ==> |Split(divId, "-")| >= 3
  {
    var parts := Split(divId, "-");
    if |parts| < 3 then None
    else
      var w := if IsDigits(parts[1]) then DigitsValue(parts[1]) else 0;
      if 1 <= w <= 7 then Some(w) else None
  }

  /** An id written as `<slot>-<weekday>-<rest>` gives back its weekday. */
  lemma DivIdRoundTrip(slot: String, d: nat, rest: String)
    requires '-' !in slot && 1 <= d <= 7
    ensures DivWeekday(slot + "-" + NatToString(d) + "-" + rest) == Some(d)
  {
    var digits := NatToString(d);
    DigitsHaveNo(d, '-');
    SplitAfterHead(digits, "-", rest);
    assert slot + "-" + digits + "-" + rest == slot + "-" + (digits + "-" + rest);
    SplitAfterHead(slot, "-", digits + "-" + rest);
  }

  // ---------------------------------------------------------------------------------------
  // Course records of one slot
  // ---------------------------------------------------------------------------------------

  /** One entry of the decoded timetable: a course in one week. */
  datatype CourseRecord = CourseRecord(
    kcmc: String,       // course name
    teaxms: String,     // teacher
    jxcdmc: String,     // classroom
    xq: int,            // weekday number
    xqmc: String,       // weekday name
    zc: int,            // week
    jcdm: String,       // period text
    jcmc: String,       // period name
    timeSlot: String,
    divId: String)

  /** What a slot's element holds, as the HTML parser reports it: its markup, its stripped
      text, and the texts found under the course-name position and the titled `font` tags
      (empty when absent). */
  datatype DivContent = DivContent(
    html: String, text: String,
    courseName: String, teacher: String, timeInfo: String, classroom: String)

  predicate EmptySlot(c: DivContent) {
    Strip(c.html) == "&nbsp;" || Strip(c.html) == "" || c.text == ""
  }

  /** `_parse_course_content_html` on its tag-based path: an empty slot gives no records; a
      slot with a course name and a time field gives one record per decoded week, in
      ascending week order, all sharing the slot's fields; any other slot goes to the
      free-text fallback, which is `None` here. */
  function ParseCourseContent(c: DivContent, divId: String, weekday: int): (r: Option<seq<CourseRecord>>)
    ensures EmptySlot(c) ==> r == Some([])
    ensures r.None? <==> !EmptySlot(c) && (c.courseName == "" || c.timeInfo == "")
    ensures r.Some? && !EmptySlot(c) ==>
      forall w :: (exists i :: 0 <= i < |r.value| && r.value[i].zc == w) <==> w in ParseTimeInfo(c.timeInfo).weeks
    ensures r.Some? ==> forall i, j :: 0 <= i < j < |r.value| ==> r.value[i].zc < r.value[j].zc
    ensures r.Some? ==> forall i :: 0 <= i < |r.value| ==>
      && r.value[i].kcmc == c.courseName && r.value[i].teaxms == c.teacher
      && r.value[i].jxcdmc == c.classroom && r.value[i].xq == weekday
      && r.value[i].xqmc == WeekdayName(weekday) && r.value[i].divId == divId
      && r.value[i].timeSlot in TimeSlots && r.value[i].jcmc != ""
    ensures r.Some? && !EmptySlot(c) ==>
      var periods := ParseTimeInfo(c.timeInfo).periods;
      && |r.value| == |ParseTimeInfo(c.timeInfo).weeks|
      && forall i :: 0 <= i < |r.value| ==>
        && r.value[i].jcdm == periods && r.value[i].jcmc == GetTimeName(periods)
        && r.value[i].timeSlot == DetermineTimeSlot(divId, periods)
  {
    if EmptySlot(c) then Some([])
    else if c.courseName != "" && c.timeInfo != "" then Some(SlotRecords(c, divId, weekday, ParseTimeInfo(c.timeInfo)))
    else None
  }

  /** The records of a slot with a course name and the decoded time field `info`: one per
      week, in order, each with the slot's fields and the decoded period. */
  function SlotRecords(c: DivContent, divId: String, weekday: int, info: TimeInfo): (r: seq<CourseRecord>)
    ensures forall w :: (exists i :: 0 <= i < |r| && r[i].zc == w) <==> w in info.weeks
    ensures StrictlyIncreasing(info.weeks) ==> forall i, j :: 0 <= i < j < |r| ==> r[i].zc < r[j].zc
    ensures |r| == |info.weeks|
    ensures forall i :: 0 <= i < |r| ==>
      && r[i].kcmc == c.courseName && r[i].teaxms == c.teacher
      && r[i].jxcdmc == c.classroom && r[i].xq == weekday
      && r[i].xqmc == WeekdayName(weekday) && r[i].divId == divId
      && r[i].jcdm == info.periods && r[i].jcmc == GetTimeName(info.periods)
      && r[i].timeSlot == DetermineTimeSlot(divId, info.periods)
      && r[i].timeSlot in TimeSlots && r[i].jcmc != ""
  {
    var name := GetTimeName(info.periods);
    var slot := DetermineTimeSlot(divId, info.periods);
    var proto := CourseRecord(c.courseName, c.teacher, c.classroom, weekday, WeekdayName(weekday),
                              0, info.periods, name, slot, divId);
    WeekRecords(proto, info.weeks)
  }

  /** The record `proto` once for each week, in order. */
  function WeekRecords(proto: CourseRecord, weeks: seq<int>): (r: seq<CourseRecord>)
    ensures |r| == |weeks|
    ensures forall i :: 0 <= i < |r| ==> r[i] == proto.(zc := weeks[i])
    ensures forall w :: (exists i :: 0 <= i < |r| && r[i].zc == w) <==> w in weeks
    ensures StrictlyIncreasing(weeks) ==> forall i, j :: 0 <= i < j < |r| ==> r[i].zc < r[j].zc
  {
    var r := seq(|weeks|, i requires 0 <= i < |weeks| => proto.(zc := weeks[i]));
    assert forall w :: w in weeks ==> exists i :: 0 <= i < |r| && r[i].zc == w by {
      forall w | w in weeks
        ensures exists i :: 0 <= i < |r| && r[i].zc == w
      {
        var i :| 0 <= i < |weeks| && weeks[i] == w;
        assert r[i].zc == w;
      }
    }
    r
  }

  /** `_parse_course_div`: a malformed id or a weekday outside 1..7 gives no records;
      otherwise the slot's records, all carrying the id's weekday. */
  function ParseCourseDiv(divId: String, c: DivContent): (r: Option<seq<CourseRecord>>)
    ensures DivWeekday(divId).None? ==> r == Some([])
    ensures r.Some? ==> forall i :: 0 <= i < |r.value| ==>
      DivWeekday(divId).Some? && r.value[i].xq == DivWeekday(divId).value && 1 <= r.value[i].xq <= 7
  {
    match DivWeekday(divId)
    case None => Some([])
    case Some(w) => ParseCourseContent(c, divId, w)
  }

  /** A slot whose id and time field are written from a weekday and week ranges yields a
      record for exactly the weeks of those ranges, each on that weekday. */
  lemma CourseDivRoundTrip(slot: String, d: nat, rest: String, c: DivContent,
                           ranges: seq<(nat, nat)>, p: String)
    requires '-' !in slot && 1 <= d <= 7
    requires ']' !in p && '\n' !in p && '(' !in p
    requires !EmptySlot(c) && c.courseName != ""
    requires c.timeInfo == RangesText(ranges) + WeekMarker + "[" + p + "]"
    ensures var r := ParseCourseDiv(slot + "-" + NatToString(d) + "-" + rest, c);
      && r.Some?
      && (forall i :: 0 <= i < |r.value| ==> r.value[i].xq == d && r.value[i].jcdm == p)
      && (forall w :: (exists i :: 0 <= i < |r.value| && r.value[i].zc == w) <==> w in Expand(ranges))
  {
    DivIdRoundTrip(slot, d, rest);
    TimeInfoRoundTrip(ranges, p);
  }
}
