/**
 * The older timetable decoder of `tests/test.py`: a course's week field is read after
 * removing every `(周)`, its comma pieces are expanded and concatenated in the order written
 * (no sorting, no de-duplication), and any piece it cannot read raises. The combined
 * `周次(节次)` text is cut at its first `[` into the week part and the period part.
 */
module CourseTable {
  import opened Wrappers
  import opened Strings
  import opened WeekText

  const WeekMarker: String := "(周)"

  /** `parse_single_range_or_week`: `a-b` must split into exactly two integers and expands to
      a..b; any other piece must be an integer. An unreadable piece raises, here `Err` with
      the piece. */
  function ParseSingle(piece: String): (r: Result<seq<int>, String>)
    ensures r.Err? ==> r.error == piece
    ensures !Contains(piece, "-") ==> (r.Ok? <==> ParseInt(piece).Some?)
    ensures !Contains(piece, "-") && r.Ok? ==> r.value == [ParseInt(piece).value]
  {
    if Contains(piece, "-") then
      var bounds := Split(piece, "-");
      if |bounds| == 2 && ParseInt(bounds[0]).Some? && ParseInt(bounds[1]).Some? then
        Ok(Range(ParseInt(bounds[0]).value, ParseInt(bounds[1]).value))
      else Err(piece)
    else
      match ParseInt(piece)
      case Some(n) => Ok([n])
      case None => Err(piece)
  }

  /** The `weeks.extend` loop: pieces expanded in order; the first unreadable piece raises,
      reporting that piece. */
  function ParseAll(pieces: seq<String>): (r: Result<seq<int>, String>)
    ensures r.Err? ==> r.error in pieces
  {
    if pieces == [] then Ok([])
    else
      match ParseSingle(pieces[0])
      case Err(e) => Err(e)
      case Ok(first) =>
        match ParseAll(pieces[1..])
        case Err(e) => assert e in pieces[1..]; Err(e)
        case Ok(rest) => Ok(first + rest)
  }

  /** The loop fails exactly when some piece is unreadable, and otherwise collects exactly
      the weeks the pieces denote. */
  lemma ParseAllMeaning(pieces: seq<String>)
    ensures ParseAll(pieces).Err? <==> exists k :: 0 <= k < |pieces| && ParseSingle(pieces[k]).Err?
    ensures ParseAll(pieces).Ok? ==> forall w :: w in ParseAll(pieces).value <==>
      exists k :: 0 <= k < |pieces| && ParseSingle(pieces[k]).Ok? && w in ParseSingle(pieces[k]).value
  {
    ParseAllFails(pieces);
    ParseAllWeeks(pieces);
  }

  lemma {:induction false} ParseAllFails(pieces: seq<String>)
    ensures ParseAll(pieces).Err? <==> exists k :: 0 <= k < |pieces| && ParseSingle(pieces[k]).Err?
    decreases |pieces|
  {
    if pieces != [] {
      var tail := pieces[1..];
      ParseAllFails(tail);
      if ParseSingle(pieces[0]).Ok? {
        if ParseAll(pieces).Err? {
          var k :| 0 <= k < |tail| && ParseSingle(tail[k]).Err?;
          assert tail[k] == pieces[k + 1];
        } else {
          forall k | 0 <= k < |pieces|
            ensures ParseSingle(pieces[k]).Ok?
          {
            if k > 0 {
              assert pieces[k] == tail[k - 1];
            }
          }
        }
      }
    }
  }

  lemma {:induction false} ParseAllWeeks(pieces: seq<String>)
    ensures ParseAll(pieces).Ok? ==> forall w :: w in ParseAll(pieces).value <==>
      exists k :: 0 <= k < |pieces| && ParseSingle(pieces[k]).Ok? && w in ParseSingle(pieces[k]).value
    decreases |pieces|
  {
    if pieces != [] && ParseAll(pieces).Ok? {
      var tail := pieces[1..];
      ParseAllWeeks(tail);
      var p := ParseSingle(pieces[0]);
      var rest := ParseAll(tail).value;
      assert ParseAll(pieces).value == p.value + rest;
      forall w
        ensures w in ParseAll(pieces).value <==>
          exists k :: 0 <= k < |pieces| && ParseSingle(pieces[k]).Ok? && w in ParseSingle(pieces[k]).value
      {
        if w in rest {
          var k :| 0 <= k < |tail| && ParseSingle(tail[k]).Ok? && w in ParseSingle(tail[k]).value;
          assert tail[k] == pieces[k + 1];
        }
        if exists k :: 0 <= k < |pieces| && ParseSingle(pieces[k]).Ok? && w in ParseSingle(pieces[k]).value {
          var k :| 0 <= k < |pieces| && ParseSingle(pieces[k]).Ok? && w in ParseSingle(pieces[k]).value;
          if k > 0 {
            assert pieces[k] == tail[k - 1];
          }
        }
      }
    }
  }

  /** `course.parse_weeks`: every `(周)` removed, then the comma pieces (or the whole text when
      there is no comma) expanded in order. */
  function ParseWeeks(zc: String): Result<seq<int>, String> {
    var z := if IndexOf(zc, WeekMarker).Some? then Replace(zc, WeekMarker, "") else zc;
    if Contains(z, ",") then ParseAll(Split(z, ",")) else ParseSingle(z)
  }

  /** With or without a comma, the week field is read as the comma pieces of the text left
      after removing every marker: it fails exactly when one of them is unreadable, and
      otherwise holds exactly the weeks the pieces denote. */
  lemma ParseWeeksPieces(zc: String)
    ensures ParseWeeks(zc) == ParseAll(Split(Replace(zc, WeekMarker, ""), ","))
  {
    MarkersRemoved(zc);
    var z := Replace(zc, WeekMarker, "");
    assert z == if IndexOf(zc, WeekMarker).Some? then Replace(zc, WeekMarker, "") else zc;
    if !Contains(z, ",") {
      SplitWithout(z, ",");
      ParseAllOne(z);
    }
  }

  lemma ParseAllOne(z: String)
    ensures ParseAll([z]) == ParseSingle(z)
  {
    assert [z][1..] == [];
    match ParseSingle(z)
    case Err(_) =>
    case Ok(first) => assert first + [] == first;
  }

  /** Removing the markers is needed only when one occurs. */
  lemma MarkersRemoved(zc: String)
    ensures IndexOf(zc, WeekMarker).None? ==> Replace(zc, WeekMarker, "") == zc
  {
    if IndexOf(zc, WeekMarker).None? {
      ReplaceAbsent(zc, WeekMarker);
    }
  }

  /** Replacing a pattern that does not occur changes nothing. */
  lemma ReplaceAbsent(s: String, pat: String)
    requires |pat| > 0 && !Contains(s, pat)
    ensures Replace(s, pat, "") == s
  {
    ReplaceIsSplitJoin(s, pat, "");
    SplitWithout(s, pat);
  }

  /** A week field written from ranges, with the marker after it, reads back as the ranges'
      weeks concatenated in the order written. */
  lemma ParseWeeksRoundTrip(ranges: seq<(nat, nat)>)
    requires |ranges| > 0
    ensures ParseWeeks(RangesText(ranges) + WeekMarker) == Ok(Expand(ranges))
  {
    var w := RangesText(ranges);
    RangesTextHasNo(ranges, '(');
    ParseWeeksPieces(w + WeekMarker);
    MarkerRemoved(w);
    RangesTextSplits(ranges);
    ParseAllOfRanges(ranges);
  }

  /** Removing the trailing marker from a text without `(` leaves the text. */
  lemma MarkerRemoved(w: String)
    requires '(' !in w
    ensures Replace(w + WeekMarker, WeekMarker, "") == w
  {
    var s := w + WeekMarker;
    assert s[|w|..|w| + |WeekMarker|] == WeekMarker;
    assert OccursAt(s, WeekMarker, |w|);
    SplitAfterHead(w, WeekMarker, []);
    assert w + WeekMarker + [] == s;
    SplitWithout([], WeekMarker);
    ReplaceIsSplitJoin(s, WeekMarker, "");
  }

  lemma {:induction false} ParseAllOfRanges(ranges: seq<(nat, nat)>)
    ensures ParseAll(RangeTexts(ranges)) == Ok(Expand(ranges))
    decreases |ranges|
  {
    if ranges != [] {
      assert RangeTexts(ranges)[1..] == RangeTexts(ranges[1..]);
      SingleOfRange(ranges[0].0, ranges[0].1);
      ParseAllOfRanges(ranges[1..]);
    }
  }

  /** A range piece `a-b` expands to a..b, which is empty when a > b. */
  lemma SingleOfRange(a: nat, b: nat)
    ensures ParseSingle(RangeText(a, b)) == Ok(Range(a, b))
  {
    var t := RangeText(a, b);
    assert t[|NatToString(a)|] == '-';
    ContainsChar(t, '-');
    RangeTextSplits(a, b);
    ParseIntOfString(a);
    ParseIntOfString(b);
  }

  /** A numeral piece is the one-week list of its number. */
  lemma SingleOfWeek(n: nat)
    ensures ParseSingle(NatToString(n)) == Ok([n])
  {
    DigitsHaveNo(n, '-');
    ParseIntOfString(n);
  }

  /** `course`: the fields of one timetable entry as scraped. */
  datatype Course = Course(name: String, teacher: String, zc: String, jc: String, classroom: String)

  /** `course.to_dict()`: the same entry with its week field decoded. */
  datatype CourseDict = CourseDict(name: String, teacher: String, zc: seq<int>, jc: String, classroom: String)

  /** `to_dict`: every field kept except `zc`, which becomes its week list; an unreadable week
      field raises. */
  function ToDict(c: Course): (r: Result<CourseDict, String>)
    ensures r.Ok? <==> ParseWeeks(c.zc).Ok?
    ensures r.Ok? ==>
      && r.value.name == c.name && r.value.teacher == c.teacher
      && r.value.jc == c.jc && r.value.classroom == c.classroom
      && r.value.zc == ParseWeeks(c.zc).value
  {
    match ParseWeeks(c.zc)
    case Err(e) => Err(e)
    case Ok(weeks) => Ok(CourseDict(c.name, c.teacher, weeks, c.jc, c.classroom))
  }

  /** `zc, jc = zc_jc.split('[', 1); jc = '[' + jc`: the text before the first `[` and the
      rest from that `[` on. Without a `[` the unpacking raises. */
  function SplitZcJc(zcJc: String): (r: Result<(String, String), String>)
    ensures r.Err? <==> '[' !in zcJc
    ensures r.Ok? ==> r.value.0 + r.value.1 == zcJc
    ensures r.Ok? ==> '[' !in r.value.0 && |r.value.1| > 0 && r.value.1[0] == '['
  {
    ContainsChar(zcJc, '[');
    match IndexOf(zcJc, "[")
    case None => Err(zcJc)
    case Some(i) =>
      OccursAtChar(zcJc, '[', i);
      forall j | 0 <= j < i
        ensures zcJc[j] != '['
      {
        OccursAtChar(zcJc, '[', j);
      }
      assert zcJc == zcJc[..i] + "[" + zcJc[i + 1..];
      Ok((zcJc[..i], "[" + zcJc[i + 1..]))
  }

  /** Cutting a week part and a period part that were joined gives them back. */
  lemma SplitZcJcRoundTrip(zc: String, jc: String)
    requires '[' !in zc && |jc| > 0 && jc[0] == '['
    ensures SplitZcJc(zc + jc) == Ok((zc, jc))
  {
    var s := zc + jc;
    assert OccursAt(s, "[", |zc|) by {
      assert s[|zc|..|zc| + 1] == [s[|zc|]];
    }
    var i := IndexOf(s, "[").value;
    OccursAtChar(s, '[', i);
    assert i == |zc|;
    assert s[..i] == zc;
    assert "[" + s[i + 1..] == jc;
  }
}
