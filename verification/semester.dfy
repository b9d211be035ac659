/**
 * `get_semester` of `src/academic/semester.py` once the page is fetched: the semester
 * `<select id="xnxq01id">`, the current (selected) semester and the user name from the
 * login-name `<div>`.
 */
module Semester {
  import opened Wrappers
  import opened Strings

  /** One `<option>`: its stripped text and the value of its `selected` attribute, if any. */
  datatype Choice = Choice(text: String, selected: Option<String>)

  /** What the page offers: the options of the semester select, if the select is present,
      and the stripped text of the login-name `<div>`, if present. */
  datatype Page = Page(options: Option<seq<Choice>>, loginName: Option<String>)

  /** The semester list, the current semester and the user name. */
  datatype SemesterInfo = SemesterInfo(semesters: seq<String>, current: String, userName: String)

  /** `find('option', attrs={'selected': 'selected'})` matches the attribute's exact value. */
  predicate Marked(c: Choice) {
    c.selected == Some("selected")
  }

  /** The text of the first marked option, or the empty string. */
  function Current(options: seq<Choice>): (r: String)
    ensures (forall i :: 0 <= i < |options| ==> !Marked(options[i])) ==> r == []
    ensures (exists i :: 0 <= i < |options| && Marked(options[i])) ==>
      exists i :: (0 <= i < |options| && Marked(options[i]) && r == options[i].text
        && forall j :: 0 <= j < i ==> !Marked(options[j]))
  {
    if options == [] then []
    else if Marked(options[0]) then options[0].text
    else
      var r := Current(options[1..]);
      assert forall i :: 1 <= i < |options| ==> options[i] == options[1..][i - 1];
      if exists i :: 0 <= i < |options| && Marked(options[i]) then
        var k :| 0 <= k < |options| - 1 && Marked(options[1..][k]) && r == options[1..][k].text
          && forall j :: 0 <= j < k ==> !Marked(options[1..][j]);
        assert forall j :: 0 <= j < k + 1 ==> !Marked(options[j]) by {
          forall j | 0 <= j < k + 1 ensures !Marked(options[j]) {
            if j > 0 { assert options[j] == options[1..][j - 1]; }
          }
        }
        r
      else r
  }

  /** The non-empty option texts in document order. */
  function SemesterList(options: seq<Choice>): (r: seq<String>)
    ensures |r| <= |options|
    ensures forall s :: s in r ==> s != [] && exists i :: 0 <= i < |options| && options[i].text == s
  {
    if options == [] then []
    else
      var rest := SemesterList(options[1..]);
      assert forall i :: 1 <= i < |options| ==> options[i] == options[1..][i - 1];
      (if options[0].text != [] then [options[0].text] else []) + rest
  }

  /** Listing options in two runs lists the first run's semesters, then the second's. */
  lemma {:induction false} SemesterListAppend(a: seq<Choice>, b: seq<Choice>)
    ensures SemesterList(a + b) == SemesterList(a) + SemesterList(b)
    decreases |a|
  {
    if a == [] {
      assert a + b == b;
    } else {
      var head := (if a[0].text != [] then [a[0].text] else []);
      assert (a + b)[0] == a[0] && (a + b)[1..] == a[1..] + b;
      assert SemesterList(a + b) == head + SemesterList(a[1..] + b);
      SemesterListAppend(a[1..], b);
      assert SemesterList(a) == head + SemesterList(a[1..]);
    }
  }

  /** Wherever it stands, an option adds its text in its place when non-empty, and nothing
      otherwise: the list follows document order. */
  lemma SemesterListOption(a: seq<Choice>, o: Choice, b: seq<Choice>)
    ensures SemesterList(a + [o] + b) == SemesterList(a) + (if o.text != [] then [o.text] else []) + SemesterList(b)
  {
    SemesterListAppend(a + [o], b);
    SemesterListAppend(a, [o]);
    assert [o][1..] == [];
  }

  /** Every option with a non-empty text is listed. */
  lemma {:induction false} SemesterListComplete(options: seq<Choice>, i: nat)
    requires i < |options| && options[i].text != []
    ensures options[i].text in SemesterList(options)
    decreases |options|
  {
    if i > 0 {
      assert options[i] == options[1..][i - 1];
      SemesterListComplete(options[1..], i - 1);
    }
  }

  /** The login name up to its first `(`; the empty string without the `<div>`. */
  function UserName(loginName: Option<String>): (r: String)
    ensures '(' !in r
    ensures loginName.None? ==> r == []
    ensures loginName.Some? ==> |r| <= |loginName.value| && loginName.value[..|r|] == r
    ensures loginName.Some? && |r| < |loginName.value| ==> loginName.value[|r|] == '('
  {
    match loginName
    case None => []
    case Some(text) =>
      var r := Split(text, "(")[0];
      UserNameCut(text);
      r
  }

  lemma UserNameCut(text: String)
    ensures var r := Split(text, "(")[0];
      && '(' !in r && |r| <= |text| && text[..|r|] == r
      && (|r| < |text| ==> text[|r|] == '(')
  {
    var parts := Split(text, "(");
    SplitPiecesFree(text, "(");
    ContainsChar(parts[0], '(');
    match IndexOf(text, "(")
    case None =>
      SplitWithout(text, "(");
    case Some(i) =>
      PrefixBeforeFirstOccurrence(text, "(", i);
      OccursAtChar(text, '(', i);
  }

  /** A name followed by a parenthesised remark yields the name. */
  lemma UserNameRoundTrip(name: String, remark: String)
    requires '(' !in name
    ensures UserName(Some(name + "(" + remark)) == name
  {
    var text := name + "(" + remark;
    assert text[..|name|] == name && text[|name|] == '(';
  }

  /** `get_semester`: nothing without the semester select; otherwise the listed semesters,
      the current one and the user name. */
  function GetSemester(page: Page): (r: Option<SemesterInfo>)
    ensures r.None? <==> page.options.None?
    ensures r.Some? ==> r.value.userName == UserName(page.loginName)
  {
    match page.options
    case None => None
    case Some(options) => Some(SemesterInfo(SemesterList(options), Current(options), UserName(page.loginName)))
  }

  /** A non-empty current semester is always one of the listed semesters. */
  lemma CurrentIsListed(page: Page)
    requires GetSemester(page).Some? && GetSemester(page).value.current != []
    ensures GetSemester(page).value.current in GetSemester(page).value.semesters
  {
    var options := page.options.value;
    var i :| 0 <= i < |options| && Marked(options[i]) && Current(options) == options[i].text;
    SemesterListComplete(options, i);
  }
}
