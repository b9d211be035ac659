/**
 * The student-card decoder of `src/academic/student_info.py`, on the texts the page's table
 * cells hold: the third row's `key：value` cells, the bordered rows' cells paired off as
 * key and value, and the text layout of the collected information.
 */
module StudentInfo {
  import opened Wrappers
  import opened Strings
  import opened OrderedDict

  /** One `<td>`: its stripped text, whether it holds an `<img>`, whether its markup mentions
      `rowspan`. */
  datatype Cell = Cell(text: String, hasImage: bool, hasRowspan: bool)

  /** One `<tr>`: its cells, and whether its markup holds `border:1px solid black`. */
  datatype Row = Row(cells: seq<Cell>, bordered: bool)

  // ---------------------------------------------------------------------------------------
  // Pairing the cells of a bordered row
  // ---------------------------------------------------------------------------------------

  const MaxKeyLength: nat := 20

  /** A key and the text after it make an entry when both are non-empty, differ, and the key
      is shorter than 20 characters. */
  predicate Accept(key: String, value: String) {
    key != [] && value != [] && key != value && |key| < MaxKeyLength
  }

  /** The entries the pairing cursor records from index i on: on an accepted pair it records
      and moves past both cells, otherwise it moves one cell. */
  function Pairs(texts: seq<String>, i: nat): (r: seq<(String, String)>)
    requires i <= |texts|
    ensures |r| <= (|texts| - i) / 2
    ensures forall p :: p in r ==> Accept(p.0, p.1)
    decreases |texts| - i
  {
    if i + 1 >= |texts| then []
    else if Accept(texts[i], texts[i + 1]) then [(texts[i], texts[i + 1])] + Pairs(texts, i + 2)
    else Pairs(texts, i + 1)
  }

  /** The `while i < len(cell_texts)` loop: the entries it records, in order. */
  method PairCells(texts: seq<String>) returns (pairs: seq<(String, String)>)
    ensures pairs == Pairs(texts, 0)
  {
    pairs := [];
    var i := 0;
    while i < |texts|
      invariant 0 <= i <= |texts|
      invariant pairs + Pairs(texts, i) == Pairs(texts, 0)
    {
      if i + 1 < |texts| {
        var key := texts[i];
        var value := texts[i + 1];
        if key != [] && value != [] && key != value && |key| < MaxKeyLength {
          assert Pairs(texts, i) == [(key, value)] + Pairs(texts, i + 2);
          assert pairs + [(key, value)] + Pairs(texts, i + 2) == pairs + Pairs(texts, i);
          pairs := pairs + [(key, value)];
          i := i + 2;
        } else {
          i := i + 1;
        }
      } else {
        i := i + 1;
      }
    }
    assert pairs + [] == pairs;
  }

  /** Every recorded entry is two neighbouring cells, key first. */
  lemma {:induction false} PairsAdjacent(texts: seq<String>, i: nat, p: (String, String))
    requires i <= |texts| && p in Pairs(texts, i)
    ensures exists j :: i <= j && j + 1 < |texts| && p == (texts[j], texts[j + 1])
    decreases |texts| - i
  {
    if Accept(texts[i], texts[i + 1]) && p != (texts[i], texts[i + 1]) {
      PairsAdjacent(texts, i + 2, p);
    } else if !Accept(texts[i], texts[i + 1]) {
      PairsAdjacent(texts, i + 1, p);
    }
  }

  /** The cells of accepted entries, key before value. */
  function Flatten(pairs: seq<(String, String)>): (texts: seq<String>)
    ensures |texts| == 2 * |pairs|
  {
    if pairs == [] then [] else [pairs[0].0, pairs[0].1] + Flatten(pairs[1..])
  }

  /** Entries laid out key, value, key, value are read back as exactly those entries. */
  lemma {:induction false} PairsOfFlatten(pairs: seq<(String, String)>, rest: seq<String>)
    requires forall k :: 0 <= k < |pairs| ==> Accept(pairs[k].0, pairs[k].1)
    ensures Pairs(Flatten(pairs) + rest, 0) == pairs + Pairs(rest, 0)
    decreases |pairs|
  {
    var texts := Flatten(pairs) + rest;
    if pairs != [] {
      var p := pairs[0];
      var tail := Flatten(pairs[1..]) + rest;
      assert Flatten(pairs) == [p.0, p.1] + Flatten(pairs[1..]);
      assert texts == [p.0, p.1] + tail;
      assert texts[0] == p.0 && texts[1] == p.1 && Accept(p.0, p.1);
      assert Pairs(texts, 0) == [p] + Pairs(texts, 2);
      PairsShift([p.0, p.1], tail);
      PairsOfFlatten(pairs[1..], rest);
      assert pairs == [p] + pairs[1..];
      EntriesAssoc([p], pairs[1..], Pairs(rest, 0));
    } else {
      assert texts == rest;
    }
  }

  lemma EntriesAssoc(x: seq<(String, String)>, y: seq<(String, String)>, z: seq<(String, String)>)
    ensures x + (y + z) == (x + y) + z
  {
  }

  /** Reading from index 2 of a longer list is reading the list without its first two cells. */
  lemma {:induction false} PairsShift(head: seq<String>, tail: seq<String>)
    requires |head| == 2
    ensures Pairs(head + tail, 2) == Pairs(tail, 0)
  {
    PairsFrom(head, tail, 0);
  }

  lemma {:induction false} PairsFrom(head: seq<String>, tail: seq<String>, i: nat)
    requires i <= |tail|
    ensures Pairs(head + tail, |head| + i) == Pairs(tail, i)
    decreases |tail| - i
  {
    var texts := head + tail;
    if i + 1 < |tail| {
      assert texts[|head| + i] == tail[i] && texts[|head| + i + 1] == tail[i + 1];
      if Accept(tail[i], tail[i + 1]) {
        PairsFrom(head, tail, i + 2);
      } else {
        PairsFrom(head, tail, i + 1);
      }
    }
  }

  /** A rejected cell moves the cursor by one only, so the pairing restarts on the next
      cell. */
  lemma RejectedShifts(texts: seq<String>, i: nat)
    requires i + 1 < |texts| && !Accept(texts[i], texts[i + 1])
    ensures Pairs(texts, i) == Pairs(texts, i + 1)
  {
  }

  /** A cell appended to the row is never read as a key: the entries stay as they were, or
      gain one last entry that pairs the previous last cell with it. */
  lemma {:induction false} AppendedCell(texts: seq<String>, last: String, i: nat)
    requires i <= |texts|
    ensures var before := Pairs(texts, i);
      var after := Pairs(texts + [last], i);
      after == before || (texts != [] && after == before + [(texts[|texts| - 1], last)])
    decreases |texts| - i
  {
    var longer := texts + [last];
    if i + 1 < |texts| {
      assert longer[i] == texts[i] && longer[i + 1] == texts[i + 1];
      if Accept(texts[i], texts[i + 1]) {
        AppendedCell(texts, last, i + 2);
        ConsAppend((texts[i], texts[i + 1]), Pairs(texts, i + 2), (texts[|texts| - 1], last));
      } else {
        AppendedCell(texts, last, i + 1);
      }
    } else if i + 1 == |texts| {
      assert longer[i] == texts[|texts| - 1] && longer[i + 1] == last;
    }
  }

  lemma ConsAppend<T>(x: T, s: seq<T>, y: T)
    ensures [x] + (s + [y]) == ([x] + s) + [y]
  {
  }

  // ---------------------------------------------------------------------------------------
  // The card table
  // ---------------------------------------------------------------------------------------

  const Colon: char := '：'
  const Nbsp: char := '\U{00A0}'

  /** A cell of a bordered row kept for pairing: no image, no `rowspan`. */
  predicate Kept(c: Cell) {
    !c.hasImage && !c.hasRowspan
  }

  /** A kept cell's text without no-break spaces and `&nbsp;` entities. */
  function CellText(c: Cell): (t: String)
    ensures Nbsp !in t
    ensures !Contains(RemoveAll(c.text, Nbsp), "&nbsp;") ==> t == RemoveAll(c.text, Nbsp)
  {
    var noNbsp := Replace(c.text, [Nbsp], "");
    ReplaceCharIsRemoval(c.text, Nbsp);
    ReplaceKeepsAbsent(noNbsp, "&nbsp;", "", Nbsp);
    Replace(noNbsp, "&nbsp;", "")
  }

  /** An `&nbsp;` entity is deleted where it stands, the text before it is kept, and the
      text after it is cleaned the same way. */
  lemma CellTextEntity(c: Cell, a: String, b: String)
    requires c.text == a + "&nbsp;" + b
    requires '&' !in a && Nbsp !in a
    ensures CellText(c) == a + CellText(c.(text := b))
  {
    ReplaceCharIsRemoval(c.text, Nbsp);
    ReplaceCharIsRemoval(b, Nbsp);
    var rest := RemoveAll(b, Nbsp);
    NbspRemovedAround(a, b);
    EntityReplacedAt(a, rest);
  }

  /** Deleting no-break spaces leaves an entity, and the text before it, in place. */
  lemma NbspRemovedAround(a: String, b: String)
    requires Nbsp !in a
    ensures RemoveAll(a + "&nbsp;" + b, Nbsp) == a + "&nbsp;" + RemoveAll(b, Nbsp)
  {
    var entity := "&nbsp;";
    assert Nbsp !in entity;
    RemoveAllAbsent(a, Nbsp);
    RemoveAllAbsent(entity, Nbsp);
    RemoveAllAppend(a + entity, b, Nbsp);
    RemoveAllAppend(a, entity, Nbsp);
  }

  /** Deleting entities deletes the first one after an `&`-free prefix and goes on after it. */
  lemma EntityReplacedAt(a: String, rest: String)
    requires '&' !in a
    ensures Replace(a + "&nbsp;" + rest, "&nbsp;", "") == a + Replace(rest, "&nbsp;", "")
  {
    var entity := "&nbsp;";
    var s := a + entity + rest;
    EntityAt(a, rest);
    assert |entity| == 6;
    assert s[..|a|] == a;
    assert s[|a| + |entity|..] == rest;
    ReplaceFirst(s, entity, [], |a|, a, rest);
    assert a + [] == a;
  }

  /** The first `&nbsp;` of `a + "&nbsp;" + rest` is the one after `a` when `a` holds no `&`. */
  lemma EntityAt(a: String, rest: String)
    requires '&' !in a
    ensures IndexOf(a + "&nbsp;" + rest, "&nbsp;") == Some(|a|)
  {
    var s := a + "&nbsp;" + rest;
    assert s[|a|..|a| + 6] == "&nbsp;";
    assert OccursAt(s, "&nbsp;", |a|);
    forall j | 0 <= j < |a|
      ensures !OccursAt(s, "&nbsp;", j)
    {
      assert s[j] == a[j];
    }
  }

  /** The texts of a bordered row's kept cells, in order. */
  function KeptTexts(cells: seq<Cell>): (r: seq<String>)
    ensures |r| <= |cells|
    ensures forall t :: t in r ==> Nbsp !in t
  {
    if cells == [] then []
    else (if Kept(cells[0]) then [CellText(cells[0])] else []) + KeptTexts(cells[1..])
  }

  /** Reading cells in two runs reads the first run's kept texts, then the second's. */
  lemma {:induction false} KeptTextsAppend(a: seq<Cell>, b: seq<Cell>)
    ensures KeptTexts(a + b) == KeptTexts(a) + KeptTexts(b)
    decreases |a|
  {
    if a == [] {
      assert a + b == b;
    } else {
      var head := (if Kept(a[0]) then [CellText(a[0])] else []);
      assert (a + b)[0] == a[0] && (a + b)[1..] == a[1..] + b;
      assert KeptTexts(a + b) == head + KeptTexts(a[1..] + b);
      KeptTextsAppend(a[1..], b);
      Assoc(head, KeptTexts(a[1..]), KeptTexts(b));
    }
  }

  /** Wherever it stands, a cell holding an image or a `rowspan` adds nothing, and any other
      cell adds its cleaned text in its place. */
  lemma KeptTextsCell(a: seq<Cell>, c: Cell, b: seq<Cell>)
    ensures KeptTexts(a + [c] + b) == KeptTexts(a) + (if Kept(c) then [CellText(c)] else []) + KeptTexts(b)
  {
    KeptTextsAppend(a + [c], b);
    KeptTextsAppend(a, [c]);
    assert [c][1..] == [];
  }

  lemma Assoc<T>(x: seq<T>, y: seq<T>, z: seq<T>)
    ensures x + (y + z) == (x + y) + z
  {
  }

  /** The entry one cell of the third row offers: the two pieces around its `：` when the
      text splits on `：` into exactly two pieces, and nothing otherwise. */
  function ColonEntry(c: Cell): (r: seq<(String, String)>)
    ensures |r| <= 1
    ensures forall p :: p in r ==> Colon !in p.0 && Colon !in p.1
  {
    var parts := Split(c.text, [Colon]);
    if |parts| == 2 then
      SplitPiecesFree(c.text, [Colon]);
      ContainsChar(parts[0], Colon);
      ContainsChar(parts[1], Colon);
      [(parts[0], parts[1])]
    else []
  }

  /** The third row's entries, cell by cell. */
  function ColonEntries(cells: seq<Cell>): (r: seq<(String, String)>)
    ensures |r| <= |cells|
    ensures forall p :: p in r ==> Colon !in p.0 && Colon !in p.1
  {
    if cells == [] then [] else ColonEntry(cells[0]) + ColonEntries(cells[1..])
  }

  /** Reading the third row's cells in two runs gives the first run's entries, then the
      second's. */
  lemma {:induction false} ColonEntriesAppend(a: seq<Cell>, b: seq<Cell>)
    ensures ColonEntries(a + b) == ColonEntries(a) + ColonEntries(b)
    decreases |a|
  {
    if a == [] {
      assert a + b == b;
    } else {
      var head := ColonEntry(a[0]);
      assert (a + b)[0] == a[0] && (a + b)[1..] == a[1..] + b;
      assert ColonEntries(a + b) == head + ColonEntries(a[1..] + b);
      ColonEntriesAppend(a[1..], b);
      Assoc(head, ColonEntries(a[1..]), ColonEntries(b));
    }
  }

  /** Wherever it stands, a cell adds its own entry, if any, in its place. */
  lemma ColonEntriesCell(a: seq<Cell>, c: Cell, b: seq<Cell>)
    ensures ColonEntries(a + [c] + b) == ColonEntries(a) + ColonEntry(c) + ColonEntries(b)
  {
    ColonEntriesAppend(a + [c], b);
    ColonEntriesAppend(a, [c]);
    assert [c][1..] == [];
    assert ColonEntries([c]) == ColonEntry(c) + [];
    assert ColonEntry(c) + [] == ColonEntry(c);
  }

  /** A `key：value` cell with no other `：` gives exactly that entry. */
  lemma ColonEntryRoundTrip(key: String, value: String, c: Cell)
    requires Colon !in key && Colon !in value && c.text == key + [Colon] + value
    ensures ColonEntries([c]) == [(key, value)]
  {
    SplitJoin([key, value], Colon);
    assert Join([key, value], [Colon]) == key + [Colon] + value;
    assert [c][1..] == [];
  }

  /** The entries one row adds at index `idx`: empty rows add nothing; row 2 adds its colon
      cells; other bordered rows add their paired cells. */
  function RowEntries(row: Row, idx: nat): seq<(String, String)> {
    if row.cells == [] then []
    else if idx == 2 then ColonEntries(row.cells)
    else if row.bordered then Pairs(KeptTexts(row.cells), 0)
    else []
  }

  /** Every entry the rows from `idx` on offer, in row order. Row `idx` keeps its index in
      the table, empty rows included. */
  function AllEntries(rows: seq<Row>, idx: nat): seq<(String, String)>
    requires idx <= |rows|
    decreases |rows| - idx
  {
    if idx == |rows| then [] else RowEntries(rows[idx], idx) + AllEntries(rows, idx + 1)
  }

  /** `parse_student_card_table`: every row's entries assigned to one dictionary in row
      order. */
  function ParseCardTable(rows: seq<Row>): (r: Dict)
    ensures KeysDistinct(r)
  {
    PutAllLastWins([], AllEntries(rows, 0));
    PutAll([], AllEntries(rows, 0))
  }

  /** Each key of the card holds the value of the last row entry for it, and every entry of
      the card is one some row offered. */
  lemma CardLastWins(rows: seq<Row>, k: String)
    ensures Find(ParseCardTable(rows), k) == LastValue(AllEntries(rows, 0), k)
    ensures HasKey(ParseCardTable(rows), k) ==> (k, Find(ParseCardTable(rows), k).value) in AllEntries(rows, 0)
  {
    PutAllLastWins([], AllEntries(rows, 0));
    if LastValue(AllEntries(rows, 0), k).Some? {
      LastValueIn(AllEntries(rows, 0), k);
    }
  }

  /** Rows other than the third that carry no border offer nothing. */
  lemma PlainRowIgnored(rows: seq<Row>, idx: nat)
    requires idx < |rows| && idx != 2 && !rows[idx].bordered
    ensures AllEntries(rows, idx) == AllEntries(rows, idx + 1)
  {
  }

  // ---------------------------------------------------------------------------------------
  // The whole record
  // ---------------------------------------------------------------------------------------

  const TitleKey: String := "页面标题"
  const PhotoKey: String := "学生照片URL"

  /** One `<img>`: its `src` and `alt` (missing ones read as empty). */
  datatype Image = Image(src: String, alt: String)

  predicate PhotoLike(img: Image) {
    Contains(img.src, "xszpLoad") || Contains(img.alt, "照片")
  }

  /** Image `k` is photo-like and none before it is. */
  predicate FirstPhoto(images: seq<Image>, k: nat) {
    k < |images| && PhotoLike(images[k]) && forall j :: 0 <= j < k ==> !PhotoLike(images[j])
  }

  /** The first image that is the student's photo: `xszpLoad` in its source or `照片` in its
      alternative text. */
  function PhotoSource(images: seq<Image>): (r: Option<String>)
    ensures r.Some? <==> (exists k :: 0 <= k < |images| && PhotoLike(images[k]))
    ensures r.Some? ==> (exists k :: 0 <= k < |images| && FirstPhoto(images, k) && r.value == images[k].src)
  {
    if images == [] then None
    else if PhotoLike(images[0]) then Some(images[0].src)
    else
      assert forall k :: 1 <= k < |images| ==> images[k] == images[1..][k - 1];
      var r := PhotoSource(images[1..]);
      if r.Some? then
        var k :| 0 <= k < |images| - 1 && FirstPhoto(images[1..], k) && r.value == images[1..][k].src;
        assert forall j :: 0 <= j < k + 1 ==> !PhotoLike(images[j]) by {
          forall j | 0 <= j < k + 1 ensures !PhotoLike(images[j]) {
            if j > 0 { assert images[j] == images[1..][j - 1]; }
          }
        }
        r
      else r
  }

  /** `get_student_info` once the page is fetched: the title, then the card table's entries,
      then the photo's source. */
  function StudentRecord(title: Option<String>, card: Option<seq<Row>>, images: seq<Image>): (r: Dict)
    ensures KeysDistinct(r)
    ensures PhotoSource(images).Some? ==> Find(r, PhotoKey) == PhotoSource(images)
  {
    var withTitle := if title.Some? then [(TitleKey, title.value)] else [];
    var withCard := if card.Some? then PutAll(withTitle, ParseCardTable(card.value)) else withTitle;
    PutAllLastWins(withTitle, if card.Some? then ParseCardTable(card.value) else []);
    match PhotoSource(images)
    case None => withCard
    case Some(src) =>
      PutKeepsDistinct(withCard, PhotoKey, src);
      Put(withCard, PhotoKey, src)
  }

  /** What the record holds under each key: the photo's source under `学生照片URL` when
      there is a photo, else the card's value when the card has the key, else the page
      title under `页面标题`, else nothing. */
  lemma StudentRecordEntries(title: Option<String>, card: Option<seq<Row>>, images: seq<Image>,
                             k: String)
    ensures var cardDict := if card.Some? then ParseCardTable(card.value) else [];
      Find(StudentRecord(title, card, images), k)
        == if k == PhotoKey && PhotoSource(images).Some? then PhotoSource(images)
           else if HasKey(cardDict, k) then Find(cardDict, k)
           else if title.Some? && k == TitleKey then title
           else None
  {
    var cardDict := if card.Some? then ParseCardTable(card.value) else [];
    var withTitle := if title.Some? then [(TitleKey, title.value)] else [];
    PutAllLastWins(withTitle, cardDict);
    FindIsLastValue(cardDict, k);
    assert Find(withTitle, k) == if title.Some? && k == TitleKey then title else None;
  }

  // ---------------------------------------------------------------------------------------
  // Formatting
  // ---------------------------------------------------------------------------------------

  const ImportantKeys: seq<String> := ["姓名", "学号", "性别", "专业", "班级", "年级", "学院", "院系"]
  const NoInfo: String := "❌ 无学生信息"
  const Heading: String := "📋 学生信息"

  function EntryLine(key: String, value: String): String {
    key + ": " + value
  }

  /** The line of one important key: `key: value` when the information holds the key. */
  function ImportantLine(info: Dict, key: String): (r: seq<String>)
    ensures |r| <= 1
    ensures r != [] <==> HasKey(info, key)
  {
    match Find(info, key)
    case Some(v) => [EntryLine(key, v)]
    case None => []
  }

  /** The important keys present, in their fixed order. */
  function ImportantLines(info: Dict, keys: seq<String>): (r: seq<String>)
    ensures |r| <= |keys|
  {
    if keys == [] then [] else ImportantLine(info, keys[0]) + ImportantLines(info, keys[1..])
  }

  /** Listing the important keys in two runs lists the first run's lines, then the
      second's. */
  lemma {:induction false} ImportantLinesAppend(info: Dict, a: seq<String>, b: seq<String>)
    ensures ImportantLines(info, a + b) == ImportantLines(info, a) + ImportantLines(info, b)
    decreases |a|
  {
    if a == [] {
      assert a + b == b;
    } else {
      var head := ImportantLine(info, a[0]);
      assert (a + b)[0] == a[0] && (a + b)[1..] == a[1..] + b;
      assert ImportantLines(info, a + b) == head + ImportantLines(info, a[1..] + b);
      ImportantLinesAppend(info, a[1..], b);
      Assoc(head, ImportantLines(info, a[1..]), ImportantLines(info, b));
    }
  }

  /** Wherever it stands in the key list, an important key adds `key: value` in its place
      when the information holds it, and nothing otherwise. */
  lemma ImportantLinesKey(info: Dict, a: seq<String>, key: String, b: seq<String>)
    ensures ImportantLines(info, a + [key] + b)
      == ImportantLines(info, a)
        + (if HasKey(info, key) then [EntryLine(key, Find(info, key).value)] else [])
        + ImportantLines(info, b)
  {
    ImportantLinesAppend(info, a + [key], b);
    ImportantLinesAppend(info, a, [key]);
    assert [key][1..] == [];
    var line := ImportantLine(info, key);
    assert ImportantLines(info, [key]) == line + [];
    assert line + [] == line;
    assert line == if HasKey(info, key) then [EntryLine(key, Find(info, key).value)] else [];
  }

  /** Keys listed in the middle section: neither important nor the photo nor the title. */
  predicate Other(key: String) {
    key !in ImportantKeys && key != PhotoKey && key != TitleKey
  }

  /** The other entries, in the dictionary's order. */
  function OtherLines(info: Dict): (r: seq<String>)
    ensures |r| <= |info|
  {
    if info == [] then []
    else (if Other(info[0].0) then [EntryLine(info[0].0, info[0].1)] else []) + OtherLines(info[1..])
  }

  /** Listing a dictionary in two runs lists the first run's other entries, then the
      second's. */
  lemma {:induction false} OtherLinesAppend(a: Dict, b: Dict)
    ensures OtherLines(a + b) == OtherLines(a) + OtherLines(b)
    decreases |a|
  {
    if a == [] {
      assert a + b == b;
    } else {
      var head := if Other(a[0].0) then [EntryLine(a[0].0, a[0].1)] else [];
      assert (a + b)[0] == a[0] && (a + b)[1..] == a[1..] + b;
      assert OtherLines(a + b) == head + OtherLines(a[1..] + b);
      OtherLinesAppend(a[1..], b);
      assert OtherLines(a) == head + OtherLines(a[1..]);
    }
  }

  /** Wherever it stands, an entry adds its `key: value` line in its place when its key is
      neither important nor the photo or the title, and nothing otherwise. */
  lemma OtherLinesEntry(a: Dict, e: (String, String), b: Dict)
    ensures OtherLines(a + [e] + b)
      == OtherLines(a) + (if Other(e.0) then [EntryLine(e.0, e.1)] else []) + OtherLines(b)
  {
    OtherLinesAppend(a + [e], b);
    OtherLinesAppend(a, [e]);
    assert [e][1..] == [];
  }

  /** The lines `format_student_info` joins: the heading and a rule of `=`, the important
      lines, a rule of `-`, the other lines, then the photo lines. */
  function FormatLines(info: Dict): (r: seq<String>)
    requires info != []
    ensures var important := ImportantLines(info, ImportantKeys);
      var other := OtherLines(info);
      && |r| == 3 + |important| + |other| + (if HasKey(info, PhotoKey) then 2 else 0)
      && r[..2] == [Heading, Repeat('=', 40)]
      && r[2..2 + |important|] == important
      && r[2 + |important|] == Repeat('-', 40)
      && r[3 + |important|..3 + |important| + |other|] == other
      && r[3 + |important| + |other|..] == PhotoLines(info)
  {
    var head := [Heading, Repeat('=', 40)];
    var important := ImportantLines(info, ImportantKeys);
    var rule := Repeat('-', 40);
    var other := OtherLines(info);
    var photo := PhotoLines(info);
    LayoutSlices(head, important, rule, other, photo);
    head + important + [rule] + other + photo
  }

  lemma LayoutSlices(head: seq<String>, middle: seq<String>, rule: String, other: seq<String>,
                     photo: seq<String>)
    requires |head| == 2
    ensures var r := head + middle + [rule] + other + photo;
      && |r| == 3 + |middle| + |other| + |photo| && r[..2] == head
      && r[2..2 + |middle|] == middle && r[2 + |middle|] == rule
      && r[3 + |middle|..3 + |middle| + |other|] == other
      && r[3 + |middle| + |other|..] == photo
  {
    var upper := head + middle + [rule];
    assert upper[..2] == head && upper[2..2 + |middle|] == middle;
    var lower := upper + other;
    assert lower[|upper|..] == other;
    var r := lower + photo;
    assert r[..|upper|] == upper;
    assert r[..|lower|] == lower;
    assert r[|lower|..] == photo;
  }

  /** The photo lines closing the text when the record has a photo. */
  function PhotoLines(info: Dict): (r: seq<String>)
    ensures |r| == if HasKey(info, PhotoKey) then 2 else 0
  {
    match Find(info, PhotoKey)
    case Some(src) => [Repeat('-', 40), "学生照片: " + src]
    case None => []
  }

  /** `format_student_info`. */
  function FormatStudentInfo(info: Dict): (r: String)
    ensures info == [] <==> r == NoInfo
  {
    if info == [] then NoInfo
    else
      var lines := FormatLines(info);
      JoinLong(lines);
      Join(lines, "\n")
  }

  /** Joining more than one line yields more than the first line. */
  lemma JoinLong(lines: seq<String>)
    requires |lines| >= 3 && lines[0] == Heading
    ensures Join(lines, "\n") != NoInfo
  {
    assert Join(lines, "\n") == Heading + "\n" + Join(lines[1..], "\n");
    assert Join(lines, "\n")[0] != NoInfo[0];
  }

  /** No line of the layout holds a line break when no key or value does. */
  predicate NoBreaks(info: Dict) {
    forall i :: 0 <= i < |info| ==> '\n' !in info[i].0 && '\n' !in info[i].1
  }

  lemma {:induction false} ImportantLinesFree(info: Dict, keys: seq<String>)
    requires NoBreaks(info) && forall j :: 0 <= j < |keys| ==> '\n' !in keys[j]
    ensures LinesFree(ImportantLines(info, keys))
    decreases |keys|
  {
    if keys != [] {
      ImportantLinesFree(info, keys[1..]);
    }
  }

  lemma {:induction false} OtherLinesFree(info: Dict)
    requires NoBreaks(info)
    ensures LinesFree(OtherLines(info))
    decreases |info|
  {
    if info != [] {
      OtherLinesFree(info[1..]);
    }
  }

  /** Reading the text back line by line gives exactly the layout's lines. */
  lemma FormatReadsBack(info: Dict)
    requires info != [] && NoBreaks(info)
    ensures Split(FormatStudentInfo(info), "\n") == FormatLines(info)
  {
    var head := [Heading, Repeat('=', 40)];
    var important := ImportantLines(info, ImportantKeys);
    var upper := head + important + [Repeat('-', 40)];
    RepeatFree('=', 40);
    RepeatFree('-', 40);
    assert LinesFree(head);
    ImportantLinesFree(info, ImportantKeys);
    LinesFreeAppend(head, important);
    LinesFreeAppend(head + important, [Repeat('-', 40)]);
    OtherLinesFree(info);
    LinesFreeAppend(upper, OtherLines(info));
    PhotoLinesFree(info);
    LinesFreeAppend(upper + OtherLines(info), PhotoLines(info));
    SplitJoin(FormatLines(info), '\n');
  }

  /** No line holds a line break. */
  predicate LinesFree(lines: seq<String>) {
    forall j :: 0 <= j < |lines| ==> '\n' !in lines[j]
  }

  lemma LinesFreeAppend(a: seq<String>, b: seq<String>)
    requires LinesFree(a) && LinesFree(b)
    ensures LinesFree(a + b)
  {
    forall j | 0 <= j < |a + b|
      ensures '\n' !in (a + b)[j]
    {
      if j >= |a| {
        assert (a + b)[j] == b[j - |a|];
      }
    }
  }

  lemma RepeatFree(c: char, n: nat)
    requires c != '\n'
    ensures '\n' !in Repeat(c, n)
  {
  }

  lemma PhotoLinesFree(info: Dict)
    requires NoBreaks(info)
    ensures LinesFree(PhotoLines(info))
  {
    match Find(info, PhotoKey)
    case Some(src) =>
      RepeatFree('-', 40);
      assert '\n' !in "学生照片: " + src;
    case None =>
  }
}
