/**
 * The table reader shared by `src/academic/exam_schedule.py` and `src/academic/evaluation.py`:
 * every `<table>` of the page is a sequence of rows of stripped cell texts; the first row
 * names the columns, every later row with enough cells becomes one record, and the records
 * are laid out as numbered text blocks.
 */
module TableRecords {
  import opened Wrappers
  import opened Strings
  import opened OrderedDict

  /** A row: the stripped texts of its `<td>`/`<th>` cells. */
  type Row = seq<String>

  /** A table: its rows in document order. */
  type Table = seq<Row>

  // ---------------------------------------------------------------------------------------
  // Reading
  // ---------------------------------------------------------------------------------------

  /** The assignments `record[headers[i]] = cells[i]` for the first `n` columns. */
  function Columns(headers: seq<String>, cells: Row, n: nat): (r: seq<(String, String)>)
    requires n <= |headers| <= |cells|
    ensures |r| == n
    ensures forall i :: 0 <= i < n ==> r[i] == (headers[i], cells[i])
  {
    if n == 0 then [] else Columns(headers, cells, n - 1) + [(headers[n - 1], cells[n - 1])]
  }

  /** One row keyed by the headers, in header order; a repeated header keeps its first place
      and its last cell. */
  function Zip(headers: seq<String>, cells: Row): (r: Dict)
    requires |headers| <= |cells|
    ensures KeysDistinct(r)
    ensures forall k :: Find(r, k) == LastValue(Columns(headers, cells, |headers|), k)
  {
    PutAllLastWins([], Columns(headers, cells, |headers|));
    PutAll([], Columns(headers, cells, |headers|))
  }

  /** The record has exactly the header names as keys, and each holds the cell under its
      last occurrence among the headers. */
  lemma ZipKeys(headers: seq<String>, cells: Row, k: String)
    requires |headers| <= |cells|
    ensures HasKey(Zip(headers, cells), k) <==> k in headers
    ensures HasKey(Zip(headers, cells), k) ==>
      exists i :: (0 <= i < |headers| && headers[i] == k && Find(Zip(headers, cells), k) == Some(cells[i])
        && forall j :: i < j < |headers| ==> headers[j] != k)
  {
    var cols := Columns(headers, cells, |headers|);
    if k in headers {
      var i :| 0 <= i < |headers| && headers[i] == k;
      assert cols[i].0 == k;
      LastValueSome(cols, i);
    }
    if LastValue(cols, k).Some? {
      LastColumn(headers, cells, |headers|, k);
    }
  }

  /** Where the last assignment to `k` among the first `n` columns comes from. */
  lemma {:induction false} LastColumn(headers: seq<String>, cells: Row, n: nat, k: String)
    requires n <= |headers| <= |cells|
    requires LastValue(Columns(headers, cells, n), k).Some?
    ensures exists i :: (0 <= i < n && headers[i] == k && LastValue(Columns(headers, cells, n), k) == Some(cells[i])
      && forall j :: i < j < n ==> headers[j] != k)
    decreases n
  {
    var cols := Columns(headers, cells, n);
    assert cols[..n - 1] == Columns(headers, cells, n - 1);
    if headers[n - 1] != k {
      LastColumn(headers, cells, n - 1, k);
    }
  }

  /** With distinct headers, the record lists the headers and their cells in column order,
      so the headers and the used cells can be read back from it. */
  lemma ZipDistinct(headers: seq<String>, cells: Row)
    requires |headers| <= |cells|
    requires forall i, j :: 0 <= i < j < |headers| ==> headers[i] != headers[j]
    ensures Zip(headers, cells) == Columns(headers, cells, |headers|)
  {
    var cols := Columns(headers, cells, |headers|);
    assert KeysDistinct(cols);
    PutAllDistinct(cols);
  }

  /** Non-empty headers give a non-empty record. */
  lemma ZipNonEmpty(headers: seq<String>, cells: Row)
    requires headers != [] && |headers| <= |cells|
    ensures Zip(headers, cells) != []
  {
    ZipKeys(headers, cells, headers[0]);
  }

  /** The records of one table: the first row gives the headers; a later row with at least
      as many cells becomes a record, unless the record is empty. */
  function TableRecords(table: Table): (r: seq<Dict>)
    ensures forall i :: 0 <= i < |r| ==> r[i] != [] && KeysDistinct(r[i])
    ensures |r| <= if table == [] then 0 else |table| - 1
  {
    if table == [] then [] else RowRecords(table[0], table[1..])
  }

  /** The records the rows give under the given headers. */
  function RowRecords(headers: seq<String>, rows: seq<Row>): (r: seq<Dict>)
    ensures forall i :: 0 <= i < |r| ==> r[i] != [] && KeysDistinct(r[i])
    ensures |r| <= |rows|
  {
    if rows == [] then []
    else
      var rest := RowRecords(headers, rows[1..]);
      if |rows[0]| >= |headers| && Zip(headers, rows[0]) != [] then [Zip(headers, rows[0])] + rest
      else rest
  }

  /** Rows with too few cells are skipped. */
  predicate Wide(headers: seq<String>, row: Row) {
    |row| >= |headers|
  }

  /** The number of rows wide enough for the headers. */
  function WideCount(headers: seq<String>, rows: seq<Row>): nat {
    if rows == [] then 0 else (if Wide(headers, rows[0]) then 1 else 0) + WideCount(headers, rows[1..])
  }

  /** An empty record arises exactly when there are no headers: then the table gives no
      records at all; otherwise one record per wide row, in row order. */
  lemma {:induction false} RowRecordsCount(headers: seq<String>, rows: seq<Row>)
    ensures headers == [] ==> RowRecords(headers, rows) == []
    ensures headers != [] ==> |RowRecords(headers, rows)| == WideCount(headers, rows)
    decreases |rows|
  {
    if rows != [] {
      RowRecordsCount(headers, rows[1..]);
      if |rows[0]| >= |headers| && headers != [] {
        ZipNonEmpty(headers, rows[0]);
      }
    }
  }

  /** The records of a wide row list sit where the rows were. */
  lemma {:induction false} RowRecordsAll(headers: seq<String>, rows: seq<Row>)
    requires headers != []
    requires forall i :: 0 <= i < |rows| ==> |rows[i]| >= |headers|
    ensures |RowRecords(headers, rows)| == |rows|
    ensures forall i :: 0 <= i < |rows| ==> RowRecords(headers, rows)[i] == Zip(headers, rows[i])
    decreases |rows|
  {
    if rows != [] {
      var tail := rows[1..];
      RowRecordsAll(headers, tail);
      ZipNonEmpty(headers, rows[0]);
      var rest := RowRecords(headers, tail);
      var all := RowRecords(headers, rows);
      assert all == [Zip(headers, rows[0])] + rest;
    }
  }

  /** All tables' records, concatenated in table order. */
  function Records(tables: seq<Table>): (r: seq<Dict>)
    ensures forall i :: 0 <= i < |r| ==> r[i] != [] && KeysDistinct(r[i])
  {
    if tables == [] then [] else TableRecords(tables[0]) + Records(tables[1..])
  }

  /** Reading two groups of tables is reading each and concatenating. */
  lemma {:induction false} RecordsAppend(a: seq<Table>, b: seq<Table>)
    ensures Records(a + b) == Records(a) + Records(b)
    decreases |a|
  {
    if a == [] {
      assert a + b == b;
    } else {
      assert (a + b)[0] == a[0];
      assert (a + b)[1..] == a[1..] + b;
      RecordsAppend(a[1..], b);
    }
  }

  // ---------------------------------------------------------------------------------------
  // Formatting
  // ---------------------------------------------------------------------------------------

  /** The words of one listing: the text for no records, the title, and the label each
      numbered block starts with. */
  datatype Labels = Labels(none: String, title: String, entry: String)

  function EntryLine(key: String, value: String): String {
    key + ": " + value
  }

  /** The lines of a record's entries whose value is non-empty, in the record's order. */
  function ValueLines(rec: Dict): (r: seq<String>)
    ensures |r| <= |rec|
    ensures forall j :: 0 <= j < |r| ==>
      exists i :: 0 <= i < |rec| && rec[i].1 != [] && r[j] == EntryLine(rec[i].0, rec[i].1)
  {
    if rec == [] then []
    else
      var rest := ValueLines(rec[1..]);
      assert forall i :: 1 <= i < |rec| ==> rec[i] == rec[1..][i - 1];
      (if rec[0].1 != [] then [EntryLine(rec[0].0, rec[0].1)] else []) + rest
  }

  /** Every entry with a non-empty value is listed. */
  lemma {:induction false} ValueLinesComplete(rec: Dict, i: nat)
    requires i < |rec| && rec[i].1 != []
    ensures EntryLine(rec[i].0, rec[i].1) in ValueLines(rec)
    decreases |rec|
  {
    if i > 0 {
      assert rec[i] == rec[1..][i - 1];
      ValueLinesComplete(rec[1..], i - 1);
    }
  }

  /** The block of record number `n`. */
  function Block(labels: Labels, n: nat, rec: Dict): (r: seq<String>)
    ensures |r| >= 2 && r[0] == "\n" + labels.entry + " " + NatToString(n) && r[1] == Repeat('-', 30)
    ensures r[2..] == ValueLines(rec)
  {
    ["\n" + labels.entry + " " + NatToString(n), Repeat('-', 30)] + ValueLines(rec)
  }

  /** The blocks of the records, numbered from `first`. */
  function Blocks(labels: Labels, first: nat, recs: seq<Dict>): seq<String>
    decreases |recs|
  {
    if recs == [] then [] else Block(labels, first, recs[0]) + Blocks(labels, first + 1, recs[1..])
  }

  /** One more record adds its block, numbered one past the last, at the end. */
  lemma {:induction false} BlocksAppend(labels: Labels, first: nat, recs: seq<Dict>, rec: Dict)
    ensures Blocks(labels, first, recs + [rec]) == Blocks(labels, first, recs) + Block(labels, first + |recs|, rec)
    decreases |recs|
  {
    if recs == [] {
      assert recs + [rec] == [rec];
      assert [rec][1..] == [];
    } else {
      assert (recs + [rec])[0] == recs[0];
      assert (recs + [rec])[1..] == recs[1..] + [rec];
      BlocksAppend(labels, first + 1, recs[1..], rec);
    }
  }

  /** The numbered blocks take two lines each plus one per non-empty value. */
  lemma {:induction false} BlocksLength(labels: Labels, first: nat, recs: seq<Dict>)
    ensures |Blocks(labels, first, recs)| == 2 * |recs| + ValueCount(recs)
    decreases |recs|
  {
    if recs != [] {
      BlocksLength(labels, first + 1, recs[1..]);
    }
  }

  function ValueCount(recs: seq<Dict>): nat {
    if recs == [] then 0 else |ValueLines(recs[0])| + ValueCount(recs[1..])
  }

  /** The listing: the text for no records, or the title, a rule of 60 `=` and the blocks
      numbered from 1, joined by line breaks. */
  function Format(labels: Labels, recs: seq<Dict>): (r: String)
    requires WellFormed(labels)
    ensures recs == [] <==> r == labels.none
  {
    if recs == [] then labels.none
    else
      var lines := [labels.title, Repeat('=', 60)] + Blocks(labels, 1, recs);
      JoinStartsWith(lines, labels.title, labels.none);
      Join(lines, "\n")
  }

  /** The lines a non-empty listing joins. */
  lemma FormatLines(labels: Labels, recs: seq<Dict>)
    requires WellFormed(labels)
    requires recs != []
    ensures Format(labels, recs) == Join([labels.title, Repeat('=', 60)] + Blocks(labels, 1, recs), "\n")
    ensures |[labels.title, Repeat('=', 60)] + Blocks(labels, 1, recs)| == 2 + 2 * |recs| + ValueCount(recs)
  {
    BlocksLength(labels, 1, recs);
  }

  /** A join of several lines cannot be a text its first line is not a prefix of. */
  lemma JoinStartsWith(lines: seq<String>, first: String, other: String)
    requires |lines| >= 2 && lines[0] == first && !IsPrefix(first, other)
    ensures Join(lines, "\n") != other
  {
    var j := Join(lines, "\n");
    assert j == first + ("\n" + Join(lines[1..], "\n"));
    assert j[..|first|] == first;
  }

  predicate IsPrefix(p: String, s: String) {
    |p| <= |s| && s[..|p|] == p
  }

  /** The title must not begin the text for no records, so the two listings differ. */
  predicate WellFormed(labels: Labels) {
    !IsPrefix(labels.title, labels.none)
  }
}
