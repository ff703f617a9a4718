/**
 * Export flattening: `exportRows` turns each response of a survey into one
 * row of (column, value) cells, and the export handler lays the rows out as
 * tab-separated text under a header line.
 */
module Export {
  import opened Wrappers
  import opened Seqs
  import opened Text
  import opened Store

  /** One column of an exported row. */
  datatype Cell = Cell(column: string, value: string)

  /** An exported row, its cells in column order. */
  type Row = seq<Cell>

  /** The columns every row starts with, and the header used when there are no rows. */
  const FixedColumns: seq<string> := ["Name", "Email", "SubmittedAt"]

  function AnswerFor(rid: string, qid: string): Answer -> bool {
    (a: Answer) => a.responseId == rid && a.questionId == qid
  }

  /** `a ? a.value : ''` for the first stored answer of response `rid` to question `qid`. */
  function AnswerText(db: Db, rid: string, qid: string): (r: string)
    ensures (forall a :: a in db.answers ==> !(a.responseId == rid && a.questionId == qid)) ==> r == ""
    ensures (exists a :: a in db.answers && a.responseId == rid && a.questionId == qid) ==>
              exists k :: && 0 <= k < |db.answers|
                          && db.answers[k].responseId == rid && db.answers[k].questionId == qid
                          && r == db.answers[k].value
                          && forall j :: 0 <= j < k ==> !(db.answers[j].responseId == rid && db.answers[j].questionId == qid)
  {
    match FindIndex(db.answers, AnswerFor(rid, qid))
    case None => ""
    case Some(k) => db.answers[k].value
  }

  /** The row of response `r`: its name, e-mail and submission time, then one cell per question of `qs`. */
  function ExportRow(db: Db, qs: seq<Question>, r: Response): (row: Row)
    ensures |row| == |FixedColumns| + |qs|
    ensures row[..3] == [Cell("Name", r.name), Cell("Email", r.email), Cell("SubmittedAt", r.submittedAt)]
    ensures forall j :: 0 <= j < |qs| ==> row[3 + j] == Cell(qs[j].prompt, AnswerText(db, r.id, qs[j].id))
  {
    [Cell("Name", r.name), Cell("Email", r.email), Cell("SubmittedAt", r.submittedAt)]
      + seq(|qs|, j requires 0 <= j < |qs| => Cell(qs[j].prompt, AnswerText(db, r.id, qs[j].id)))
  }

  /** `exportRows`: one row per response of `sid`, in storage order, questions in position order. */
  function ExportRows(db: Db, sid: string): (rows: seq<Row>)
    ensures |rows| == |ResponsesOf(db, sid)|
    ensures forall i :: 0 <= i < |rows| ==> rows[i] == ExportRow(db, QuestionsOf(db, sid), ResponsesOf(db, sid)[i])
  {
    var qs := QuestionsOf(db, sid);
    Map(ResponsesOf(db, sid), (r: Response) => ExportRow(db, qs, r))
  }

  function ColumnOf(c: Cell): string {
    c.column
  }

  function ValueOf(c: Cell): string {
    c.value
  }

  /** `Object.keys(row)`, for rows whose column names are distinct: the column names in row order. */
  function Columns(row: Row): (r: seq<string>)
    ensures |r| == |row|
    ensures forall k :: 0 <= k < |row| ==> r[k] == row[k].column
    ensures forall h :: h in r <==> exists c :: c in row && c.column == h
  {
    var r := Map(row, ColumnOf);
    assert forall k :: 0 <= k < |row| ==> r[k] == row[k].column;
    r
  }

  function HasColumn(h: string): Cell -> bool {
    (c: Cell) => c.column == h
  }

  /**
   * `String(row[h] || '')`: the value of the first cell in column `h`, or
   * the empty text when the row has no such column.
   */
  function Lookup(row: Row, h: string): (r: string)
    ensures (forall k :: 0 <= k < |row| ==> row[k].column != h) ==> r == ""
    ensures forall k :: 0 <= k < |row| && row[k].column == h && (forall j :: 0 <= j < k ==> row[j].column != h)
              ==> r == row[k].value
  {
    match Find(row, HasColumn(h))
    case None => ""
    case Some(c) => c.value
  }

  /** The header line: the first row's columns, or the fixed three when there are no rows. */
  function Headers(rows: seq<Row>): (r: seq<string>)
    ensures |rows| == 0 ==> r == FixedColumns
    ensures |rows| > 0 ==> |r| == |rows[0]| && forall k :: 0 <= k < |r| ==> r[k] == rows[0][k].column
  {
    if |rows| > 0 then Columns(rows[0]) else FixedColumns
  }

  /** One data line: the row's value under each header. */
  function DataLine(headers: seq<string>, row: Row): (line: seq<string>)
    ensures |line| == |headers|
    ensures forall k :: 0 <= k < |headers| ==> line[k] == Lookup(row, headers[k])
  {
    seq(|headers|, k requires 0 <= k < |headers| => Lookup(row, headers[k]))
  }

  /** The table the export prints: the header line, then one data line per row. */
  function TsvTable(rows: seq<Row>): (t: seq<seq<string>>)
    ensures |t| == |rows| + 1
    ensures t[0] == Headers(rows)
    ensures forall i :: 1 <= i < |t| ==> t[i] == DataLine(t[0], rows[i - 1])
  {
    var headers := Headers(rows);
    [headers] + seq(|rows|, i requires 0 <= i < |rows| => DataLine(headers, rows[i]))
  }

  function TabJoin(line: seq<string>): string {
    Join(line, "\t")
  }

  /**
   * The tab-separated text: cells joined by tabs, lines by newlines. When no
   * cell of the table holds a tab or a newline, it parses back to the table.
   */
  function Tsv(rows: seq<Row>): (r: string)
    ensures PrintableTable(TsvTable(rows)) ==> Map(Split(r, '\n'), SplitTabs) == TsvTable(rows)
  {
    var t := TsvTable(rows);
    assert PrintableTable(t) ==> Map(Split(Join(Map(t, TabJoin), "\n"), '\n'), SplitTabs) == t by {
      if PrintableTable(t) {
        TsvParsesBack(t);
      }
    }
    Join(Map(t, TabJoin), "\n")
  }

  // Properties.

  ghost predicate DistinctColumns(row: Row) {
    forall i, j :: 0 <= i < j < |row| ==> row[i].column != row[j].column
  }

  /** In a row without repeated column names, looking up a column finds that column's own cell. */
  lemma LookupOwnColumn(row: Row, k: nat)
    requires DistinctColumns(row) && k < |row|
    ensures Lookup(row, row[k].column) == row[k].value
  {
    var p := HasColumn(row[k].column);
    assert p(row[k]);
    assert FindIndex(row, p) == Some(k);
  }

  function PromptOf(q: Question): string {
    q.prompt
  }

  /** An exported row's columns: the fixed three, then the prompts of `qs` in order. */
  lemma ExportRowColumns(db: Db, qs: seq<Question>, r: Response)
    ensures Columns(ExportRow(db, qs, r)) == FixedColumns + Map(qs, PromptOf)
  {
    var cols := Columns(ExportRow(db, qs, r));
    var want := FixedColumns + Map(qs, PromptOf);
    forall k | 0 <= k < |cols|
      ensures cols[k] == want[k]
    {
      ExportRowCell(db, qs, r, k);
    }
  }

  /** Every row of one survey has the same columns: the fixed three, then the prompts in position order. */
  lemma ExportColumns(db: Db, sid: string)
    ensures forall i :: 0 <= i < |ExportRows(db, sid)| ==>
              Columns(ExportRows(db, sid)[i]) == FixedColumns + Map(QuestionsOf(db, sid), PromptOf)
  {
    forall i | 0 <= i < |ExportRows(db, sid)|
      ensures Columns(ExportRows(db, sid)[i]) == FixedColumns + Map(QuestionsOf(db, sid), PromptOf)
    {
      ExportRowColumns(db, QuestionsOf(db, sid), ResponsesOf(db, sid)[i]);
    }
  }

  /** Prompts that make distinct columns: pairwise different and none named like a fixed column. */
  ghost predicate PlainPrompts(qs: seq<Question>) {
    && (forall i, j :: 0 <= i < j < |qs| ==> qs[i].prompt != qs[j].prompt)
    && (forall i :: 0 <= i < |qs| ==> qs[i].prompt !in FixedColumns)
  }

  /** The `k`-th cell of an exported row. */
  lemma ExportRowCell(db: Db, qs: seq<Question>, r: Response, k: nat)
    requires k < |FixedColumns| + |qs|
    ensures var row := ExportRow(db, qs, r);
      && (k == 0 ==> row[k] == Cell("Name", r.name))
      && (k == 1 ==> row[k] == Cell("Email", r.email))
      && (k == 2 ==> row[k] == Cell("SubmittedAt", r.submittedAt))
      && (k >= 3 ==> row[k] == Cell(qs[k - 3].prompt, AnswerText(db, r.id, qs[k - 3].id)))
  {
    var row := ExportRow(db, qs, r);
    if k < 3 {
      assert row[k] == row[..3][k];
    } else {
      assert row[3 + (k - 3)] == Cell(qs[k - 3].prompt, AnswerText(db, r.id, qs[k - 3].id));
    }
  }

  /** With plain prompts an exported row never repeats a column name. */
  lemma ExportRowColumnsDistinct(db: Db, qs: seq<Question>, r: Response)
    requires PlainPrompts(qs)
    ensures DistinctColumns(ExportRow(db, qs, r))
  {
    var row := ExportRow(db, qs, r);
    forall a, b | 0 <= a < b < |row|
      ensures row[a].column != row[b].column
    {
      ExportRowCell(db, qs, r, a);
      ExportRowCell(db, qs, r, b);
      if b >= 3 {
        assert qs[b - 3].prompt !in FixedColumns;
      }
    }
  }

  /**
   * With plain prompts, every data line of a survey's export is exactly its
   * row's values: the header lookup neither loses nor moves a cell.
   */
  lemma ExportLinesAreRowValues(db: Db, sid: string)
    requires PlainPrompts(QuestionsOf(db, sid))
    ensures var rows := ExportRows(db, sid);
      var t := TsvTable(rows);
      forall i :: 0 <= i < |rows| ==> t[i + 1] == Map(rows[i], ValueOf)
  {
    var rows := ExportRows(db, sid);
    var qs := QuestionsOf(db, sid);
    var t := TsvTable(rows);
    ExportColumns(db, sid);
    forall i | 0 <= i < |rows|
      ensures t[i + 1] == Map(rows[i], ValueOf)
    {
      assert t[0] == Columns(rows[0]) == Columns(rows[i]);
      ExportRowColumnsDistinct(db, qs, ResponsesOf(db, sid)[i]);
      DataLineOfOwnColumns(t[0], rows[i]);
    }
  }

  /** Looking up a row's own column names, in order, yields its values. */
  lemma DataLineOfOwnColumns(headers: seq<string>, row: Row)
    requires DistinctColumns(row) && headers == Columns(row)
    ensures DataLine(headers, row) == Map(row, ValueOf)
  {
    forall k | 0 <= k < |row|
      ensures DataLine(headers, row)[k] == row[k].value
    {
      LookupOwnColumn(row, k);
    }
  }

  function SplitTabs(line: string): seq<string> {
    Split(line, '\t')
  }

  /** A table whose cells hold no tab or newline and whose lines are not empty. */
  ghost predicate PrintableTable(t: seq<seq<string>>) {
    && |t| >= 1
    && (forall i :: 0 <= i < |t| ==> |t[i]| >= 1)
    && (forall i, k :: 0 <= i < |t| && 0 <= k < |t[i]| ==> '\t' !in t[i][k] && '\n' !in t[i][k])
  }

  /** Tab-separated text parses back to the table it was printed from, when no cell holds a tab or newline. */
  lemma TsvParsesBack(t: seq<seq<string>>)
    requires PrintableTable(t)
    ensures Map(Split(Join(Map(t, TabJoin), "\n"), '\n'), SplitTabs) == t
  {
    var lines := Map(t, TabJoin);
    forall i | 0 <= i < |lines|
      ensures '\n' !in lines[i]
    {
      JoinAvoids(t[i], "\t", '\n');
    }
    SplitJoin(lines, '\n');
    assert Split(Join(lines, "\n"), '\n') == lines;
    forall i | 0 <= i < |t|
      ensures SplitTabs(lines[i]) == t[i]
    {
      SplitJoin(t[i], '\t');
    }
  }

  /** No text of the data set holds a tab or a newline. */
  ghost predicate TabFree(db: Db) {
    && (forall q :: q in db.questions ==> '\t' !in q.prompt && '\n' !in q.prompt)
    && (forall r :: r in db.responses ==>
          && '\t' !in r.name && '\n' !in r.name && '\t' !in r.email && '\n' !in r.email
          && '\t' !in r.submittedAt && '\n' !in r.submittedAt)
    && (forall a :: a in db.answers ==> '\t' !in a.value && '\n' !in a.value)
  }

  /** A looked-up value is one of the row's values, or empty. */
  lemma LookupIsACell(row: Row, h: string)
    ensures Lookup(row, h) == "" || exists k :: 0 <= k < |row| && Lookup(row, h) == row[k].value
  {
    match FindIndex(row, HasColumn(h))
    case None =>
    case Some(m) =>
      assert Lookup(row, h) == row[m].value;
  }

  lemma AnswerTextTabFree(db: Db, rid: string, qid: string)
    requires TabFree(db)
    ensures '\t' !in AnswerText(db, rid, qid) && '\n' !in AnswerText(db, rid, qid)
  {
    if exists a :: a in db.answers && a.responseId == rid && a.questionId == qid {
      var m :| 0 <= m < |db.answers| && AnswerText(db, rid, qid) == db.answers[m].value;
      assert db.answers[m] in db.answers;
    }
  }

  ghost predicate RowTabFree(row: Row) {
    forall k :: 0 <= k < |row| ==>
      '\t' !in row[k].column && '\n' !in row[k].column && '\t' !in row[k].value && '\n' !in row[k].value
  }

  lemma ExportRowTabFree(db: Db, qs: seq<Question>, r: Response)
    requires TabFree(db)
    requires r in db.responses
    requires forall q :: q in qs ==> q in db.questions
    ensures RowTabFree(ExportRow(db, qs, r))
  {
    var row := ExportRow(db, qs, r);
    forall k | 0 <= k < |row|
      ensures '\t' !in row[k].column && '\n' !in row[k].column && '\t' !in row[k].value && '\n' !in row[k].value
    {
      ExportRowCell(db, qs, r, k);
      if k >= 3 {
        assert qs[k - 3] in qs;
        AnswerTextTabFree(db, r.id, qs[k - 3].id);
      }
    }
  }

  /** The table of rows free of tabs and newlines is printable. */
  lemma PrintableRows(rows: seq<Row>)
    requires forall i :: 0 <= i < |rows| ==> RowTabFree(rows[i]) && |rows[i]| >= 1
    ensures PrintableTable(TsvTable(rows))
  {
    var t := TsvTable(rows);
    forall i, k | 0 <= i < |t| && 0 <= k < |t[i]|
      ensures '\t' !in t[i][k] && '\n' !in t[i][k]
    {
      if i > 0 {
        LookupIsACell(rows[i - 1], t[0][k]);
      } else if |rows| > 0 {
        assert t[0][k] == rows[0][k].column;
      }
    }
  }

  /** Every exported row of a data set free of tabs and newlines is free of them too. */
  lemma ExportRowsTabFree(db: Db, sid: string)
    requires TabFree(db)
    ensures forall i :: 0 <= i < |ExportRows(db, sid)| ==> RowTabFree(ExportRows(db, sid)[i]) && |ExportRows(db, sid)[i]| >= 3
  {
    var rs := ResponsesOf(db, sid);
    forall i | 0 <= i < |rs|
      ensures RowTabFree(ExportRows(db, sid)[i])
    {
      assert rs[i] in rs;
      ExportRowTabFree(db, QuestionsOf(db, sid), rs[i]);
    }
  }

  /** A survey's export prints as tab-separated text that parses back to its table, when no text holds a tab or newline. */
  lemma ExportTsvParsesBack(db: Db, sid: string)
    requires TabFree(db)
    ensures Map(Split(Tsv(ExportRows(db, sid)), '\n'), SplitTabs) == TsvTable(ExportRows(db, sid))
  {
    ExportRowsTabFree(db, sid);
    PrintableRows(ExportRows(db, sid));
    TsvParsesBack(TsvTable(ExportRows(db, sid)));
  }
}
