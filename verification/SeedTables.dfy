/** Markdown tables as scripts/seed-demo.ts reads them, and the task rows taken from them. */
module SeedTables {
  import opened Text
  import opened Slug

  // ----- rows

  predicate IsRuleChar(c: char) {
    c == '-' || c == ':' || c == ' '
  }

  /** A cell of a separator row: nothing but dashes, colons and blanks. */
  predicate IsRule(cell: string) {
    forall i | 0 <= i < |cell| :: IsRuleChar(cell[i])
  }

  predicate AllRules(cells: seq<string>) {
    forall i | 0 <= i < |cells| :: IsRule(cells[i])
  }

  function TrimAll(cells: seq<string>): seq<string> {
    if cells == [] then [] else [Trim(cells[0])] + TrimAll(cells[1..])
  }

  /** All but the first and the last; empty when there is nothing between them. */
  function Inner(parts: seq<string>): seq<string> {
    if |parts| < 2 then [] else parts[1..|parts| - 1]
  }

  /** One row, or none if the cells are those of a separator or there are none. */
  function RowFrom(cells: seq<string>): seq<seq<string>> {
    if cells == [] || AllRules(cells) then [] else [cells]
  }

  /** The row a line holds; none if the line is prose. */
  function RowOf(line: string): seq<seq<string>> {
    var l := Trim(line);
    if StartsWith(l, "|") then RowFrom(TrimAll(Inner(Split(l, '|')))) else []
  }

  function RowsOf(lines: seq<string>): seq<seq<string>> {
    if lines == [] then [] else RowOf(lines[0]) + RowsOf(lines[1..])
  }

  function TableRows(body: string): seq<seq<string>> {
    RowsOf(Split(body, '\n'))
  }

  // ----- task rows

  datatype Task = Task(
    rowKey: string, title: string, assignee: string, status: string, sprint: string, due: Option<string>)

  function LowerAll(cells: seq<string>): seq<string> {
    if cells == [] then [] else [Lower(cells[0])] + LowerAll(cells[1..])
  }

  /** The first column with this name, or -1. */
  function Find(h: seq<string>, name: string): (i: int)
    ensures -1 <= i < |h|
    ensures i >= 0 ==> h[i] == name
    ensures forall k | 0 <= k < (if i == -1 then |h| else i) :: h[k] != name
  {
    if h == [] then -1
    else if h[0] == name then 0
    else
      var i := Find(h[1..], name);
      if i == -1 then -1 else i + 1
  }

  /** A cell, or the empty text where the row has none. */
  function Cell(cells: seq<string>, i: int): string {
    if 0 <= i < |cells| then cells[i] else ""
  }

  function NonEmpty(s: string): Option<string> {
    if s == "" then None else Some(s)
  }

  function ReadTask(h: seq<string>, cells: seq<string>): Task {
    Task(Cell(cells, Find(h, "id")), Cell(cells, Find(h, "task")), Cell(cells, Find(h, "assignee")),
         Cell(cells, Find(h, "status")), Cell(cells, Find(h, "sprint")), NonEmpty(Cell(cells, Find(h, "due"))))
  }

  /** What is read from the rows, without those that give nothing. */
  function ReadRows<T>(read: seq<string> -> Option<T>, rows: seq<seq<string>>): seq<T> {
    if rows == [] then []
    else (match read(rows[0]) case None => [] case Some(t) => [t]) + ReadRows(read, rows[1..])
  }

  /** A row without a key gives nothing. */
  function TaskReader(h: seq<string>): seq<string> -> Option<Task> {
    (cells: seq<string>) => var t := ReadTask(h, cells); if t.rowKey == "" then None else Some(t)
  }

  function TasksFrom(rows: seq<seq<string>>): seq<Task> {
    if rows == [] then []
    else
      var h := LowerAll(rows[0]);
      if Find(h, "id") < 0 then [] else ReadRows(TaskReader(h), rows[1..])
  }

  function ParseTaskRows(body: string): seq<Task> {
    TasksFrom(TableRows(body))
  }

  // ----- printing

  /** A line of a document: prose, a separator row of `columns` columns, or a row of cells. */
  datatype DocLine = Prose(text: string) | Rule(columns: nat) | Cells(cells: seq<string>)

  function PrintCells(cells: seq<string>): string {
    if cells == [] then "" else " " + cells[0] + " |" + PrintCells(cells[1..])
  }

  function Dashes(columns: nat): seq<string> {
    seq(columns, _ => "---")
  }

  function PrintLine(d: DocLine): string {
    match d
    case Prose(text) => text
    case Rule(columns) => "|" + PrintCells(Dashes(columns))
    case Cells(cells) => "|" + PrintCells(cells)
  }

  function PrintLines(doc: seq<DocLine>): seq<string> {
    if doc == [] then [] else [PrintLine(doc[0])] + PrintLines(doc[1..])
  }

  function Print(doc: seq<DocLine>): string {
    Join(PrintLines(doc), "\n")
  }

  function RowIn(d: DocLine): seq<seq<string>> {
    if d.Cells? then [d.cells] else []
  }

  /** The rows of a document: its lines of cells, in order. */
  function DocRows(doc: seq<DocLine>): seq<seq<string>> {
    if doc == [] then [] else RowIn(doc[0]) + DocRows(doc[1..])
  }

  predicate CleanCell(s: string) {
    Trimmed(s) && '|' !in s && '\n' !in s
  }

  predicate CleanRow(cells: seq<string>) {
    && (forall i | 0 <= i < |cells| :: CleanCell(cells[i]))
    && !AllRules(cells)
  }

  predicate CleanLine(d: DocLine) {
    match d
    case Prose(text) => '\n' !in text && !StartsWith(Trim(text), "|")
    case Rule(columns) => true
    case Cells(cells) => CleanRow(cells)
  }

  lemma SplitOneCell(cell: string, first: string, rest: string, text: string)
    requires CleanCell(cell) && first == " " + cell + " " && text == " " + cell + " |" + rest
    ensures Split(text, '|') == [first] + Split(rest, '|')
  {
    assert '|' !in first;
    assert text == first + ['|'] + rest;
    SplitFirst(first, rest, '|');
  }

  lemma TrimOneCell(cell: string, first: string)
    requires CleanCell(cell) && first == " " + cell + " "
    ensures Trim(first) == cell
  {
    TrimPadded(" ", cell, " ");
  }

  lemma {:induction false} SplitCells(cells: seq<string>)
    requires forall i | 0 <= i < |cells| :: CleanCell(cells[i])
    ensures SplitsInto(PrintCells(cells), cells)
  {
    if cells == [] {
      assert Split("", '|')[..0] == [];
    } else {
      SplitCells(cells[1..]);
      OneMoreCell(cells[0], PrintCells(cells[1..]), cells[1..], PrintCells(cells));
      assert cells == [cells[0]] + cells[1..];
    }
  }

  /** One line whose pieces but the last, trimmed, are the cells. */
  ghost predicate SplitsInto(text: string, cells: seq<string>) {
    '\n' !in text && CellParts(Split(text, '|'), cells)
  }

  ghost predicate CellParts(parts: seq<string>, cells: seq<string>) {
    |parts| == |cells| + 1 && TrimAll(parts[..|cells|]) == cells
  }

  lemma OneMoreCell(cell: string, rest: string, cells: seq<string>, text: string)
    requires CleanCell(cell) && SplitsInto(rest, cells) && text == " " + cell + " |" + rest
    ensures SplitsInto(text, [cell] + cells)
  {
    var first := " " + cell + " ";
    SplitOneCell(cell, first, rest, text);
    TrimOneCell(cell, first);
    NoNewline(cell, rest, text);
    OneMorePart(first, Split(rest, '|'), cell, cells);
  }

  lemma FrontCell(first: string, front: seq<string>, cell: string, cells: seq<string>)
    requires TrimAll(front) == cells && Trim(first) == cell
    ensures TrimAll([first] + front) == [cell] + cells
  {
    TrimAllCons(first, front);
  }

  lemma PartsAre(parts: seq<string>, cells: seq<string>, n: nat)
    requires n == |cells| && |parts| == n + 1 && TrimAll(parts[..n]) == cells
    ensures CellParts(parts, cells)
  {
  }

  lemma OneMorePart(first: string, parts: seq<string>, cell: string, cells: seq<string>)
    requires CellParts(parts, cells) && Trim(first) == cell
    ensures CellParts([first] + parts, [cell] + cells)
  {
    var n := |cells|;
    FrontCell(first, parts[..n], cell, cells);
    TakeCons(first, parts, n);
    PartsAre([first] + parts, [cell] + cells, n + 1);
  }

  lemma TakeCons(first: string, parts: seq<string>, n: nat)
    requires n <= |parts|
    ensures ([first] + parts)[..n + 1] == [first] + parts[..n]
  {
  }

  lemma NoNewline(cell: string, rest: string, text: string)
    requires '\n' !in cell && '\n' !in rest && text == " " + cell + " |" + rest
    ensures '\n' !in text
  {
  }

  lemma TrimAllCons(first: string, rest: seq<string>)
    ensures TrimAll([first] + rest) == [Trim(first)] + TrimAll(rest)
  {
    assert ([first] + rest)[1..] == rest;
  }

  /** A printed row of clean cells is split back into those cells, in order. */
  lemma PrintedCellsAreRead(cells: seq<string>, line: string)
    requires forall i | 0 <= i < |cells| :: CleanCell(cells[i])
    requires line == "|" + PrintCells(cells)
    ensures '\n' !in line && TrimAll(Inner(Split(line, '|'))) == cells
  {
    SplitCells(cells);
    SplitInner(PrintCells(cells), line);
  }

  lemma SplitInner(text: string, line: string)
    requires line == "|" + text
    ensures Inner(Split(line, '|')) == Split(text, '|')[..|Split(text, '|')| - 1]
  {
    assert line == "" + ['|'] + text;
    SplitFirst("", text, '|');
  }

  lemma PrintedCellsAreTrimmed(cells: seq<string>, line: string)
    requires line == "|" + PrintCells(cells)
    ensures Trim(line) == line
  {
    PrintCellsEnd(cells);
    TrimFixed(line);
  }

  lemma RowOfCells(cells: seq<string>, line: string)
    requires forall i | 0 <= i < |cells| :: CleanCell(cells[i])
    requires line == "|" + PrintCells(cells)
    ensures RowOf(line) == RowFrom(cells)
  {
    PrintedCellsAreRead(cells, line);
    PrintedCellsAreTrimmed(cells, line);
    StartsWithBar(PrintCells(cells));
    RowOfLine(line, cells);
  }

  /** A printed row is a row exactly when some cell holds more than dashes, colons and blanks. */
  lemma RowKeptIff(cells: seq<string>, line: string)
    requires forall i | 0 <= i < |cells| :: CleanCell(cells[i])
    requires line == "|" + PrintCells(cells)
    ensures RowOf(line) ==
            if exists i, k | 0 <= i < |cells| && 0 <= k < |cells[i]| :: cells[i][k] !in {'-', ':', ' '} then [cells]
            else []
  {
    RowOfCells(cells, line);
    if !AllRules(cells) {
      var i :| 0 <= i < |cells| && !IsRule(cells[i]);
      var k :| 0 <= k < |cells[i]| && !IsRuleChar(cells[i][k]);
      assert cells[i][k] !in {'-', ':', ' '};
    } else {
      forall i, k | 0 <= i < |cells| && 0 <= k < |cells[i]| ensures cells[i][k] in {'-', ':', ' '} {
        assert IsRule(cells[i]) && IsRuleChar(cells[i][k]);
      }
    }
  }

  lemma RowOfLine(line: string, cells: seq<string>)
    requires Trim(line) == line && StartsWith(line, "|") && TrimAll(Inner(Split(line, '|'))) == cells
    ensures RowOf(line) == RowFrom(cells)
  {
  }

  lemma StartsWithBar(text: string)
    ensures StartsWith("|" + text, "|")
  {
    assert ("|" + text)[..1] == "|";
  }

  lemma {:induction false} PrintCellsEnd(cells: seq<string>)
    ensures PrintCells(cells) != "" ==> PrintCells(cells)[|PrintCells(cells)| - 1] == '|'
    ensures cells != [] ==> PrintCells(cells) != ""
  {
    if cells == [] {
    } else {
      PrintCellsEnd(cells[1..]);
    }
  }

  lemma RowOfPrinted(d: DocLine)
    requires CleanLine(d)
    ensures RowOf(PrintLine(d)) == RowIn(d)
    ensures '\n' !in PrintLine(d)
  {
    match d
    case Prose(_) =>
    case Rule(columns) =>
      DashIsClean();
      RowOfCells(Dashes(columns), PrintLine(d));
      PrintedCellsAreRead(Dashes(columns), PrintLine(d));
    case Cells(cells) =>
      RowOfCells(cells, PrintLine(d));
      PrintedCellsAreRead(cells, PrintLine(d));
  }

  lemma DashIsClean()
    ensures CleanCell("---") && IsRule("---")
  {
  }

  lemma {:induction false} RowsOfPrinted(doc: seq<DocLine>)
    requires forall d | d in doc :: CleanLine(d)
    ensures RowsOf(PrintLines(doc)) == DocRows(doc)
    ensures forall l | l in PrintLines(doc) :: '\n' !in l
  {
    if doc == [] {
    } else {
      RowOfPrinted(doc[0]);
      RowsOfPrinted(doc[1..]);
      assert PrintLines(doc)[1..] == PrintLines(doc[1..]);
    }
  }

  /** A printed document gives back its rows of cells, whatever prose and separators stand between them. */
  lemma TableRoundTrip(doc: seq<DocLine>)
    requires forall d | d in doc :: CleanLine(d)
    ensures TableRows(Print(doc)) == DocRows(doc)
  {
    RowsOfPrinted(doc);
    if doc == [] {
      EmptyTextHasNoRows(Print(doc));
    } else {
      SplitJoin(PrintLines(doc), '\n');
    }
  }

  lemma EmptyTextHasNoRows(text: string)
    requires text == ""
    ensures TableRows(text) == []
  {
    TrimFixed(text);
    RowsOfOne(text);
  }

  lemma RowsOfOne(line: string)
    ensures RowsOf([line]) == RowOf(line)
  {
    assert [line][1..] == [];
  }

  // ----- task tables

  datatype Column = Id | TaskName | Assignee | StatusName | Sprint | Due

  function Name(c: Column): string {
    match c
    case Id => "id"
    case TaskName => "task"
    case Assignee => "assignee"
    case StatusName => "status"
    case Sprint => "sprint"
    case Due => "due"
  }

  function CellOf(t: Task, c: Column): string {
    match c
    case Id => t.rowKey
    case TaskName => t.title
    case Assignee => t.assignee
    case StatusName => t.status
    case Sprint => t.sprint
    case Due => if t.due.Some? then t.due.value else ""
  }

  /** A row of the table: under each column of a task its cell, and anything under any other column. */
  ghost predicate IsTaskRow(cells: seq<string>, t: Task, cols: seq<Option<Column>>) {
    |cells| == |cols| && forall i | 0 <= i < |cols| && cols[i].Some? :: cells[i] == CellOf(t, cols[i].value)
  }

  ghost predicate Unnamed(head: string) {
    forall c: Column :: head != Name(c)
  }

  /** The names of `cols`, each column once; a column of none has a name of its own. */
  ghost predicate Names(h: seq<string>, cols: seq<Option<Column>>) {
    && |h| == |cols|
    && (forall i | 0 <= i < |cols| && cols[i].Some? :: h[i] == Name(cols[i].value))
    && (forall i | 0 <= i < |cols| && cols[i].None? :: Unnamed(h[i]))
    && (forall i, j | 0 <= i < j < |cols| && cols[i].Some? :: cols[i] != cols[j])
  }

  /** The columns in any order and any capitals, with the id among them. */
  ghost predicate IsHeader(heads: seq<string>, cols: seq<Option<Column>>) {
    Names(LowerAll(heads), cols) && Some(Id) in cols
  }

  /** Fields without a column are empty, and an empty due date is none. */
  ghost predicate Fits(t: Task, cols: seq<Option<Column>>) {
    t.rowKey != "" && t.due != Some("") && forall c: Column :: Some(c) !in cols ==> CellOf(t, c) == ""
  }

  /** The rows of these tasks, in order. */
  ghost predicate AreTaskRows(rows: seq<seq<string>>, ts: seq<Task>, cols: seq<Option<Column>>) {
    |rows| == |ts| && forall i | 0 <= i < |ts| :: IsTaskRow(rows[i], ts[i], cols) && Fits(ts[i], cols)
  }

  lemma NamesDiffer(c: Column, d: Column)
    ensures Name(c) == Name(d) <==> c == d
  {
    assert "id"[0] == 'i' && "task"[0] == 't' && "assignee"[0] == 'a' && "due"[0] == 'd';
    assert "status"[1] == 't' && "sprint"[1] == 'p' && "status"[0] == 's' && "sprint"[0] == 's';
  }

  lemma FindsColumn(h: seq<string>, cols: seq<Option<Column>>, c: Column)
    requires Names(h, cols)
    ensures var i := Find(h, Name(c)); if Some(c) in cols then i >= 0 && cols[i] == Some(c) else i == -1
  {
    var i := Find(h, Name(c));
    if Some(c) in cols {
      var k :| 0 <= k < |cols| && cols[k] == Some(c);
      assert h[k] == Name(c);
    }
    if i >= 0 && cols[i].Some? {
      NamesDiffer(c, cols[i].value);
    }
  }

  lemma ColumnIsRead(h: seq<string>, cols: seq<Option<Column>>, cells: seq<string>, t: Task, c: Column)
    requires Names(h, cols) && IsTaskRow(cells, t, cols) && (Some(c) !in cols ==> CellOf(t, c) == "")
    ensures Cell(cells, Find(h, Name(c))) == CellOf(t, c)
  {
    FindsColumn(h, cols, c);
  }

  lemma TaskIsRead(h: seq<string>, cols: seq<Option<Column>>, cells: seq<string>, t: Task)
    requires Names(h, cols) && IsTaskRow(cells, t, cols) && Fits(t, cols)
    ensures ReadTask(h, cells) == t
  {
    ColumnIsRead(h, cols, cells, t, Id);
    ColumnIsRead(h, cols, cells, t, TaskName);
    ColumnIsRead(h, cols, cells, t, Assignee);
    ColumnIsRead(h, cols, cells, t, StatusName);
    ColumnIsRead(h, cols, cells, t, Sprint);
    ColumnIsRead(h, cols, cells, t, Due);
  }

  lemma ReaderReads(h: seq<string>, cols: seq<Option<Column>>, cells: seq<string>, t: Task)
    requires Names(h, cols) && IsTaskRow(cells, t, cols) && Fits(t, cols)
    ensures TaskReader(h)(cells) == Some(t)
  {
    TaskIsRead(h, cols, cells, t);
  }

  /** Rows that each give something are read to all of it, in order. */
  lemma {:induction false} AllRowsAreRead<T>(read: seq<string> -> Option<T>, rows: seq<seq<string>>, ts: seq<T>)
    requires |rows| == |ts| && forall i | 0 <= i < |rows| :: read(rows[i]) == Some(ts[i])
    ensures ReadRows(read, rows) == ts
  {
    if rows == [] {
    } else {
      AllRowsAreRead(read, rows[1..], ts[1..]);
      assert ts == [ts[0]] + ts[1..];
    }
  }

  /** A row gives a task exactly when its cell under "id" is not empty. */
  lemma TaskReadIff(h: seq<string>, cells: seq<string>, i: int)
    requires i == Find(h, "id")
    ensures TaskReader(h)(cells).Some? <==> 0 <= i < |cells| && cells[i] != ""
  {
    assert ReadTask(h, cells).rowKey == Cell(cells, i);
  }

  /** Without that column there are none. */
  lemma NoIdColumn(head: seq<string>, rest: seq<seq<string>>)
    requires "id" !in LowerAll(head)
    ensures TasksFrom([head] + rest) == []
  {
  }

  lemma TasksFromRows(head: seq<string>, rest: seq<seq<string>>)
    requires Find(LowerAll(head), "id") >= 0
    ensures TasksFrom([head] + rest) == ReadRows(TaskReader(LowerAll(head)), rest)
  {
    assert ([head] + rest)[1..] == rest;
  }

  lemma TasksAreRead(heads: seq<string>, cols: seq<Option<Column>>, rows: seq<seq<string>>, ts: seq<Task>)
    requires IsHeader(heads, cols) && AreTaskRows(rows, ts, cols)
    ensures TasksFrom([heads] + rows) == ts
  {
    var h := LowerAll(heads);
    forall i | 0 <= i < |rows| ensures TaskReader(h)(rows[i]) == Some(ts[i]) {
      ReaderReads(h, cols, rows[i], ts[i]);
    }
    AllRowsAreRead(TaskReader(h), rows, ts);
    FindsColumn(h, cols, Id);
    TasksFromRows(heads, rows);
  }

  /**
   A task table comes back as the tasks it was printed from: under any order and capitalisation of its
   columns, with any of them but the id left out, with columns of other names among them, and with prose
   and separators anywhere around it.
   */
  lemma TaskTableRoundTrip(doc: seq<DocLine>, heads: seq<string>, cols: seq<Option<Column>>, rows: seq<seq<string>>,
                           ts: seq<Task>)
    requires forall d | d in doc :: CleanLine(d)
    requires DocRows(doc) == [heads] + rows && IsHeader(heads, cols) && AreTaskRows(rows, ts, cols)
    ensures ParseTaskRows(Print(doc)) == ts
  {
    TableRoundTrip(doc);
    TasksAreRead(heads, cols, rows, ts);
  }
}
