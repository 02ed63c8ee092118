/** The decision rows that scripts/seed-demo.ts takes from a table: columns are found by prefix. */
module SeedDecisions {
  import opened Text
  import opened SeedTables

  datatype Audience = Team | External

  datatype Decision = Decision(
    rowKey: string, decidedAt: Option<string>, title: string, rationale: string, decidedBy: string, impact: string,
    tier: Option<int>, audience: Audience)

  // ----- integers

  predicate IsDigit(c: char) {
    '0' <= c <= '9'
  }

  function Digit(c: char): nat
    requires IsDigit(c)
  {
    c as int - '0' as int
  }

  /** The value of the leading digits, continuing from `n`; none if there is not one digit. */
  function TakeDigits(s: string, n: Option<nat>): Option<nat>
    decreases |s|
  {
    if s == "" || !IsDigit(s[0]) then n
    else TakeDigits(s[1..], Some(10 * (if n.Some? then n.value else 0) + Digit(s[0])))
  }

  function NonZero(n: int): Option<int> {
    if n == 0 then None else Some(n)
  }

  function Signed(negative: bool, n: Option<nat>): Option<int> {
    if n.None? then None
    else
      var size: int := n.value;
      NonZero(if negative then -size else size)
  }

  /** An optional sign, then digits; what follows is ignored, and zero is none. */
  function ParseSigned(t: string): Option<int> {
    if t != "" && t[0] == '-' then Signed(true, TakeDigits(t[1..], None))
    else if t != "" && t[0] == '+' then Signed(false, TakeDigits(t[1..], None))
    else Signed(false, TakeDigits(t, None))
  }

  /** `parseInt(s, 10) || null`. */
  function ParseTier(s: string): Option<int> {
    ParseSigned(TrimStart(s))
  }

  function PrintNat(n: nat): (s: string)
    ensures s != "" && forall i | 0 <= i < |s| :: IsDigit(s[i])
  {
    (if n < 10 then "" else PrintNat(n / 10)) + [('0' as int + n % 10) as char]
  }

  function PrintTier(tier: Option<int>): string {
    if tier.None? then "" else if tier.value < 0 then "-" + PrintNat(-tier.value) else PrintNat(tier.value)
  }

  /** `more` holds the digits still to be read after those of `s`. */
  lemma {:induction false} TakeDigitsAppend(s: string, more: string, n: Option<nat>)
    requires forall i | 0 <= i < |s| :: IsDigit(s[i])
    ensures TakeDigits(s + more, n) == TakeDigits(more, TakeDigits(s, n))
    decreases |s|
  {
    if s == "" {
      assert s + more == more;
    } else {
      assert (s + more)[1..] == s[1..] + more;
      TakeDigitsAppend(s[1..], more, Some(10 * (if n.Some? then n.value else 0) + Digit(s[0])));
    }
  }

  lemma {:induction false} NatIsRead(n: nat)
    ensures TakeDigits(PrintNat(n), None) == Some(n)
  {
    var last := ('0' as int + n % 10) as char;
    var front := if n < 10 then "" else PrintNat(n / 10);
    if n >= 10 {
      NatIsRead(n / 10);
    }
    TakeDigitsAppend(front, [last], None);
    var before := TakeDigits(front, None);
    assert [last][1..] == "";
    assert TakeDigits([last], before) ==
           TakeDigits("", Some(10 * (if before.Some? then before.value else 0) + Digit(last)));
  }

  lemma ParseUnsigned(s: string, n: nat)
    requires s != "" && IsDigit(s[0]) && TakeDigits(s, None) == Some(n)
    ensures ParseTier(s) == NonZero(n)
  {
    StartsAlready(s);
  }

  lemma ParseNegative(s: string, digits: string, n: nat)
    requires s == "-" + digits && TakeDigits(digits, None) == Some(n)
    ensures ParseTier(s) == NonZero(0 - n as int)
  {
    StartsAlready(s);
    assert s[1..] == digits;
  }

  lemma StartsAlready(s: string)
    requires s != "" && (IsDigit(s[0]) || s[0] == '-')
    ensures TrimStart(s) == s
  {
    assert !IsSpace(s[0]);
  }

  /** Every tier but zero is read back; zero is read as none. */
  lemma TierRoundTrip(tier: Option<int>)
    ensures ParseTier(PrintTier(tier)) == tier <==> tier != Some(0)
  {
    if tier.Some? {
      NumberRoundTrip(tier.value);
    }
  }

  lemma NumberRoundTrip(n: int)
    ensures ParseTier(PrintTier(Some(n))) == NonZero(n)
  {
    if n < 0 {
      NatIsRead(-n);
      ParseNegative(PrintTier(Some(n)), PrintNat(-n), -n);
    } else {
      NatIsRead(n);
      ParseUnsigned(PrintTier(Some(n)), n);
    }
  }

  lemma DigitsWithMore(digits: string, n: nat, more: string)
    requires (forall i | 0 <= i < |digits| :: IsDigit(digits[i])) && TakeDigits(digits, None) == Some(n)
    requires more == "" || !IsDigit(more[0])
    ensures TakeDigits(digits + more, None) == Some(n)
  {
    TakeDigitsAppend(digits, more, None);
  }

  /** What follows the number is not looked at. */
  lemma TierWithMore(n: nat, more: string)
    requires more == "" || !IsDigit(more[0])
    ensures ParseTier(PrintNat(n) + more) == NonZero(n)
    ensures ParseTier("-" + (PrintNat(n) + more)) == NonZero(0 - n as int)
  {
    var digits := PrintNat(n);
    NatIsRead(n);
    DigitsWithMore(digits, n, more);
    ParseUnsigned(digits + more, n);
    ParseNegative("-" + (digits + more), digits + more, n);
  }

  /** A text that does not start with a sign or a digit is no tier. */
  lemma NoTier(s: string)
    requires s == "" || (!IsSpace(s[0]) && !IsDigit(s[0]) && s[0] != '-' && s[0] != '+')
    ensures ParseTier(s) == None
  {
  }

  // ----- rows

  /** The first column whose name starts with the prefix, or -1. */
  function FindPrefix(h: seq<string>, prefix: string): (i: int)
    ensures -1 <= i < |h|
    ensures i >= 0 ==> StartsWith(h[i], prefix)
    ensures forall k | 0 <= k < (if i == -1 then |h| else i) :: !StartsWith(h[k], prefix)
  {
    if h == [] then -1
    else if StartsWith(h[0], prefix) then 0
    else
      var i := FindPrefix(h[1..], prefix);
      if i == -1 then -1 else i + 1
  }

  function At(h: seq<string>, cells: seq<string>, prefix: string): string {
    Cell(cells, FindPrefix(h, prefix))
  }

  function AudienceOf(cell: string): (a: Audience)
    ensures a.External? <==> cell == "external"
  {
    if cell == "external" then External else Team
  }

  function FromCells(number: string, date: string, title: string, rationale: string, decided: string, impact: string,
                     tier: string, audience: string): Decision {
    Decision(number, NonEmpty(date), title, rationale, decided, impact, ParseTier(tier),
             AudienceOf(audience))
  }

  /** The row's number, or its first cell where it has none. */
  function NumberOf(h: seq<string>, cells: seq<string>): string {
    if 0 <= FindPrefix(h, "#") < |cells| then At(h, cells, "#") else Cell(cells, 0)
  }

  function ReadDecision(h: seq<string>, cells: seq<string>): Decision {
    FromCells(NumberOf(h, cells), At(h, cells, "date"), At(h, cells, "decision"), At(h, cells, "rationale"),
              At(h, cells, "decided"), At(h, cells, "impact"), At(h, cells, "type"), At(h, cells, "audience"))
  }

  /** A row without a key gives nothing. */
  function DecisionReader(h: seq<string>): seq<string> -> Option<Decision> {
    (cells: seq<string>) => var d := ReadDecision(h, cells); if d.rowKey == "" then None else Some(d)
  }

  function DecisionsFrom(rows: seq<seq<string>>): seq<Decision> {
    if rows == [] then []
    else
      var h := LowerAll(rows[0]);
      if FindPrefix(h, "decision") < 0 then [] else ReadRows(DecisionReader(h), rows[1..])
  }

  function ParseDecisionRows(body: string): seq<Decision> {
    DecisionsFrom(TableRows(body))
  }

  // ----- round trip

  datatype Column = Number | Date | Title | Rationale | DecidedBy | Impact | Type | AudienceName

  function Prefix(c: Column): string {
    match c
    case Number => "#"
    case Date => "date"
    case Title => "decision"
    case Rationale => "rationale"
    case DecidedBy => "decided"
    case Impact => "impact"
    case Type => "type"
    case AudienceName => "audience"
  }

  function CellOf(d: Decision, c: Column): string {
    match c
    case Number => d.rowKey
    case Date => if d.decidedAt.Some? then d.decidedAt.value else ""
    case Title => d.title
    case Rationale => d.rationale
    case DecidedBy => d.decidedBy
    case Impact => d.impact
    case Type => PrintTier(d.tier)
    case AudienceName => if d.audience.External? then "external" else "team"
  }

  /**
   A row of the table: under each column of a decision its cell, and anything under any other column.  In a
   table without a number column the first cell is the key.
   */
  ghost predicate IsDecisionRow(cells: seq<string>, d: Decision, cols: seq<Option<Column>>) {
    && |cells| == |cols| && (forall i | 0 <= i < |cols| && cols[i].Some? :: cells[i] == CellOf(d, cols[i].value))
    && (Some(Number) !in cols ==> cells != [] && cells[0] == d.rowKey)
  }

  ghost predicate Unnamed(head: string) {
    forall c: Column :: !StartsWith(head, Prefix(c))
  }

  /** Names that start with the prefixes of `cols`, each column once; a column of none starts with no prefix. */
  ghost predicate Names(h: seq<string>, cols: seq<Option<Column>>) {
    && |h| == |cols|
    && (forall i | 0 <= i < |cols| && cols[i].Some? :: StartsWith(h[i], Prefix(cols[i].value)))
    && (forall i | 0 <= i < |cols| && cols[i].None? :: Unnamed(h[i]))
    && (forall i, j | 0 <= i < j < |cols| && cols[i].Some? :: cols[i] != cols[j])
  }

  /** Any order, any capitals, anything after the prefix; the decision among the columns. */
  ghost predicate IsHeader(heads: seq<string>, cols: seq<Option<Column>>) {
    Names(LowerAll(heads), cols) && Some(Title) in cols
  }

  /** Fields without a column hold what a missing cell is read as. */
  ghost predicate Fits(d: Decision, cols: seq<Option<Column>>) {
    && d.rowKey != "" && d.decidedAt != Some("") && d.tier != Some(0)
    && (forall c: Column :: Some(c) !in cols && c != Number && c != AudienceName ==> CellOf(d, c) == "")
    && (Some(AudienceName) !in cols ==> d.audience == Team)
  }

  /** The rows of these decisions, in order. */
  ghost predicate AreDecisionRows(rows: seq<seq<string>>, ds: seq<Decision>, cols: seq<Option<Column>>) {
    |rows| == |ds| && forall i | 0 <= i < |ds| :: IsDecisionRow(rows[i], ds[i], cols) && Fits(ds[i], cols)
  }

  /** No name starts with two of the prefixes. */
  lemma PrefixesDiffer(head: string, c: Column, d: Column)
    requires StartsWith(head, Prefix(c)) && StartsWith(head, Prefix(d))
    ensures c == d
  {
    var p, q := Prefix(c), Prefix(d);
    assert forall i | 0 <= i < |p| && i < |q| :: p[i] == head[i] == q[i];
    PrefixLetters(c);
    PrefixLetters(d);
  }

  lemma PrefixLetters(c: Column)
    ensures var p := Prefix(c);
            match c
            case Number => p[0] == '#'
            case Date => |p| == 4 && p[0] == 'd' && p[1] == 'a'
            case Title => |p| == 8 && p[0] == 'd' && p[1] == 'e' && p[4] == 's'
            case Rationale => p[0] == 'r'
            case DecidedBy => |p| == 7 && p[0] == 'd' && p[1] == 'e' && p[4] == 'd'
            case Impact => p[0] == 'i'
            case Type => p[0] == 't'
            case AudienceName => p[0] == 'a'
    ensures |Prefix(c)| > 0
  {
  }

  /** The cell found under a column's prefix is the cell of that column. */
  lemma ColumnIsRead(h: seq<string>, cols: seq<Option<Column>>, cells: seq<string>, d: Decision, c: Column)
    requires Names(h, cols) && IsDecisionRow(cells, d, cols)
    ensures At(h, cells, Prefix(c)) == if Some(c) in cols then CellOf(d, c) else ""
    ensures Some(c) in cols ==> 0 <= FindPrefix(h, Prefix(c)) < |cells|
  {
    FindsColumn(h, cols, c);
  }

  lemma FindsColumn(h: seq<string>, cols: seq<Option<Column>>, c: Column)
    requires Names(h, cols)
    ensures var i := FindPrefix(h, Prefix(c)); if Some(c) in cols then i >= 0 && cols[i] == Some(c) else i == -1
  {
    var i := FindPrefix(h, Prefix(c));
    if Some(c) in cols {
      var k :| 0 <= k < |cols| && cols[k] == Some(c);
      assert StartsWith(h[k], Prefix(c));
    }
    if i >= 0 && cols[i].Some? {
      PrefixesDiffer(h[i], c, cols[i].value);
    }
  }

  lemma AudienceIsRead(d: Decision, cell: string)
    requires cell == CellOf(d, AudienceName) || (cell == "" && d.audience.Team?)
    ensures AudienceOf(cell) == d.audience
  {
    assert "team"[0] == 't' && "external"[0] == 'e';
  }

  lemma TypeIsRead(d: Decision, cell: string)
    requires cell == CellOf(d, Type) && d.tier != Some(0)
    ensures ParseTier(cell) == d.tier
  {
    TierRoundTrip(d.tier);
  }

  lemma DateIsRead(d: Decision, cell: string)
    requires cell == CellOf(d, Date) && d.decidedAt != Some("")
    ensures NonEmpty(cell) == d.decidedAt
  {
  }

  lemma FromItsCells(d: Decision, date: string, tier: string, audience: string)
    requires NonEmpty(date) == d.decidedAt && ParseTier(tier) == d.tier && AudienceOf(audience) == d.audience
    ensures FromCells(d.rowKey, date, d.title, d.rationale, d.decidedBy, d.impact, tier, audience) == d
  {
  }

  /** A column that is missing reads as what `Fits` wants there. */
  lemma FieldIsRead(h: seq<string>, cols: seq<Option<Column>>, cells: seq<string>, d: Decision, c: Column)
    requires Names(h, cols) && IsDecisionRow(cells, d, cols) && Fits(d, cols)
    ensures c != Number && c != AudienceName ==> At(h, cells, Prefix(c)) == CellOf(d, c)
    ensures c == AudienceName ==>
              var a := At(h, cells, Prefix(c)); a == CellOf(d, c) || (a == "" && d.audience.Team?)
  {
    ColumnIsRead(h, cols, cells, d, c);
  }

  lemma NumberIsRead(h: seq<string>, cols: seq<Option<Column>>, cells: seq<string>, d: Decision)
    requires Names(h, cols) && IsDecisionRow(cells, d, cols)
    ensures NumberOf(h, cells) == d.rowKey
  {
    ColumnIsRead(h, cols, cells, d, Number);
    FindsColumn(h, cols, Number);
    NumberOfIs(h, cells, FindPrefix(h, Prefix(Number)));
  }

  lemma NumberOfIs(h: seq<string>, cells: seq<string>, i: int)
    requires i == FindPrefix(h, Prefix(Number))
    ensures NumberOf(h, cells) == if 0 <= i < |cells| then At(h, cells, Prefix(Number)) else Cell(cells, 0)
  {
    assert Prefix(Number) == "#";
  }

  lemma DecisionIsRead(h: seq<string>, cols: seq<Option<Column>>, cells: seq<string>, d: Decision)
    requires Names(h, cols) && IsDecisionRow(cells, d, cols) && Fits(d, cols)
    ensures ReadDecision(h, cells) == d
  {
    NumberIsRead(h, cols, cells, d);
    forall c: Column ensures c != Number && c != AudienceName ==> At(h, cells, Prefix(c)) == CellOf(d, c) {
      FieldIsRead(h, cols, cells, d, c);
    }
    FieldIsRead(h, cols, cells, d, AudienceName);
    var audience := At(h, cells, Prefix(AudienceName));
    AudienceIsRead(d, audience);
    DateIsRead(d, CellOf(d, Date));
    TypeIsRead(d, CellOf(d, Type));
    FromItsCells(d, CellOf(d, Date), CellOf(d, Type), audience);
    ReadsCells(h, cells, d, audience);
  }

  /** The cells put together, given what is read from each. */
  lemma ReadsCells(h: seq<string>, cells: seq<string>, d: Decision, audience: string)
    requires NumberOf(h, cells) == d.rowKey && audience == At(h, cells, Prefix(AudienceName))
    requires forall c: Column :: c != Number && c != AudienceName ==> At(h, cells, Prefix(c)) == CellOf(d, c)
    ensures ReadDecision(h, cells) ==
            FromCells(d.rowKey, CellOf(d, Date), d.title, d.rationale, d.decidedBy, d.impact, CellOf(d, Type), audience)
  {
    assert At(h, cells, Prefix(Date)) == CellOf(d, Date) && At(h, cells, Prefix(Title)) == d.title;
    assert At(h, cells, Prefix(Rationale)) == d.rationale && At(h, cells, Prefix(DecidedBy)) == d.decidedBy;
    assert At(h, cells, Prefix(Impact)) == d.impact && At(h, cells, Prefix(Type)) == CellOf(d, Type);
  }

  lemma ReaderReads(h: seq<string>, cols: seq<Option<Column>>, cells: seq<string>, d: Decision)
    requires Names(h, cols) && IsDecisionRow(cells, d, cols) && Fits(d, cols)
    ensures DecisionReader(h)(cells) == Some(d)
  {
    DecisionIsRead(h, cols, cells, d);
    RowKeyKept(h, cells, d);
  }

  lemma KeyIsNumber(h: seq<string>, cells: seq<string>)
    ensures ReadDecision(h, cells).rowKey == NumberOf(h, cells)
  {
  }

  lemma ReaderNeedsKey(h: seq<string>, cells: seq<string>, d: Decision)
    requires d == ReadDecision(h, cells)
    ensures DecisionReader(h)(cells).Some? <==> d.rowKey != ""
  {
  }

  /** The cell that gives the key: the number's, or the first where the row has none. */
  function KeyCell(cells: seq<string>, i: int): string {
    if 0 <= i < |cells| then cells[i] else if cells != [] then cells[0] else ""
  }

  lemma NumberIsKeyCell(h: seq<string>, cells: seq<string>, i: int)
    requires i == FindPrefix(h, Prefix(Number))
    ensures NumberOf(h, cells) == KeyCell(cells, i)
  {
    NumberOfIs(h, cells, i);
  }

  /** A row gives a decision exactly when that cell is not empty. */
  lemma DecisionReadIff(h: seq<string>, cells: seq<string>, i: int)
    requires i == FindPrefix(h, Prefix(Number))
    ensures DecisionReader(h)(cells).Some? <==> KeyCell(cells, i) != ""
  {
    KeyIsNumber(h, cells);
    ReaderNeedsKey(h, cells, ReadDecision(h, cells));
    NumberIsKeyCell(h, cells, i);
  }

  /** Without a decision column there are none. */
  lemma NoDecisionColumn(head: seq<string>, rest: seq<seq<string>>)
    requires forall k | 0 <= k < |LowerAll(head)| :: !StartsWith(LowerAll(head)[k], "decision")
    ensures DecisionsFrom([head] + rest) == []
  {
  }

  lemma RowKeyKept(h: seq<string>, cells: seq<string>, d: Decision)
    requires ReadDecision(h, cells) == d && d.rowKey != ""
    ensures DecisionReader(h)(cells) == Some(d)
  {
  }

  lemma HasTitle(h: seq<string>, cols: seq<Option<Column>>)
    requires Names(h, cols) && Some(Title) in cols
    ensures FindPrefix(h, "decision") >= 0
  {
    FindsColumn(h, cols, Title);
  }

  lemma DecisionsFromRows(head: seq<string>, rest: seq<seq<string>>)
    requires FindPrefix(LowerAll(head), "decision") >= 0
    ensures DecisionsFrom([head] + rest) == ReadRows(DecisionReader(LowerAll(head)), rest)
  {
    assert ([head] + rest)[1..] == rest;
  }

  lemma DecisionsAreRead(heads: seq<string>, cols: seq<Option<Column>>, rows: seq<seq<string>>, ds: seq<Decision>)
    requires IsHeader(heads, cols) && AreDecisionRows(rows, ds, cols)
    ensures DecisionsFrom([heads] + rows) == ds
  {
    var h := LowerAll(heads);
    forall i | 0 <= i < |rows| ensures DecisionReader(h)(rows[i]) == Some(ds[i]) {
      ReaderReads(h, cols, rows[i], ds[i]);
    }
    AllRowsAreRead(DecisionReader(h), rows, ds);
    HasTitle(h, cols);
    DecisionsFromRows(heads, rows);
  }

  /**
   A decision table comes back as the decisions it was printed from, under any order of its columns, with
   columns of other names among them, and without a number column where the first cell is the key.
   */
  lemma DecisionTableRoundTrip(doc: seq<DocLine>, heads: seq<string>, cols: seq<Option<Column>>, rows: seq<seq<string>>,
                               ds: seq<Decision>)
    requires forall l | l in doc :: CleanLine(l)
    requires DocRows(doc) == [heads] + rows && IsHeader(heads, cols) && AreDecisionRows(rows, ds, cols)
    ensures ParseDecisionRows(Print(doc)) == ds
  {
    TableRoundTrip(doc);
    DecisionsAreRead(heads, cols, rows, ds);
  }
}
