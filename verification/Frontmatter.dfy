/** The frontmatter reader of scripts/seed-demo.ts. */
module Frontmatter {
  import opened Text

  type Fields = map<string, string>

  const FENCE := "---"
  const CLOSING := "\n---"

  // ----- one line

  predicate IsKeyChar(c: char) {
    'A' <= c <= 'Z' || 'a' <= c <= 'z' || '0' <= c <= '9' || c == '_'
  }

  predicate IsKey(s: string) {
    s != "" && forall i | 0 <= i < |s| :: IsKeyChar(s[i])
  }

  /** What `.` does not match. */
  predicate IsLineEnd(c: char) {
    c == '\n' || c == '\r' || c == '\U{2028}' || c == '\U{2029}'
  }

  predicate IsQuote(c: char) {
    c == '"' || c == '\''
  }

  /** One quote taken off each end. */
  function Unquote(s: string): string {
    var t := if s != "" && IsQuote(s[0]) then s[1..] else s;
    if t != "" && IsQuote(t[|t| - 1]) then t[..|t| - 1] else t
  }

  predicate OneLine(s: string) {
    forall i | 0 <= i < |s| :: !IsLineEnd(s[i])
  }

  /** What the pattern captures, as the clean-up leaves it; none if a line end is inside. */
  function Captured(s: string): Option<string> {
    if OneLine(s) then Some(Trim(Unquote(s))) else None
  }

  /** The value in what follows the colon. */
  function ValueOf(after: string): Option<string> {
    Captured(TrimStart(after))
  }

  /** How many leading characters of a line may stand in a key. */
  function KeyLength(line: string): (n: nat)
    ensures n <= |line| && forall i | 0 <= i < n :: IsKeyChar(line[i])
    ensures n < |line| ==> !IsKeyChar(line[n])
  {
    if line != "" && IsKeyChar(line[0]) then 1 + KeyLength(line[1..]) else 0
  }

  datatype Entry = Entry(key: string, value: string)

  function WithKey(key: string, value: Option<string>): Option<Entry> {
    if value.None? then None else Some(Entry(key, value.value))
  }

  /** The key and value of a line that has them. */
  function ReadLine(line: string): Option<Entry> {
    var n := KeyLength(line);
    if n == 0 || n == |line| || line[n] != ':' then None else WithKey(line[..n], ValueOf(line[n + 1..]))
  }

  function ReadLines(fm: Fields, lines: seq<string>): Fields
    decreases lines
  {
    if lines == [] then fm
    else
      var e := ReadLine(lines[0]);
      ReadLines(if e.Some? then fm[e.value.key := e.value.value] else fm, lines[1..])
  }

  // ----- the whole file

  /** JavaScript's `slice(from, to)` for indices in range; empty when they cross. */
  function Slice(s: string, from: nat, to: nat): string
    requires from <= |s| && to <= |s|
  {
    if from <= to then s[from..to] else ""
  }

  /** The text between the fences and the body, if the content opens with a fence that is closed. */
  function Sections(content: string): Option<(string, string)> {
    if !StartsWith(content, FENCE) then None
    else
      var end := IndexOf(content, CLOSING, 3);
      if end == -1 then None
      else Some((Slice(content, IndexOf(content, "\n", 0) + 1, end), content[IndexOf(content, "\n", end + 1) + 1..]))
  }

  method ParseFrontmatter(content: string) returns (fm: Fields, body: string)
    ensures Sections(content).None? ==> fm == map[] && body == content
    ensures Sections(content).Some? ==>
              fm == ReadLines(map[], Split(Sections(content).value.0, '\n')) && body == Sections(content).value.1
    // without a fence in front, or without a later one at the start of a line, all of it is body
    ensures !("---" <= content) || (forall k | 3 <= k :: !MatchesAt(content, "\n---", k)) ==>
              fm == map[] && body == content
  {
    fm := map[];
    if !StartsWith(content, FENCE) {
      return fm, content;
    }
    var end := IndexOf(content, CLOSING, 3);
    if end == -1 {
      return fm, content;
    }
    var fmText := Slice(content, IndexOf(content, "\n", 0) + 1, end);
    body := content[IndexOf(content, "\n", end + 1) + 1..];
    var lines := Split(fmText, '\n');
    for i := 0 to |lines|
      invariant ReadLines(fm, lines[i..]) == ReadLines(map[], lines)
    {
      assert lines[i..][1..] == lines[i + 1..];
      var m := ReadLine(lines[i]);
      if m.Some? {
        fm := fm[m.value.key := m.value.value];
      }
    }
  }

  // ----- round trip

  predicate CleanValue(v: string) {
    && Trimmed(v) && OneLine(v)
    && (v != "" ==> !IsQuote(v[0]) && !IsQuote(v[|v| - 1]))
  }

  predicate CleanEntry(e: Entry) {
    IsKey(e.key) && CleanValue(e.value)
  }

  function PrintEntry(e: Entry): string {
    e.key + ": " + e.value
  }

  function EntryLines(es: seq<Entry>): seq<string> {
    if es == [] then [] else [PrintEntry(es[0])] + EntryLines(es[1..])
  }

  /** The fences with the entries between them, one a line. */
  function PrintFence(es: seq<Entry>): string {
    FENCE + (if es == [] then "" else "\n" + Join(EntryLines(es), "\n")) + CLOSING
  }

  /** The fields of a list of entries; a later entry for a key wins. */
  function FieldsOf(fm: Fields, es: seq<Entry>): Fields
    decreases es
  {
    if es == [] then fm else FieldsOf(fm[es[0].key := es[0].value], es[1..])
  }

  lemma TrimStartSpace(v: string, after: string)
    requires after == " " + v
    ensures TrimStart(after) == TrimStart(v)
  {
    assert after[0] == ' ' && after[1..] == v;
  }

  lemma TrimStartShortens(s: string, r: string)
    requires r == TrimStart(s)
    ensures |r| <= |s| && (r != s ==> |r| < |s|)
  {
  }

  lemma TrimShortens(s: string, r: string)
    requires r == Trim(s)
    ensures |r| <= |s| && Trimmed(r)
  {
    TrimIsTrimmed(s);
  }

  lemma UnquoteFixed(s: string)
    ensures |Unquote(s)| <= |s|
    ensures Unquote(s) == s <==> (s != "" ==> !IsQuote(s[0]) && !IsQuote(s[|s| - 1]))
    ensures Unquote(s) != s ==> |Unquote(s)| < |s|
  {
  }

  lemma CapturedParts(s: string, v: string)
    requires Captured(s) == Some(v)
    ensures OneLine(s) && Trim(Unquote(s)) == v
  {
  }

  lemma NothingShortened(v: string, r: string, u: string)
    requires r == TrimStart(v) && u == Unquote(r) && |v| <= |u|
    ensures r == v && u == v
  {
    TrimStartShortens(v, r);
    UnquoteFixed(r);
    assert |v| == |r| == |u|;
  }

  /** Every part of the clean-up only shortens, so one that returns its input has changed nothing. */
  lemma CapturedIsSame(v: string)
    requires Captured(TrimStart(v)) == Some(v)
    ensures TrimStart(v) == v && OneLine(v) && Unquote(v) == v && Trimmed(v)
  {
    var r := TrimStart(v);
    CapturedParts(r, v);
    TrimShortens(Unquote(r), v);
    NothingShortened(v, r, Unquote(r));
  }

  lemma SameIsCaptured(v: string)
    requires TrimStart(v) == v && OneLine(v) && Unquote(v) == v && Trim(v) == v
    ensures Captured(TrimStart(v)) == Some(v)
  {
  }

  lemma CapturedIsClean(v: string)
    ensures Captured(TrimStart(v)) == Some(v) <==> CleanValue(v)
  {
    UnquoteFixed(v);
    TrimFixed(v);
    if Captured(TrimStart(v)) == Some(v) {
      CapturedIsSame(v);
    }
    if CleanValue(v) {
      assert TrimStart(v) == v;
      SameIsCaptured(v);
    }
  }

  /** A value is read back as it was written exactly when it is clean. */
  lemma ValueRoundTrip(v: string)
    ensures ValueOf(" " + v) == Some(v) <==> CleanValue(v)
  {
    TrimStartSpace(v, " " + v);
    CapturedIsClean(v);
  }

  lemma KeyLengthIs(k: string, rest: string)
    requires IsKey(k) && (rest == "" || !IsKeyChar(rest[0]))
    ensures KeyLength(k + rest) == |k|
  {
    var n := KeyLength(k + rest);
    assert forall i | 0 <= i < |k| :: (k + rest)[i] == k[i];
    assert n >= |k|;
    assert rest != "" ==> (k + rest)[|k|] == rest[0];
  }

  lemma ReadKeyed(line: string, n: nat, key: string, after: string)
    requires n == KeyLength(line) && 0 < n < |line| && line[n] == ':' && line[..n] == key && line[n + 1..] == after
    ensures ReadLine(line) == WithKey(key, ValueOf(after))
  {
  }

  lemma ReadPrinted(e: Entry)
    requires CleanEntry(e)
    ensures ReadLine(PrintEntry(e)) == Some(e)
  {
    var line, n := PrintEntry(e), |e.key|;
    assert line == e.key + (": " + e.value);
    KeyLengthIs(e.key, ": " + e.value);
    assert line[n] == ':' && line[n + 1..] == " " + e.value && line[..n] == e.key;
    ValueRoundTrip(e.value);
    ReadKeyed(line, n, e.key, " " + e.value);
  }

  lemma UnquoteBoth(s: string, inside: string, v: string)
    requires s != "" && IsQuote(s[0]) && s[1..] == inside
    requires inside != "" && IsQuote(inside[|inside| - 1]) && inside[..|inside| - 1] == v
    ensures Unquote(s) == v
  {
  }

  lemma QuotesOff(v: string, q: char, s: string)
    requires OneLine(v) && IsQuote(q) && s == [q] + v + [q]
    ensures Unquote(s) == v && OneLine(s)
  {
    var inside := v + [q];
    assert s[1..] == inside && inside[..|v|] == v;
    UnquoteBoth(s, inside, v);
    forall i | 0 <= i < |s| ensures !IsLineEnd(s[i]) {
      if 0 < i <= |v| {
        assert s[i] == v[i - 1];
      }
    }
  }

  lemma StartsAtOnce(s: string)
    requires s != "" && IsQuote(s[0])
    ensures TrimStart(s) == s
  {
    assert !IsSpace(s[0]);
  }

  lemma CapturedIs(s: string, v: string)
    requires OneLine(s) && Unquote(s) == v && Trim(v) == v
    ensures Captured(s) == Some(v)
  {
  }

  /** Quotes of either kind around a value are taken off. */
  lemma QuotedIsRead(v: string, q: char, s: string, after: string)
    requires CleanValue(v) && (q == '"' || q == '\'') && s == [q] + v + [q] && after == " " + s
    ensures ValueOf(after) == Some(v)
  {
    TrimStartSpace(s, after);
    QuotesOff(v, q, s);
    StartsAtOnce(s);
    TrimFixed(v);
    CapturedIs(s, v);
  }

  /** A word and a colon at `n`, and behind them, white space aside, no line end. */
  ghost predicate FieldAt(line: string, n: nat) {
    && 0 < n < |line| && line[n] == ':'
    && (forall i | 0 <= i < n ::
          'A' <= line[i] <= 'Z' || 'a' <= line[i] <= 'z' || '0' <= line[i] <= '9' || line[i] == '_')
    && var after := TrimStart(line[n + 1..]);
       forall i | 0 <= i < |after| ::
         after[i] != '\n' && after[i] != '\r' && after[i] != '\U{2028}' && after[i] != '\U{2029}'
  }

  lemma FieldIsRead(line: string, n: nat)
    requires FieldAt(line, n)
    ensures ReadLine(line).Some? && ReadLine(line).value.key == line[..n]
  {
    assert KeyLength(line) == n;
    assert OneLine(TrimStart(line[n + 1..]));
    ReadKeyed(line, n, line[..n], line[n + 1..]);
  }

  lemma ReadParts(line: string, n: nat, after: string)
    requires n == KeyLength(line) && ReadLine(line).Some? && after == if n < |line| then line[n + 1..] else ""
    ensures 0 < n < |line| && line[n] == ':' && OneLine(TrimStart(after))
  {
    assert ReadLine(line) == WithKey(line[..n], ValueOf(after));
  }

  lemma PartsAreField(line: string, n: nat, after: string)
    requires 0 < n < |line| && line[n] == ':' && line[n + 1..] == after && OneLine(TrimStart(after))
    requires forall i | 0 <= i < n :: IsKeyChar(line[i])
    ensures FieldAt(line, n)
  {
    var value := TrimStart(after);
    assert forall i | 0 <= i < |value| :: !IsLineEnd(value[i]);
  }

  lemma ReadIsField(line: string)
    requires ReadLine(line).Some?
    ensures FieldAt(line, KeyLength(line))
  {
    var n := KeyLength(line);
    var after := if n < |line| then line[n + 1..] else "";
    ReadParts(line, n, after);
    PartsAreField(line, n, after);
  }

  /** A line gives a field exactly when it has one, and then under the word in front of the colon. */
  lemma FieldIff(line: string)
    ensures ReadLine(line).Some? <==> exists n: nat :: FieldAt(line, n)
    ensures forall n: nat | FieldAt(line, n) :: ReadLine(line).Some? && ReadLine(line).value.key == line[..n]
  {
    if ReadLine(line).Some? {
      ReadIsField(line);
    }
    forall n: nat | FieldAt(line, n) ensures ReadLine(line).Some? && ReadLine(line).value.key == line[..n] {
      FieldIsRead(line, n);
    }
  }

  predicate PlainLine(l: string) {
    '\n' !in l && l != "" && l[0] != '-'
  }

  lemma PrintedIsLine(e: Entry)
    requires CleanEntry(e)
    ensures PlainLine(PrintEntry(e))
  {
    assert forall i | 0 <= i < |e.key| :: e.key[i] != '\n';
    assert forall i | 0 <= i < |e.value| :: e.value[i] != '\n';
  }

  lemma {:induction false} ReadEntryLines(fm: Fields, es: seq<Entry>)
    requires forall e | e in es :: CleanEntry(e)
    ensures ReadLines(fm, EntryLines(es)) == FieldsOf(fm, es)
    ensures forall l | l in EntryLines(es) :: PlainLine(l)
    decreases es
  {
    if es == [] {
    } else {
      ReadPrinted(es[0]);
      PrintedIsLine(es[0]);
      assert EntryLines(es)[1..] == EntryLines(es[1..]);
      ReadEntryLines(fm[es[0].key := es[0].value], es[1..]);
    }
  }

  /** A line put in front of a text that does not begin with a dash adds no fence. */
  lemma LineInFront(first: string, tail: string, text: string, k: nat)
    requires '\n' !in first && text == first + "\n" + tail && tail != "" && tail[0] != '-'
    requires k > |first| ==> !MatchesAt(tail, CLOSING, k - |first| - 1)
    ensures !MatchesAt(text, CLOSING, k)
  {
    if k < |first| {
      assert text[k] == first[k];
      NotAtOtherChar(text, k);
    } else if k == |first| {
      assert text[k + 1] == tail[0];
      NotBeforeOtherChar(text, k);
    } else {
      assert text[|first| + 1..] == tail;
      MatchInSuffix(text, |first| + 1, k);
    }
  }

  /** Lines that do not begin with a dash hide no fence, wherever they are joined. */
  lemma {:induction false} NoFenceInside(lines: seq<string>, k: nat)
    requires lines != [] && (forall l | l in lines :: PlainLine(l)) && k < |Join(lines, "\n")|
    ensures !MatchesAt(Join(lines, "\n") + CLOSING, CLOSING, k)
  {
    var text := Join(lines, "\n") + CLOSING;
    assert PlainLine(lines[0]);
    if |lines| == 1 {
      assert text[k] == lines[0][k];
      NotAtOtherChar(text, k);
    } else {
      assert PlainLine(lines[1..][0]);
      JoinStarts(lines[1..]);
      if k > |lines[0]| {
        NoFenceInside(lines[1..], k - |lines[0]| - 1);
      }
      assert text == lines[0] + "\n" + (Join(lines[1..], "\n") + CLOSING);
      LineInFront(lines[0], Join(lines[1..], "\n") + CLOSING, text, k);
    }
  }

  lemma JoinStarts(lines: seq<string>)
    requires lines != [] && lines[0] != ""
    ensures Join(lines, "\n") != "" && Join(lines, "\n")[0] == lines[0][0]
  {
  }

  lemma NotAtOtherChar(text: string, k: nat)
    requires k < |text| && text[k] != '\n'
    ensures !MatchesAt(text, CLOSING, k)
  {
    assert k + 4 <= |text| ==> text[k..k + 4][0] == text[k];
  }

  lemma NotBeforeOtherChar(text: string, k: nat)
    requires k + 1 < |text| && text[k + 1] != '-'
    ensures !MatchesAt(text, CLOSING, k)
  {
    assert k + 4 <= |text| ==> text[k..k + 4][1] == text[k + 1];
  }

  lemma MatchInSuffix(text: string, shift: nat, k: nat)
    requires shift <= k && shift <= |text|
    ensures MatchesAt(text, CLOSING, k) <==> MatchesAt(text[shift..], CLOSING, k - shift)
  {
    assert k + 4 <= |text| ==> text[k..k + 4] == text[shift..][k - shift..k - shift + 4];
  }

  /** The opening fence is a line in front of the entries and the closing one. */
  lemma FenceIsALine(es: seq<Entry>, text: string)
    requires es != [] && text == Join(EntryLines(es), "\n")
    ensures PrintFence(es) == FENCE + "\n" + (text + CLOSING)
  {
  }

  lemma EntriesStart(es: seq<Entry>, text: string)
    requires es != [] && (forall e | e in es :: CleanEntry(e)) && text == Join(EntryLines(es), "\n")
    ensures text != "" && text[0] != '-' && EntryLines(es) != [] && forall l | l in EntryLines(es) :: PlainLine(l)
  {
    ReadEntryLines(map[], es);
    assert PlainLine(EntryLines(es)[0]);
    JoinStarts(EntryLines(es));
  }

  lemma NoEarlierClosing(es: seq<Entry>, k: nat)
    requires forall e | e in es :: CleanEntry(e)
    requires 3 <= k < |PrintFence(es)| - 4
    ensures !MatchesAt(PrintFence(es), CLOSING, k)
  {
    var text := Join(EntryLines(es), "\n");
    FenceIsALine(es, text);
    EntriesStart(es, text);
    if k > 3 {
      NoFenceInside(EntryLines(es), k - 4);
    }
    LineInFront(FENCE, text + CLOSING, PrintFence(es), k);
  }

  /** The closing fence found is the one that was printed, whatever follows it. */
  lemma ClosingFound(es: seq<Entry>, after: string)
    requires forall e | e in es :: CleanEntry(e)
    ensures IndexOf(PrintFence(es) + after, CLOSING, 3) == |PrintFence(es)| - 4
  {
    var fence := PrintFence(es);
    var at := |fence| - 4;
    assert fence[at..] == CLOSING;
    MatchInPrefix(fence, after, CLOSING, at);
    forall k | 3 <= k < at ensures !MatchesAt(fence + after, CLOSING, k) {
      MatchInPrefix(fence, after, CLOSING, k);
      NoEarlierClosing(es, k);
    }
    IndexOfIs(fence + after, CLOSING, 3, at);
  }

  /** What is cut off as the body behind a fence that something follows. */
  function BodyBehind(fence: string, after: string): string {
    var nl := IndexOf(after, "\n", 0);
    if nl == -1 then fence + after else after[nl + 1..]
  }

  /**
   Whatever follows the closing fence on its line and after it: the fields come back as they were printed,
   and the body is the text behind the first newline, or the whole content where there is none.
   */
  lemma SectionsOf(es: seq<Entry>, after: string)
    requires forall e | e in es :: CleanEntry(e)
    ensures var content := PrintFence(es) + after;
            && Sections(content).Some?
            && ReadLines(map[], Split(Sections(content).value.0, '\n')) == FieldsOf(map[], es)
            && Sections(content).value.1 == BodyBehind(PrintFence(es), after)
  {
    var fence := PrintFence(es);
    var content := fence + after;
    ClosingFound(es, after);
    FenceEnds(es);
    BodyStarts(fence, after, |fence| - 3);
    EntriesBetween(es, content);
    SectionsAre(content, fence, |fence| - 4);
  }

  lemma FenceEnds(es: seq<Entry>)
    ensures var fence := PrintFence(es);
            && |fence| >= 7 && fence[..3] == FENCE
            && forall k | |fence| - 3 <= k < |fence| :: fence[k] != '\n'
  {
    var fence := PrintFence(es);
    assert forall k | |fence| - 3 <= k < |fence| :: fence[k] == CLOSING[k - (|fence| - 4)];
  }

  lemma SectionsAre(content: string, fence: string, end: nat)
    requires fence <= content && |fence| >= 3 && fence[..3] == FENCE && IndexOf(content, CLOSING, 3) == end
    ensures Sections(content) ==
            Some((Slice(content, IndexOf(content, "\n", 0) + 1, end), content[IndexOf(content, "\n", end + 1) + 1..]))
  {
    assert content[..3] == fence[..3];
  }

  /** The body is what stands behind the closing fence if its line ends, and otherwise the whole content. */
  lemma BodyIsWholeIff(es: seq<Entry>, after: string)
    requires forall e | e in es :: CleanEntry(e)
    ensures Sections(PrintFence(es) + after).Some?
    ensures Sections(PrintFence(es) + after).value.1 == PrintFence(es) + after <==> '\n' !in after
  {
    SectionsOf(es, after);
    NewlineOrNone(after);
  }

  lemma NewlineOrNone(s: string)
    ensures IndexOf(s, "\n", 0) == -1 <==> '\n' !in s
  {
    forall k | 0 <= k < |s| ensures MatchesAt(s, "\n", k) <==> s[k] == '\n' {
      assert s[k..k + 1] == [s[k]];
    }
  }

  /**
   Frontmatter and body come back as they were printed, for every body, also one with fences in it.
   */
  lemma FrontmatterRoundTrip(es: seq<Entry>, body: string)
    requires forall e | e in es :: CleanEntry(e)
    ensures var content := PrintFence(es) + "\n" + body;
            && Sections(content).Some?
            && ReadLines(map[], Split(Sections(content).value.0, '\n')) == FieldsOf(map[], es)
            && Sections(content).value.1 == body
  {
    var after := "\n" + body;
    assert PrintFence(es) + "\n" + body == PrintFence(es) + after;
    SectionsOf(es, after);
    NewlineAt(after, 0, 0);
    assert after[1..] == body;
  }

  /** The search for the end of the fence line looks behind its last newline, so it looks into `after`. */
  lemma BodyStarts(fence: string, after: string, from: nat)
    requires from <= |fence| && forall k | from <= k < |fence| :: fence[k] != '\n'
    ensures var content := fence + after;
            content[IndexOf(content, "\n", from) + 1..] == BodyBehind(fence, after)
  {
    var content := fence + after;
    var nl := IndexOf(after, "\n", 0);
    forall k | from <= k < |content| && (k < |fence| || nl == -1 || k - |fence| < nl) ensures content[k] != '\n' {
      if k >= |fence| {
        assert content[k] == after[k - |fence|];
        assert !MatchesAt(after, "\n", k - |fence|);
        assert after[k - |fence|..k - |fence| + 1] == [after[k - |fence|]];
      }
    }
    if nl == -1 {
      NoNewlineAfter(content, from);
    } else {
      assert after[nl..nl + 1] == [after[nl]];
      NewlineAt(content, |fence| + nl, from);
      assert content[|fence| + nl + 1..] == after[nl + 1..];
    }
  }

  lemma NoNewlineAfter(content: string, from: nat)
    requires from <= |content| && forall k | from <= k < |content| :: content[k] != '\n'
    ensures IndexOf(content, "\n", from) == -1
  {
    forall k | from <= k ensures !MatchesAt(content, "\n", k) {
      if k < |content| {
        assert content[k..k + 1] == [content[k]];
      }
    }
    IndexOfAbsent(content, "\n", from);
  }

  lemma NewlineAt(content: string, at: nat, from: nat)
    requires from <= at < |content| && content[at] == '\n'
    requires forall k | from <= k < at :: content[k] != '\n'
    ensures IndexOf(content, "\n", from) == at
  {
    forall k | from <= k < at ensures !MatchesAt(content, "\n", k) {
      assert content[k..k + 1] == [content[k]];
    }
    assert content[at..at + 1] == "\n";
    IndexOfIs(content, "\n", from, at);
  }

  lemma EntriesBetween(es: seq<Entry>, content: string)
    requires forall e | e in es :: CleanEntry(e)
    requires PrintFence(es) <= content
    ensures IndexOf(content, "\n", 0) == 3
    ensures ReadLines(map[], Split(Slice(content, 4, |PrintFence(es)| - 4), '\n')) == FieldsOf(map[], es)
  {
    var fence := PrintFence(es);
    assert content[..|fence|] == fence;
    assert fence[..4] == FENCE + "\n";
    assert forall k | 0 <= k < 4 :: content[k] == (FENCE + "\n")[k];
    NewlineAt(content, 3, 0);
    ReadBetween(es, Slice(content, 4, |fence| - 4));
  }

  lemma ReadBetween(es: seq<Entry>, between: string)
    requires forall e | e in es :: CleanEntry(e)
    requires between == if es == [] then "" else Join(EntryLines(es), "\n")
    ensures ReadLines(map[], Split(between, '\n')) == FieldsOf(map[], es)
  {
    ReadEntryLines(map[], es);
    if es == [] {
      assert [""][1..] == [];
      assert ReadLines(map[], [""]) == ReadLines(map[], []);
    } else {
      SplitJoin(EntryLines(es), '\n');
    }
  }

  // ----- carriage returns

  lemma CapturedReturn(v: string, s: string)
    requires CleanValue(v) && s == v + "\r"
    ensures Captured(TrimStart(s)) == if v == "" then Some("") else None
  {
    if v == "" {
      TrimAllSpace(s);
    } else {
      assert s[0] == v[0] && s[|v|] == '\r';
      assert TrimStart(s) == s;
    }
  }

  /** A line that ends in a carriage return gives its field only where the value is empty. */
  lemma ReturnDropsField(e: Entry)
    requires CleanEntry(e)
    ensures ReadLine(PrintEntry(e) + "\r") == if e.value == "" then Some(e) else None
  {
    var line, n := PrintEntry(e) + "\r", |e.key|;
    var after := " " + (e.value + "\r");
    assert line == e.key + (":" + after);
    KeyLengthIs(e.key, ":" + after);
    assert line[n] == ':' && line[n + 1..] == after && line[..n] == e.key;
    TrimStartSpace(e.value + "\r", after);
    CapturedReturn(e.value, e.value + "\r");
    ReadKeyed(line, n, e.key, after);
  }

  function Returned(lines: seq<string>): seq<string> {
    if lines == [] then [] else [lines[0] + "\r"] + Returned(lines[1..])
  }

  function EmptyOnes(es: seq<Entry>): seq<Entry> {
    if es == [] then [] else (if es[0].value == "" then [es[0]] else []) + EmptyOnes(es[1..])
  }

  /** So of a whole file with such line ends only the empty fields are read. */
  lemma {:induction false} ReturnsKeepEmptyFields(fm: Fields, es: seq<Entry>)
    requires forall e | e in es :: CleanEntry(e)
    ensures ReadLines(fm, Returned(EntryLines(es))) == FieldsOf(fm, EmptyOnes(es))
    decreases es
  {
    if es == [] {
    } else {
      var fm' := if es[0].value == "" then fm[es[0].key := es[0].value] else fm;
      ReturnDropsField(es[0]);
      ReturnsKeepEmptyFields(fm', es[1..]);
      var lines := Returned(EntryLines(es));
      assert EntryLines(es)[1..] == EntryLines(es[1..]);
      assert lines[0] == PrintEntry(es[0]) + "\r" && lines[1..] == Returned(EntryLines(es[1..]));
      EmptyOnesStep(fm, es);
    }
  }

  lemma EmptyOnesStep(fm: Fields, es: seq<Entry>)
    requires es != []
    ensures FieldsOf(fm, EmptyOnes(es)) ==
            FieldsOf(if es[0].value == "" then fm[es[0].key := es[0].value] else fm, EmptyOnes(es[1..]))
  {
    var rest := EmptyOnes(es[1..]);
    assert ([es[0]] + rest)[1..] == rest;
    assert [] + rest == rest;
  }
}
