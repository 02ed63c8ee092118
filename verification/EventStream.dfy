/**
 The event-stream wire format: the printer of lib/api/sse.ts and the meaning of the incremental
 reader in components/query-chat.tsx.  Everything here is a function of the whole text; the reader
 itself, which sees the text in chunks, is in QueryChat.dfy and is proved against these functions.
 */
module EventStream {
  import opened Text

  datatype Frame = Frame(event: string, data: string)

  const BLANK := "\n\n"
  const EVENT_FIELD := "event: "
  const DATA_FIELD := "data: "

  // ----- printing

  /** One printed frame; `json` is the serialised payload. */
  function FormatFrame(event: string, json: string): string {
    EVENT_FIELD + event + "\n" + DATA_FIELD + json + BLANK
  }

  function FormatAll(frames: seq<Frame>): string {
    if frames == [] then ""
    else FormatFrame(frames[0].event, frames[0].data) + FormatAll(frames[1..])
  }

  // ----- cutting the text into raw frames

  /** Complete raw frames, and the unfinished tail that stays in the reader's buffer. */
  datatype Cut = Cut(frames: seq<string>, rest: string)

  function CutFrames(text: string): (c: Cut)
    ensures IndexOf(c.rest, BLANK, 0) == -1
    ensures |c.rest| <= |text|
  {
    var sep := IndexOf(text, BLANK, 0);
    if sep == -1 then Cut([], text)
    else
      var c := CutFrames(text[sep + 2..]);
      Cut([text[..sep]] + c.frames, c.rest)
  }

  function Unsplit(frames: seq<string>): string {
    if frames == [] then "" else frames[0] + BLANK + Unsplit(frames[1..])
  }

  /**
   Which division of a text into frames and tail is the right one, said without any scanning:
   putting it back together gives the text, every frame ends at the first blank line after its
   start, and no blank line is left in the tail.
   */
  ghost predicate IsCutting(text: string, frames: seq<string>, rest: string) {
    && text == Unsplit(frames) + rest
    && (forall f, k | f in frames && 0 <= k < |f| :: !MatchesAt(f + BLANK, BLANK, k))
    && (forall k :: !MatchesAt(rest, BLANK, k))
  }

  lemma FirstBlank(f: string, s: string)
    requires forall k | 0 <= k < |f| :: !MatchesAt(f + BLANK, BLANK, k)
    ensures IndexOf(f + BLANK + s, BLANK, 0) == |f|
  {
    var t := f + BLANK + s;
    assert t == (f + BLANK) + s;
    forall k | 0 <= k < |f| ensures !MatchesAt(t, BLANK, k) {
      MatchInPrefix(f + BLANK, s, BLANK, k);
    }
    assert MatchesAt(t, BLANK, |f|);
    IndexOfIs(t, BLANK, 0, |f|);
  }

  /** There is exactly one right division, and `CutFrames` finds it. */
  lemma CutIsTheCutting(text: string, frames: seq<string>, rest: string)
    ensures IsCutting(text, frames, rest) <==> CutFrames(text) == Cut(frames, rest)
    decreases |text| + |frames|
  {
    if IsCutting(text, frames, rest) {
      CuttingIsUnique(text, frames, rest);
    }
    CutIsACutting(text);
  }

  lemma {:induction false} CuttingIsUnique(text: string, frames: seq<string>, rest: string)
    requires IsCutting(text, frames, rest)
    ensures CutFrames(text) == Cut(frames, rest)
    decreases |frames|
  {
    if frames == [] {
      assert text == rest;
      IndexOfAbsent(text, BLANK, 0);
    } else {
      var tail := Unsplit(frames[1..]) + rest;
      assert text == frames[0] + BLANK + tail;
      FirstBlank(frames[0], tail);
      assert text[|frames[0]| + 2..] == tail;
      assert text[..|frames[0]|] == frames[0];
      CuttingIsUnique(tail, frames[1..], rest);
      assert frames == [frames[0]] + frames[1..];
    }
  }

  lemma {:induction false} CutIsACutting(text: string)
    ensures IsCutting(text, CutFrames(text).frames, CutFrames(text).rest)
  {
    var sep := IndexOf(text, BLANK, 0);
    if sep == -1 {
      assert text == Unsplit([]) + text;
      assert forall k | k < 0 :: !MatchesAt(text, BLANK, k);
    } else {
      var tail := text[sep + 2..];
      CutIsACutting(tail);
      assert text == text[..sep] + BLANK + tail;
      CuttingGrows(text, text[..sep], tail, CutFrames(tail).frames, CutFrames(tail).rest);
    }
  }

  /** A cutting of what follows the first separator, with the text before it put in front. */
  lemma CuttingGrows(text: string, f: string, tail: string, frames: seq<string>, rest: string)
    requires text == f + BLANK + tail && IsCutting(tail, frames, rest)
    requires forall k | 0 <= k < |f| :: !MatchesAt(text, BLANK, k)
    ensures IsCutting(text, [f] + frames, rest)
  {
    assert text == (f + BLANK) + tail;
    forall k | 0 <= k < |f| ensures !MatchesAt(f + BLANK, BLANK, k) {
      MatchInPrefix(f + BLANK, tail, BLANK, k);
    }
    assert ([f] + frames)[1..] == frames;
    assert Unsplit([f] + frames) + rest == f + BLANK + (Unsplit(frames) + rest);
  }

  /**
   Chunk invariance.  Reading `a` and then `b` yields the frames of `a` followed by the frames of
   what was left of `a` joined to `b`, wherever the cut falls, also between the two newlines of a
   separator.
   */
  lemma CutAppend(a: string, b: string)
    ensures CutFrames(a + b) ==
            Cut(CutFrames(a).frames + CutFrames(CutFrames(a).rest + b).frames,
                CutFrames(CutFrames(a).rest + b).rest)
  {
    var c := CutFrames(a);
    var d := CutFrames(c.rest + b);
    CutIsACutting(a);
    CutIsACutting(c.rest + b);
    CuttingsCompose(a, c.frames, c.rest, b, d.frames, d.rest);
    CuttingIsUnique(a + b, c.frames + d.frames, d.rest);
  }

  lemma CuttingsCompose(a: string, fa: seq<string>, ra: string, b: string, fb: seq<string>, rb: string)
    requires IsCutting(a, fa, ra) && IsCutting(ra + b, fb, rb)
    ensures IsCutting(a + b, fa + fb, rb)
  {
    UnsplitAppend(fa, fb);
    assert a + b == Unsplit(fa) + (ra + b);
    assert Unsplit(fa + fb) + rb == Unsplit(fa) + (Unsplit(fb) + rb);
  }

  lemma {:induction false} UnsplitAppend(a: seq<string>, b: seq<string>)
    ensures Unsplit(a + b) == Unsplit(a) + Unsplit(b)
  {
    if a == [] {
      assert a + b == b;
    } else {
      assert (a + b)[1..] == a[1..] + b;
      UnsplitAppend(a[1..], b);
    }
  }

  // ----- reading one raw frame

  function ReadLine(acc: Frame, line: string): Frame {
    if StartsWith(line, EVENT_FIELD) then acc.(event := Trim(line[|EVENT_FIELD|..]))
    else if StartsWith(line, DATA_FIELD) then acc.(data := acc.data + line[|DATA_FIELD|..])
    else acc
  }

  function ReadLines(acc: Frame, lines: seq<string>): Frame
    decreases lines
  {
    if lines == [] then acc else ReadLines(ReadLine(acc, lines[0]), lines[1..])
  }

  const NO_FIELDS := Frame("message", "")

  function ReadFrame(raw: string): Frame {
    ReadLines(NO_FIELDS, Split(raw, '\n'))
  }

  /** A frame without data is not handed to the consumer. */
  function WithData(f: Frame): seq<Frame> {
    if f.data != "" then [f] else []
  }

  function Dispatched(raw: seq<string>): seq<Frame> {
    if raw == [] then [] else WithData(ReadFrame(raw[0])) + Dispatched(raw[1..])
  }

  lemma {:induction false} DispatchedAppend(a: seq<string>, b: seq<string>)
    ensures Dispatched(a + b) == Dispatched(a) + Dispatched(b)
  {
    if a == [] {
      assert a + b == b;
    } else {
      assert (a + b)[1..] == a[1..] + b;
      DispatchedAppend(a[1..], b);
      var head := WithData(ReadFrame(a[0]));
      assert head + (Dispatched(a[1..]) + Dispatched(b)) == (head + Dispatched(a[1..])) + Dispatched(b);
    }
  }

  /** What a reader that saw the whole text at once would dispatch. */
  function ParseStream(text: string): seq<Frame> {
    Dispatched(CutFrames(text).frames)
  }

  // ----- round trip

  predicate Line(s: string) {
    '\n' !in s
  }

  /** The frames that survive printing and reading. */
  predicate Clean(f: Frame) {
    Line(f.event) && Trimmed(f.event) && Line(f.data) && f.data != ""
  }

  lemma ReadLineShape(acc: Frame, line: string)
    requires Line(line) && Line(acc.event) && Trimmed(acc.event) && Line(acc.data)
    ensures var f := ReadLine(acc, line); Line(f.event) && Trimmed(f.event) && Line(f.data)
  {
    if StartsWith(line, EVENT_FIELD) {
      TrimIsTrimmed(line[7..]);
    }
  }

  lemma {:induction false} ReadLinesShape(acc: Frame, lines: seq<string>)
    requires forall l | l in lines :: Line(l)
    requires Line(acc.event) && Trimmed(acc.event) && Line(acc.data)
    decreases lines
    ensures var f := ReadLines(acc, lines); Line(f.event) && Trimmed(f.event) && Line(f.data)
  {
    if lines == [] {
    } else {
      ReadLineShape(acc, lines[0]);
      ReadLinesShape(ReadLine(acc, lines[0]), lines[1..]);
    }
  }

  /** Whatever text arrives, every dispatched frame is clean. */
  lemma {:induction false} DispatchedAreClean(raw: seq<string>)
    ensures forall f | f in Dispatched(raw) :: Clean(f)
  {
    if raw == [] {
    } else {
      ReadLinesShape(NO_FIELDS, Split(raw[0], '\n'));
      DispatchedAreClean(raw[1..]);
    }
  }

  /** A clean frame as the raw text between separators. */
  function RawFrame(f: Frame): string {
    EVENT_FIELD + f.event + "\n" + DATA_FIELD + f.data
  }

  lemma ReadEvent(acc: Frame, event: string, line: string)
    requires line == EVENT_FIELD + event && Trimmed(event)
    ensures ReadLine(acc, line) == acc.(event := event)
  {
    assert line[..|EVENT_FIELD|] == EVENT_FIELD && line[|EVENT_FIELD|..] == event;
    TrimFixed(event);
  }

  lemma ReadData(acc: Frame, data: string, line: string)
    requires line == DATA_FIELD + data
    ensures ReadLine(acc, line) == acc.(data := acc.data + data)
  {
    assert line[..|DATA_FIELD|] == DATA_FIELD && line[|DATA_FIELD|..] == data;
    assert line[0] == 'd' && EVENT_FIELD[0] == 'e';
  }

  lemma ReadLinesStep(acc: Frame, line: string, rest: seq<string>)
    ensures ReadLines(acc, [line] + rest) == ReadLines(ReadLine(acc, line), rest)
  {
    assert ([line] + rest)[1..] == rest;
  }

  lemma ReadLinesAt(acc: Frame, lines: seq<string>, i: nat)
    requires i < |lines|
    ensures ReadLines(acc, lines[i..]) == ReadLines(ReadLine(acc, lines[i]), lines[i + 1..])
  {
    assert lines[i..] == [lines[i]] + lines[i + 1..];
    ReadLinesStep(acc, lines[i], lines[i + 1..]);
  }

  lemma ReadTwoLines(acc: Frame, l1: string, l2: string)
    ensures ReadLines(acc, [l1, l2]) == ReadLine(ReadLine(acc, l1), l2)
  {
    ReadLinesStep(acc, l1, [l2]);
    ReadLinesStep(ReadLine(acc, l1), l2, []);
    assert [l1] + [l2] == [l1, l2] && [l2] + [] == [l2];
  }

  lemma SplitTwoLines(text: string, l1: string, l2: string)
    requires Line(l1) && Line(l2) && text == l1 + "\n" + l2
    ensures Split(text, '\n') == [l1, l2]
  {
    SplitFirst(l1, l2, '\n');
  }

  lemma ReadFrameOfLines(raw: string, lines: seq<string>)
    requires Split(raw, '\n') == lines
    ensures ReadFrame(raw) == ReadLines(NO_FIELDS, lines)
  {
  }

  lemma ReadRawFrame(f: Frame)
    requires Clean(f)
    ensures ReadFrame(RawFrame(f)) == f
  {
    var l1, l2 := EVENT_FIELD + f.event, DATA_FIELD + f.data;
    assert RawFrame(f) == l1 + "\n" + l2;
    SplitTwoLines(RawFrame(f), l1, l2);
    ReadFrameOfLines(RawFrame(f), [l1, l2]);
    ReadTwoLines(NO_FIELDS, l1, l2);
    ReadEvent(NO_FIELDS, f.event, l1);
    ReadData(NO_FIELDS.(event := f.event), f.data, l2);
  }

  lemma NoBlankAt(text: string, k: nat, j: nat)
    requires k <= j <= k + 1 && j < |text| && text[j] != '\n'
    ensures !MatchesAt(text, BLANK, k)
  {
    assert k + 2 <= |text| ==> text[k..k + 2][j - k] == text[j];
  }

  lemma TwoLinesHaveNoBlank(l1: string, l2: string, text: string, k: nat)
    requires Line(l1) && Line(l2) && l2 != "" && text == l1 + "\n" + l2 + BLANK && k <= |l1| + |l2|
    ensures !MatchesAt(text, BLANK, k)
  {
    if k < |l1| {
      assert text[k] == l1[k];
      NoBlankAt(text, k, k);
    } else {
      var j := if k == |l1| then k + 1 else k;
      assert text[j] == l2[j - |l1| - 1];
      NoBlankAt(text, k, j);
    }
  }

  lemma FieldLines(f: Frame)
    requires Clean(f)
    ensures Line(EVENT_FIELD + f.event) && Line(DATA_FIELD + f.data)
  {
  }

  lemma RawFrameHasNoBlank(f: Frame)
    requires Clean(f)
    ensures forall k | 0 <= k < |RawFrame(f)| :: !MatchesAt(RawFrame(f) + BLANK, BLANK, k)
  {
    var l1, l2 := EVENT_FIELD + f.event, DATA_FIELD + f.data;
    var text := RawFrame(f) + BLANK;
    assert text == l1 + "\n" + l2 + BLANK;
    FieldLines(f);
    forall k | 0 <= k < |RawFrame(f)| ensures !MatchesAt(text, BLANK, k) {
      TwoLinesHaveNoBlank(l1, l2, text, k);
    }
  }

  function RawFrames(frames: seq<Frame>): seq<string> {
    if frames == [] then [] else [RawFrame(frames[0])] + RawFrames(frames[1..])
  }

  lemma {:induction false} RawFramesCut(frames: seq<Frame>)
    requires forall f | f in frames :: Clean(f)
    ensures IsCutting(FormatAll(frames), RawFrames(frames), "")
  {
    if frames == [] {
    } else {
      RawFrameHasNoBlank(frames[0]);
      RawFramesCut(frames[1..]);
      assert FormatFrame(frames[0].event, frames[0].data) == RawFrame(frames[0]) + BLANK;
      assert RawFrames(frames)[1..] == RawFrames(frames[1..]);
    }
  }

  lemma {:induction false} DispatchedRaw(frames: seq<Frame>)
    requires forall f | f in frames :: Clean(f)
    ensures Dispatched(RawFrames(frames)) == frames
  {
    if frames == [] {
    } else {
      ReadRawFrame(frames[0]);
      DispatchedRaw(frames[1..]);
      assert RawFrames(frames)[1..] == RawFrames(frames[1..]);
    }
  }

  /**
   Stream round trip, exactly: a printed list of frames is read back as that same list with nothing
   left over if and only if every event name is a trimmed line and every payload a non-empty line.
   */
  lemma StreamRoundTrip(frames: seq<Frame>)
    ensures ParseStream(FormatAll(frames)) == frames && CutFrames(FormatAll(frames)).rest == ""
            <==> forall f | f in frames :: Clean(f)
  {
    var text := FormatAll(frames);
    if forall f | f in frames :: Clean(f) {
      RawFramesCut(frames);
      CuttingIsUnique(text, RawFrames(frames), "");
      DispatchedRaw(frames);
    }
    DispatchedAreClean(CutFrames(text).frames);
  }

  /** Text without a separator behind whole frames is not read. */
  lemma TailIsDropped(frames: seq<Frame>, tail: string)
    requires (forall f | f in frames :: Clean(f)) && IndexOf(tail, BLANK, 0) == -1
    ensures ParseStream(FormatAll(frames) + tail) == frames
  {
    StreamRoundTrip(frames);
    CutBehind(FormatAll(frames), tail);
  }

  lemma CutBehind(text: string, tail: string)
    requires CutFrames(text).rest == "" && IndexOf(tail, BLANK, 0) == -1
    ensures CutFrames(text + tail).frames == CutFrames(text).frames
  {
    CutAppend(text, tail);
    assert "" + tail == tail;
    assert CutFrames(text).frames + [] == CutFrames(text).frames;
  }

  // ----- frames of any number of lines

  function DataOf(line: string): string {
    if StartsWith(line, "data: ") then line[6..] else ""
  }

  function EventOf(line: string, name: string): string {
    if StartsWith(line, "event: ") then Trim(line[7..]) else name
  }

  /** The data of the data lines, put together. */
  function DataIn(lines: seq<string>): string {
    if lines == [] then "" else DataOf(lines[0]) + DataIn(lines[1..])
  }

  /** The last event line, trimmed, or the name there already was. */
  function EventIn(lines: seq<string>, name: string): string
    decreases lines
  {
    if lines == [] then name else EventIn(lines[1..], EventOf(lines[0], name))
  }

  lemma FieldsDiffer(line: string)
    ensures !(StartsWith(line, "event: ") && StartsWith(line, "data: "))
  {
    assert StartsWith(line, "event: ") ==> line[0] == line[..7][0] == 'e';
    assert StartsWith(line, "data: ") ==> line[0] == line[..6][0] == 'd';
  }

  lemma LineSays(acc: Frame, line: string)
    ensures ReadLine(acc, line) == Frame(EventOf(line, acc.event), acc.data + DataOf(line))
  {
    FieldsDiffer(line);
    assert acc.data + "" == acc.data;
  }

  lemma {:induction false} LinesSay(acc: Frame, lines: seq<string>)
    ensures ReadLines(acc, lines) == Frame(EventIn(lines, acc.event), acc.data + DataIn(lines))
    decreases lines
  {
    if lines == [] {
    } else {
      LineSays(acc, lines[0]);
      LinesSay(ReadLine(acc, lines[0]), lines[1..]);
      DataGrows(acc.data, DataOf(lines[0]), DataIn(lines[1..]));
    }
  }

  lemma DataGrows(data: string, here: string, rest: string)
    ensures data + (here + rest) == (data + here) + rest
  {
  }

  /** A frame says what its last event line says, "message" if it has none, and all its data lines say. */
  lemma FrameSays(raw: string)
    ensures ReadFrame(raw) == Frame(EventIn(Split(raw, '\n'), "message"), DataIn(Split(raw, '\n')))
  {
    LinesSay(NO_FIELDS, Split(raw, '\n'));
  }
}
