/**
 The chat panel of components/query-chat.tsx: one question asked over a chunked event stream, and the
 bounded poll that reattaches to a run already in flight.
 */
module QueryChat {
  import opened Text
  import opened EventStream

  datatype Status = Streaming | Done | Error
  datatype SourceChip = SourceChip(id: string, itemId: Option<string>, project: string, path: string, kind: string)
  datatype Exchange = Exchange(question: string, answer: string, sources: seq<SourceChip>, status: Status,
                               error: Option<string>)

  /**
   What parsing the data of a frame gives: nothing (not JSON), JSON null, or the fields the panel
   reads, each already turned into text where it is present.
   */
  datatype Payload =
    | Malformed
    | Null
    | Fields(id: Option<string>, text: Option<string>, sources: Option<seq<SourceChip>>, message: Option<string>)

  type Parser = string -> Payload

  // ----- one turn as a value

  /** The turn being streamed: the thread id, the text gathered so far, and the bubble on screen. */
  datatype Turn = Turn(conversationId: Option<string>, answer: string, exchange: Exchange)

  function StartTurn(conversationId: Option<string>, question: string): Turn {
    Turn(conversationId, "", Exchange(question, "", [], Streaming, None))
  }

  /** Reading a field of a null payload throws, and the frame is then skipped. */
  function Handle(t: Turn, event: string, p: Payload): Turn {
    if p.Malformed? then t
    else if event == "done" then t.(exchange := t.exchange.(status := Done))
    else if p.Null? then t
    else if event == "conversation" then
      if Default(p.id, "") != "" then t.(conversationId := p.id) else t
    else if event == "delta" then
      var answer := t.answer + Default(p.text, "");
      t.(answer := answer, exchange := t.exchange.(answer := answer))
    else if event == "sources" then t.(exchange := t.exchange.(sources := Default(p.sources, [])))
    else if event == "error" then
      t.(exchange := t.exchange.(status := Error, error := Some(Default(p.message, "query failed"))))
    else t
  }

  function HandleAll(parse: Parser, t: Turn, frames: seq<Frame>): Turn
    decreases frames
  {
    if frames == [] then t
    else HandleAll(parse, Handle(t, frames[0].event, parse(frames[0].data)), frames[1..])
  }

  lemma {:induction false} HandleAllAppend(parse: Parser, t: Turn, a: seq<Frame>, b: seq<Frame>)
    ensures HandleAll(parse, t, a + b) == HandleAll(parse, HandleAll(parse, t, a), b)
    decreases a
  {
    if a == [] {
      assert a + b == b;
    } else {
      assert (a + b)[1..] == a[1..] + b;
      HandleAllAppend(parse, Handle(t, a[0].event, parse(a[0].data)), a[1..], b);
    }
  }

  /** The text one frame adds to the answer. */
  function TextIn(parse: Parser, f: Frame): string {
    var p := parse(f.data);
    if f.event == "delta" && p.Fields? && p.text.Some? then p.text.value else ""
  }

  function AllText(parse: Parser, frames: seq<Frame>): string {
    if frames == [] then "" else TextIn(parse, frames[0]) + AllText(parse, frames[1..])
  }

  lemma HandleAddsText(parse: Parser, t: Turn, f: Frame)
    requires t.exchange.answer == t.answer
    ensures var t' := Handle(t, f.event, parse(f.data));
            && t'.exchange.answer == t'.answer == t.answer + TextIn(parse, f)
            && t'.exchange.question == t.exchange.question
  {
  }

  /** Whatever the frames, the answer is the text of the deltas among them, and the question stays. */
  lemma {:induction false} AnswerIsAllText(parse: Parser, t: Turn, frames: seq<Frame>)
    requires t.exchange.answer == t.answer
    ensures var end := HandleAll(parse, t, frames);
            end.exchange.answer == end.answer == t.answer + AllText(parse, frames)
            && end.exchange.question == t.exchange.question
    decreases frames
  {
    if frames == [] {
    } else {
      var t' := Handle(t, frames[0].event, parse(frames[0].data));
      HandleAddsText(parse, t, frames[0]);
      AnswerIsAllText(parse, t', frames[1..]);
      assert t.answer + AllText(parse, frames) == t'.answer + AllText(parse, frames[1..]);
    }
  }

  /** How a response body stops: closed by the server, or the read throws. */
  datatype Ending = Closed | Broken(message: string)

  datatype Response =
    | Unreachable(message: string)
    | Refused(message: string)
    | Stream(chunks: seq<string>, ending: Ending)

  function Failed(t: Turn, message: string): Turn {
    t.(exchange := t.exchange.(status := Error, error := Some(message)))
  }

  function Finish(t: Turn, ending: Ending): Turn {
    match ending
    case Closed => if t.exchange.status == Streaming then t.(exchange := t.exchange.(status := Done)) else t
    case Broken(message) => Failed(t, message)
  }

  /** The whole turn.  A streamed body enters only as its text: where it was cut cannot matter. */
  function Outcome(parse: Parser, start: Turn, r: Response): Turn {
    match r
    case Unreachable(message) => Failed(start, message)
    case Refused(message) => Failed(start, message)
    case Stream(chunks, ending) => Finish(HandleAll(parse, start, ParseStream(Concat(chunks))), ending)
  }

  /** How a turn ends, said of each kind of response. */
  lemma OutcomeSays(parse: Parser, id: Option<string>, question: string, r: Response)
    ensures var end := Outcome(parse, StartTurn(id, question), r);
            && (!r.Stream? ==>
                  end.exchange == Exchange(question, "", [], Error, Some(r.message)) && end.conversationId == id)
            && (r.Stream? ==>
                  && end.exchange.question == question
                  && end.exchange.answer == AllText(parse, ParseStream(Concat(r.chunks)))
                  && (r.ending.Broken? ==>
                        end.exchange.status == Error && end.exchange.error == Some(r.ending.message))
                  && (r.ending.Closed? ==> end.exchange.status != Streaming))
  {
    if r.Stream? {
      StreamSays(parse, id, question, ParseStream(Concat(r.chunks)), r.ending);
    }
  }

  lemma StreamSays(parse: Parser, id: Option<string>, question: string, frames: seq<Frame>, ending: Ending)
    ensures var end := Finish(HandleAll(parse, StartTurn(id, question), frames), ending);
            && end.exchange.question == question && end.exchange.answer == AllText(parse, frames)
            && (ending.Broken? ==> end.exchange.status == Error && end.exchange.error == Some(ending.message))
            && (ending.Closed? ==> end.exchange.status != Streaming)
  {
    AnswerIsAllText(parse, StartTurn(id, question), frames);
    assert "" + AllText(parse, frames) == AllText(parse, frames);
  }

  // ----- the panel

  class QueryChat {
    var exchanges: seq<Exchange>
    var busy: bool
    var conversationId: Option<string>
    const parse: Parser

    constructor (messages: seq<Exchange>, conversationId: Option<string>, parse: Parser)
      ensures exchanges == messages && !busy
      ensures this.conversationId == conversationId && this.parse == parse
    {
      exchanges, busy := messages, false;
      this.conversationId := conversationId;
      this.parse := parse;
    }

    /** The turn at index `idx`, given the text gathered so far. */
    ghost function TurnAt(idx: nat, answer: string): Turn
      requires idx < |exchanges|
      reads this
    {
      Turn(conversationId, answer, exchanges[idx])
    }

    method HandleFrame(idx: nat, answer: string, f: Frame) returns (answer': string)
      requires idx < |exchanges|
      modifies this`exchanges, this`conversationId
      ensures |exchanges| == |old(exchanges)| && exchanges[..idx] == old(exchanges[..idx])
      ensures exchanges[idx + 1..] == old(exchanges[idx + 1..])
      ensures TurnAt(idx, answer') == Handle(old(TurnAt(idx, answer)), f.event, parse(f.data))
      // what each event does, and that nothing else does anything
      ensures var p := parse(f.data);
              var bubble := old(exchanges[idx]);
              && (f.event == "conversation" && p.Fields? && p.id.Some? && p.id.value != "" ==>
                    conversationId == p.id && exchanges[idx] == bubble)
              && (f.event == "delta" && p.Fields? ==>
                    answer' == answer + (if p.text.Some? then p.text.value else "")
                    && exchanges[idx] == bubble.(answer := answer'))
              && (f.event == "sources" && p.Fields? ==>
                    exchanges[idx] == bubble.(sources := if p.sources.Some? then p.sources.value else []))
              && (f.event == "done" && !p.Malformed? ==> exchanges[idx] == bubble.(status := Done))
              && (f.event == "error" && p.Fields? ==>
                    var message := if p.message.Some? then p.message.value else "query failed";
                    exchanges[idx] == bubble.(status := Error, error := Some(message)))
              && (p.Malformed? || (p.Null? && f.event != "done") ==> exchanges[idx] == bubble)
              && (f.event !in {"delta", "sources", "done", "error"} ==> exchanges[idx] == bubble)
              && (f.event != "delta" || !p.Fields? ==> answer' == answer)
              && (f.event != "conversation" || !p.Fields? || p.id == None || p.id == Some("") ==>
                    conversationId == old(conversationId))
    {
      answer' := answer;
      var payload := parse(f.data);
      var bubble := exchanges[idx];
      if payload.Malformed? || (payload.Null? && f.event != "done") {
        return;
      }
      if f.event == "conversation" {
        var id := Default(payload.id, "");
        if id != "" {
          conversationId := Some(id);
        }
      } else if f.event == "delta" {
        answer' := answer' + Default(payload.text, "");
        exchanges := exchanges[idx := bubble.(answer := answer')];
      } else if f.event == "sources" {
        exchanges := exchanges[idx := bubble.(sources := Default(payload.sources, []))];
      } else if f.event == "done" {
        exchanges := exchanges[idx := bubble.(status := Done)];
      } else if f.event == "error" {
        var message := Default(payload.message, "query failed");
        exchanges := exchanges[idx := bubble.(status := Error, error := Some(message))];
      }
    }

    /**
     Ask a question.  A blank question, or one asked while another is in flight, changes nothing.
     Otherwise one bubble is added, it ends as `Outcome` says for the text of the response, and no
     other bubble changes.
     */
    method Ask(q: string, response: Response)
      modifies this
      ensures Trim(q) == "" || old(busy) ==> unchanged(this)
      ensures Trim(q) != "" && !old(busy) ==>
                var end := Outcome(parse, StartTurn(old(conversationId), Trim(q)), response);
                !busy && exchanges == old(exchanges) + [end.exchange] && conversationId == end.conversationId
      // a response that is refused or never comes is shown as a failure with its message
      ensures Trim(q) != "" && !old(busy) && !response.Stream? ==>
                && exchanges == old(exchanges) + [Exchange(Trim(q), "", [], Error, Some(response.message))]
                && conversationId == old(conversationId)
      // a stream is shown up to where it stops; one that breaks is a failure, one that closes is not left open
      ensures Trim(q) != "" && !old(busy) && response.Stream? ==>
                && |exchanges| == |old(exchanges)| + 1 && exchanges[..|old(exchanges)|] == old(exchanges)
                && var bubble := exchanges[|old(exchanges)|];
                   && bubble.question == Trim(q)
                   && bubble.answer == AllText(parse, ParseStream(Concat(response.chunks)))
                   && (response.ending.Broken? ==>
                         bubble.status == Error && bubble.error == Some(response.ending.message))
                   && (response.ending.Closed? ==> bubble.status != Streaming)
    {
      var text := Trim(q);
      if text == "" || busy {
        return;
      }
      OutcomeSays(parse, conversationId, text, response);
      Send(text, response);
    }

    method Send(text: string, response: Response)
      requires !busy
      modifies this
      ensures var end := Outcome(parse, StartTurn(old(conversationId), text), response);
              !busy && exchanges == old(exchanges) + [end.exchange] && conversationId == end.conversationId
    {
      busy := true;
      var idx := |exchanges|;
      exchanges := exchanges + [Exchange(text, "", [], Streaming, None)];
      assert TurnAt(idx, "") == StartTurn(conversationId, text);
      Receive(idx, response);
      busy := false;
    }

    /** What the response makes of the bubble at `idx`, the last one. */
    method Receive(idx: nat, response: Response)
      requires idx + 1 == |exchanges| && exchanges[idx].answer == ""
      modifies this`exchanges, this`conversationId
      ensures |exchanges| == idx + 1 && exchanges[..idx] == old(exchanges[..idx])
      ensures var end := Outcome(parse, old(TurnAt(idx, "")), response);
              exchanges[idx] == end.exchange && conversationId == end.conversationId
    {
      match response {
        case Unreachable(message) => Fail(idx, message);
        case Refused(message) => Fail(idx, message);
        case Stream(chunks, ending) =>
          ReadStream(idx, chunks);
          if ending.Broken? {
            Fail(idx, ending.message);
          } else if exchanges[idx].status == Streaming {
            exchanges := exchanges[idx := exchanges[idx].(status := Done)];
          }
      }
    }

    method Fail(idx: nat, message: string)
      requires idx < |exchanges|
      modifies this`exchanges
      ensures exchanges == old(exchanges)[idx := old(exchanges[idx]).(status := Error, error := Some(message))]
    {
      exchanges := exchanges[idx := exchanges[idx].(status := Error, error := Some(message))];
    }

    /** The read loop: one chunk at a time, with the unfinished tail kept in `buf`. */
    method ReadStream(idx: nat, chunks: seq<string>)
      requires idx + 1 == |exchanges|
      modifies this`exchanges, this`conversationId
      ensures |exchanges| == idx + 1 && exchanges[..idx] == old(exchanges[..idx])
      ensures var end := HandleAll(parse, old(TurnAt(idx, "")), ParseStream(Concat(chunks)));
              exchanges[idx] == end.exchange && conversationId == end.conversationId
    {
      var buf, answer := "", "";
      ghost var start := TurnAt(idx, "");
      for i := 0 to |chunks|
        invariant |exchanges| == idx + 1 && exchanges[..idx] == old(exchanges[..idx])
        invariant buf == CutFrames(Concat(chunks[..i])).rest
        invariant TurnAt(idx, answer) == HandleAll(parse, start, ParseStream(Concat(chunks[..i])))
      {
        ConcatSnoc(chunks, i);
        ghost var seen := Concat(chunks[..i]);
        CutAppend(seen, chunks[i]);
        DispatchedAppend(CutFrames(seen).frames, CutFrames(buf + chunks[i]).frames);
        HandleAllAppend(parse, start, ParseStream(seen), ParseStream(buf + chunks[i]));
        buf := buf + chunks[i];
        answer, buf := DrainBuffer(idx, answer, buf);
      }
      assert chunks[..|chunks|] == chunks;
    }

    /** Take complete frames off the front of the buffer until no separator is left. */
    method DrainBuffer(idx: nat, answer: string, buf: string) returns (answer': string, buf': string)
      requires idx + 1 == |exchanges|
      modifies this`exchanges, this`conversationId
      ensures |exchanges| == idx + 1 && exchanges[..idx] == old(exchanges[..idx])
      ensures buf' == CutFrames(buf).rest
      ensures TurnAt(idx, answer') == HandleAll(parse, old(TurnAt(idx, answer)), ParseStream(buf))
    {
      answer', buf' := answer, buf;
      ghost var start := TurnAt(idx, answer);
      var sep := IndexOf(buf', BLANK, 0);
      while sep != -1
        invariant |exchanges| == idx + 1 && exchanges[..idx] == old(exchanges[..idx])
        invariant sep == IndexOf(buf', BLANK, 0)
        invariant CutFrames(buf').rest == CutFrames(buf).rest
        invariant HandleAll(parse, TurnAt(idx, answer'), ParseStream(buf')) == HandleAll(parse, start, ParseStream(buf))
        decreases |buf'|
      {
        answer', buf' := TakeFrame(idx, answer', buf', sep);
        sep := IndexOf(buf', BLANK, 0);
      }
    }

    method TakeFrame(idx: nat, answer: string, buf: string, sep: nat) returns (answer': string, buf': string)
      requires idx + 1 == |exchanges| && sep == IndexOf(buf, BLANK, 0)
      modifies this`exchanges, this`conversationId
      ensures |exchanges| == idx + 1 && exchanges[..idx] == old(exchanges[..idx])
      ensures |buf'| < |buf| && CutFrames(buf').rest == CutFrames(buf).rest
      ensures HandleAll(parse, TurnAt(idx, answer'), ParseStream(buf')) ==
              HandleAll(parse, old(TurnAt(idx, answer)), ParseStream(buf))
    {
      answer' := answer;
      buf' := buf[sep + 2..];
      var f := ReadRawText(buf[..sep]);
      ParseOneFrame(buf);
      HandleOneFrame(parse, TurnAt(idx, answer), f, ParseStream(buf'));
      if f.data != "" {
        answer' := HandleFrame(idx, answer, f);
      }
    }
  }

  lemma HandleOneFrame(parse: Parser, t: Turn, f: Frame, rest: seq<Frame>)
    ensures HandleAll(parse, t, [f] + rest) == HandleAll(parse, Handle(t, f.event, parse(f.data)), rest)
    ensures [] + rest == rest
  {
    assert ([f] + rest)[1..] == rest;
  }

  /** The first frame of a buffer, and what is dispatched for it. */
  lemma ParseOneFrame(buf: string)
    requires IndexOf(buf, BLANK, 0) != -1
    ensures var sep := IndexOf(buf, BLANK, 0); var f := ReadFrame(buf[..sep]);
            CutFrames(buf).rest == CutFrames(buf[sep + 2..]).rest
            && ParseStream(buf) == (if f.data != "" then [f] else []) + ParseStream(buf[sep + 2..])
  {
    var sep := IndexOf(buf, BLANK, 0);
    assert CutFrames(buf).frames[1..] == CutFrames(buf[sep + 2..]).frames;
  }

  method ReadRawText(raw: string) returns (f: Frame)
    ensures f == ReadFrame(raw)
  {
    var event, data := "message", "";
    event, data := ReadFields(event, data, Split(raw, '\n'));
    f := Frame(event, data);
  }

  method ReadFields(event: string, data: string, lines: seq<string>) returns (event': string, data': string)
    ensures Frame(event', data') == ReadLines(Frame(event, data), lines)
  {
    event', data' := event, data;
    ghost var whole := ReadLines(Frame(event, data), lines);
    assert lines[0..] == lines;
    for i := 0 to |lines|
      invariant ReadLines(Frame(event', data'), lines[i..]) == whole
    {
      ReadLinesAt(Frame(event', data'), lines, i);
      event', data' := ReadField(event', data', lines[i]);
    }
  }

  method ReadField(event: string, data: string, line: string) returns (event': string, data': string)
    ensures Frame(event', data') == ReadLine(Frame(event, data), line)
  {
    event', data' := event, data;
    if StartsWith(line, EVENT_FIELD) {
      event' := Trim(line[|EVENT_FIELD|..]);
    } else if StartsWith(line, DATA_FIELD) {
      data' := data + line[|DATA_FIELD|..];
    }
  }
}
