/** What a whole conversation turn shows, from the events the server sent to the bubble on screen. */
module QueryChatTheorems {
  import opened Text
  import opened EventStream
  import opened QueryChat

  datatype ServerEvent =
    | Conversation(id: string)
    | Delta(text: string)
    | Sources(chips: seq<SourceChip>)
    | Finished
    | Failure(message: string)

  function EventName(e: ServerEvent): string {
    match e
    case Conversation(_) => "conversation"
    case Delta(_) => "delta"
    case Sources(_) => "sources"
    case Finished => "done"
    case Failure(_) => "error"
  }

  function EventPayload(e: ServerEvent): Payload {
    match e
    case Conversation(id) => Fields(Some(id), None, None, None)
    case Delta(text) => Fields(None, Some(text), None, None)
    case Sources(chips) => Fields(None, None, Some(chips), None)
    case Finished => Fields(None, None, None, None)
    case Failure(message) => Fields(None, None, None, Some(message))
  }

  /** JSON serialisation: one non-empty line per payload, undone by the parser. */
  ghost predicate Faithful(parse: Parser, json: Payload -> string) {
    forall p: Payload | p.Fields? :: parse(json(p)) == p && Line(json(p)) && json(p) != ""
  }

  function FramesOf(json: Payload -> string, events: seq<ServerEvent>): seq<Frame> {
    if events == [] then []
    else [Frame(EventName(events[0]), json(EventPayload(events[0])))] + FramesOf(json, events[1..])
  }

  // ----- what the events say, each part read off on its own

  function TextOf(e: ServerEvent): string {
    if e.Delta? then e.text else ""
  }

  function DeltaText(events: seq<ServerEvent>): string {
    if events == [] then "" else TextOf(events[0]) + DeltaText(events[1..])
  }

  function NextId(id: Option<string>, e: ServerEvent): Option<string> {
    if e.Conversation? && e.id != "" then Some(e.id) else id
  }

  function LastId(id: Option<string>, events: seq<ServerEvent>): Option<string>
    decreases events
  {
    if events == [] then id else LastId(NextId(id, events[0]), events[1..])
  }

  function NextSources(chips: seq<SourceChip>, e: ServerEvent): seq<SourceChip> {
    if e.Sources? then e.chips else chips
  }

  function LastSources(chips: seq<SourceChip>, events: seq<ServerEvent>): seq<SourceChip>
    decreases events
  {
    if events == [] then chips else LastSources(NextSources(chips, events[0]), events[1..])
  }

  datatype Verdict = Verdict(status: Status, error: Option<string>)

  function NextVerdict(v: Verdict, e: ServerEvent): Verdict {
    match e
    case Finished => v.(status := Done)
    case Failure(message) => Verdict(Error, Some(message))
    case _ => v
  }

  /** The last word on the status; an error message is kept once given. */
  function LastVerdict(v: Verdict, events: seq<ServerEvent>): Verdict
    decreases events
  {
    if events == [] then v else LastVerdict(NextVerdict(v, events[0]), events[1..])
  }

  function VerdictOf(x: Exchange): Verdict {
    Verdict(x.status, x.error)
  }

  lemma NamesAreClean(e: ServerEvent)
    ensures Line(EventName(e)) && Trimmed(EventName(e))
  {
  }

  lemma {:induction false} FramesOfAreClean(parse: Parser, json: Payload -> string, events: seq<ServerEvent>)
    requires Faithful(parse, json)
    ensures forall f | f in FramesOf(json, events) :: Clean(f)
  {
    if events == [] {
    } else {
      FramesOfAreClean(parse, json, events[1..]);
      FrameIsClean(parse, json, events[0]);
    }
  }

  lemma FrameIsClean(parse: Parser, json: Payload -> string, e: ServerEvent)
    requires Faithful(parse, json)
    ensures Clean(Frame(EventName(e), json(EventPayload(e))))
  {
    NamesAreClean(e);
    assert parse(json(EventPayload(e))) == EventPayload(e);
  }

  /** Turn `end` shows what `events` say, starting from turn `t`. */
  predicate Shows(t: Turn, end: Turn, events: seq<ServerEvent>) {
    && end.exchange.answer == end.answer == t.answer + DeltaText(events)
    && end.conversationId == LastId(t.conversationId, events)
    && end.exchange.sources == LastSources(t.exchange.sources, events)
    && VerdictOf(end.exchange) == LastVerdict(VerdictOf(t.exchange), events)
    && end.exchange.question == t.exchange.question
  }

  /** The same for one event. */
  predicate ShowsOne(t: Turn, end: Turn, e: ServerEvent) {
    && end.exchange.answer == end.answer == t.answer + TextOf(e)
    && end.conversationId == NextId(t.conversationId, e)
    && end.exchange.sources == NextSources(t.exchange.sources, e)
    && VerdictOf(end.exchange) == NextVerdict(VerdictOf(t.exchange), e)
    && end.exchange.question == t.exchange.question
  }

  lemma ShowsMore(t: Turn, t': Turn, end: Turn, events: seq<ServerEvent>)
    requires events != [] && ShowsOne(t, t', events[0]) && Shows(t', end, events[1..])
    ensures Shows(t, end, events)
  {
    assert t.answer + DeltaText(events) == t'.answer + DeltaText(events[1..]);
  }

  lemma HandleEvent(t: Turn, e: ServerEvent)
    requires t.exchange.answer == t.answer
    ensures ShowsOne(t, Handle(t, EventName(e), EventPayload(e)), e)
  {
  }

  lemma ReplayOne(parse: Parser, json: Payload -> string, t: Turn, events: seq<ServerEvent>)
    requires Faithful(parse, json) && events != []
    ensures HandleAll(parse, t, FramesOf(json, events)) ==
            HandleAll(parse, Handle(t, EventName(events[0]), EventPayload(events[0])), FramesOf(json, events[1..]))
  {
    assert parse(json(EventPayload(events[0]))) == EventPayload(events[0]);
    assert FramesOf(json, events)[1..] == FramesOf(json, events[1..]);
  }

  lemma {:induction false} ReplaySays(parse: Parser, json: Payload -> string, t: Turn, events: seq<ServerEvent>)
    requires Faithful(parse, json) && t.exchange.answer == t.answer
    ensures Shows(t, HandleAll(parse, t, FramesOf(json, events)), events)
    decreases events
  {
    if events == [] {
    } else {
      var t' := Handle(t, EventName(events[0]), EventPayload(events[0]));
      HandleEvent(t, events[0]);
      ReplayOne(parse, json, t, events);
      ReplaySays(parse, json, t', events[1..]);
      ShowsMore(t, t', HandleAll(parse, t, FramesOf(json, events)), events);
    }
  }

  /**
   End to end: the server prints its events, the network cuts the text anywhere, the panel reads the
   chunks.  The bubble then holds exactly the concatenated deltas, the last thread id and sources,
   and the last verdict, with "done" when the server gave none.
   */
  lemma AskShowsWhatWasSent(parse: Parser, json: Payload -> string, conversationId: Option<string>, question: string,
                            events: seq<ServerEvent>, chunks: seq<string>)
    requires Faithful(parse, json)
    requires Concat(chunks) == FormatAll(FramesOf(json, events))
    ensures var end := Outcome(parse, StartTurn(conversationId, question), Stream(chunks, Closed));
            var verdict := LastVerdict(Verdict(Streaming, None), events);
            && end.conversationId == LastId(conversationId, events)
            && end.exchange ==
               Exchange(question, DeltaText(events), LastSources([], events),
                        if verdict.status == Streaming then Done else verdict.status, verdict.error)
  {
    FramesOfAreClean(parse, json, events);
    StreamRoundTrip(FramesOf(json, events));
    ReplaySays(parse, json, StartTurn(conversationId, question), events);
  }

  /** Events that came whole before the text broke off. */
  lemma BrokenText(parse: Parser, json: Payload -> string, events: seq<ServerEvent>, tail: string)
    requires Faithful(parse, json) && IndexOf(tail, BLANK, 0) == -1
    ensures ParseStream(FormatAll(FramesOf(json, events)) + tail) == FramesOf(json, events)
  {
    FramesOfAreClean(parse, json, events);
    TailIsDropped(FramesOf(json, events), tail);
  }

  /**
   A stream that breaks: the bubble keeps what the events that came whole said and shows the failure, whatever
   verdict came before.
   */
  lemma BrokenShowsWhatCame(parse: Parser, json: Payload -> string, conversationId: Option<string>, question: string,
                            events: seq<ServerEvent>, tail: string, chunks: seq<string>, message: string)
    requires Faithful(parse, json) && IndexOf(tail, BLANK, 0) == -1
    requires Concat(chunks) == FormatAll(FramesOf(json, events)) + tail
    ensures var end := Outcome(parse, StartTurn(conversationId, question), Stream(chunks, Broken(message)));
            && end.conversationId == LastId(conversationId, events)
            && end.exchange == Exchange(question, DeltaText(events), LastSources([], events), Error, Some(message))
  {
    BrokenText(parse, json, events, tail);
    ReplaySays(parse, json, StartTurn(conversationId, question), events);
  }

  /** A response that is refused or never comes. */
  lemma FailureIsShown(parse: Parser, start: Turn, message: string)
    ensures Outcome(parse, start, Refused(message)) == Outcome(parse, start, Unreachable(message))
    ensures Outcome(parse, start, Refused(message)) ==
            start.(exchange := start.exchange.(status := Error, error := Some(message)))
  {
  }

  /** A frame the panel has nothing to do for: not JSON, a null where a field is read, or an unknown event. */
  predicate Noise(parse: Parser, f: Frame) {
    var p := parse(f.data);
    || p.Malformed?
    || (p.Null? && f.event != "done")
    || f.event !in {"conversation", "delta", "sources", "done", "error"}
  }

  function WithoutNoise(parse: Parser, frames: seq<Frame>): seq<Frame> {
    if frames == [] then []
    else (if Noise(parse, frames[0]) then [] else [frames[0]]) + WithoutNoise(parse, frames[1..])
  }

  lemma NoiseDoesNothing(parse: Parser, t: Turn, f: Frame)
    ensures Noise(parse, f) ==> Handle(t, f.event, parse(f.data)) == t
  {
  }

  /** Frames that cannot be read or mean nothing leave no trace, wherever they stand in the stream. */
  lemma {:induction false} NoiseIsSkipped(parse: Parser, t: Turn, frames: seq<Frame>)
    ensures HandleAll(parse, t, frames) == HandleAll(parse, t, WithoutNoise(parse, frames))
    decreases frames
  {
    if frames == [] {
    } else {
      var t' := Handle(t, frames[0].event, parse(frames[0].data));
      var rest := WithoutNoise(parse, frames[1..]);
      NoiseIsSkipped(parse, t', frames[1..]);
      assert HandleAll(parse, t, frames) == HandleAll(parse, t', rest);
      if Noise(parse, frames[0]) {
        NoiseDoesNothing(parse, t, frames[0]);
        assert WithoutNoise(parse, frames) == [] + rest == rest;
      } else {
        HandleOneFrame(parse, t, frames[0], rest);
        assert WithoutNoise(parse, frames) == [frames[0]] + rest;
      }
    }
  }

  /** However a turn ends, the bubble does not stay "streaming". */
  lemma NeverLeftStreaming(parse: Parser, start: Turn, r: Response)
    ensures Outcome(parse, start, r).exchange.status != Streaming
  {
  }

  /**
   A stream closed in the middle of a frame loses exactly that frame: text after the last separator
   changes nothing, whatever it holds.
   */
  lemma UnfinishedFrameIsDropped(parse: Parser, start: Turn, text: string, tail: string)
    requires IndexOf(CutFrames(text).rest + tail, BLANK, 0) == -1
    ensures Outcome(parse, start, Stream([text, tail], Closed)) == Outcome(parse, start, Stream([text], Closed))
  {
    CutAppend(text, tail);
    assert [text, tail][1..] == [tail] && [tail][1..] == [] && [text][1..] == [];
    assert Concat([text, tail]) == text + Concat([tail]) == text + (tail + Concat([])) == text + tail;
    assert Concat([text]) == text + Concat([]) == text;
    assert CutFrames(text + tail).frames == CutFrames(text).frames + [] == CutFrames(text).frames;
  }
}
