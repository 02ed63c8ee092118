/**
 Coming back to a thread whose last turn may still run on the server (components/query-chat.tsx): the
 poll's partial answers, what its end does, and in which cases the bubble goes on saying "streaming".
 */
module Resume {
  import opened Text
  import opened QueryChat
  import opened Reattach
  import PollRun

  /** The closing request for the stored thread: refused or thrown, or its messages. */
  datatype Reload = NoReload | Stored(messages: seq<Message>)

  /** How a watch ended: the terminal state it saw, if any, and whether the signal was raised by then. */
  datatype End = End(result: Option<PollRun.Settled>, stopped: bool, reload: Reload)

  function PartialPatch(partial: string): Patch {
    Patch(Some(partial), Some(Streaming), None)
  }

  function FailurePatch(error: Option<string>): Patch {
    Patch(None, Some(Error), Some(Default(error, "The answer failed.")))
  }

  predicate Failed(end: End) {
    end.result.Some? && !end.stopped && end.result.value.status.Error?
  }

  predicate Completed(end: End) {
    end.result.Some? && !end.stopped && end.result.value.status.Done?
  }

  /** After these partial answers, each not empty. */
  function AfterPartials(xs: seq<Exchange>, target: int, partials: seq<string>): seq<Exchange> {
    if partials == [] || target < 0 || target >= |xs| || Settled(xs[target]) then xs
    else xs[target := xs[target].(answer := partials[|partials| - 1], status := Streaming)]
  }

  /** The stored thread is asked for and has something to show. */
  predicate Reloaded(xs: seq<Exchange>, target: int, end: End) {
    && Completed(end) && end.result.value.hasAnswer && 0 <= target < |xs| && xs[target].answer == ""
    && end.reload.Stored? && Users(end.reload.messages) > 0
  }

  /** What the effect makes of the bubbles. */
  ghost predicate Resumed(xs: seq<Exchange>, partials: seq<string>, end: End, xs': seq<Exchange>) {
    var target := |xs| - 1;
    var shown := AfterPartials(xs, target, partials);
    if Failed(end) then xs' == PatchTarget(shown, target, FailurePatch(end.result.value.error))
    else if Reloaded(shown, target, end) then Pairs(end.reload.messages, xs')
    else xs' == shown
  }

  /** What a poll of this thread ends with. */
  ghost predicate Watched(conversationId: string, maxPolls: int, aborted: nat -> bool, server: nat -> PollRun.Answer,
                          result: Option<PollRun.Settled>, partials: seq<string>, streak: nat)
  {
    && PollRun.Streak(server, aborted, streak) && (streak == 0 || streak <= maxPolls)
    && (PollRun.IsUuid(conversationId) && streak < maxPolls ==> !PollRun.Streak(server, aborted, streak + 1))
    && partials == PollRun.Partials(server, streak)
    && (result.Some? <==>
          PollRun.IsUuid(conversationId) && streak < maxPolls && PollRun.SettlesAt(server, aborted, streak))
    && (result.Some? ==>
          var run := server(streak).run;
          && (result.value.status.Error? <==> run.status == Some("error")) && result.value.error == run.error
          && (result.value.hasAnswer <==>
                run.status == Some("done") && run.finalMessageId.Some? && run.finalMessageId.value != ""))
  }

  /**
   The effect that runs when a thread is opened.  `stopped` says whether the signal is raised when the poll
   returns, `reload` what the closing request gives if it is made.
   */
  method OpenThread(chat: QueryChat, conversationId: string, maxPolls: int, aborted: nat -> bool,
                    server: nat -> PollRun.Answer, stopped: bool, reload: Reload)
    returns (result: Option<PollRun.Settled>, partials: seq<string>, ghost streak: nat)
    modifies chat`exchanges
    ensures Watched(conversationId, maxPolls, aborted, server, result, partials, streak)
    ensures Resumed(old(chat.exchanges), partials, End(result, stopped, reload), chat.exchanges)
  {
    var target := |chat.exchanges| - 1;
    var requests;
    result, partials, requests, streak := PollRun.Poll(conversationId, maxPolls, aborted, server);
    PartialsAreNotEmpty(server, streak);
    ShowPartials(chat, target, partials);
    if result.None? || stopped {
      return;
    }
    if result.value.status.Error? {
      chat.exchanges := PatchTarget(chat.exchanges, target, FailurePatch(result.value.error));
      return;
    }
    var needsAnswer := 0 <= target < |chat.exchanges| && chat.exchanges[target].answer == "";
    if !needsAnswer || !result.value.hasAnswer || reload.NoReload? {
      return;
    }
    var stored := MessagesToExchanges(reload.messages);
    if stored != [] {
      chat.exchanges := stored;
    }
  }

  /** Every partial answer is patched into the bubble as it comes. */
  method ShowPartials(chat: QueryChat, target: int, partials: seq<string>)
    requires forall p | p in partials :: p != ""
    modifies chat`exchanges
    ensures chat.exchanges == AfterPartials(old(chat.exchanges), target, partials)
  {
    for i := 0 to |partials|
      invariant chat.exchanges == AfterPartials(old(chat.exchanges), target, partials[..i])
    {
      chat.exchanges := PatchTarget(chat.exchanges, target, PartialPatch(partials[i]));
    }
    assert partials[..|partials|] == partials;
  }

  lemma {:induction false} PartialsAreNotEmpty(server: nat -> PollRun.Answer, n: nat)
    requires PollRun.OneRun(server, n)
    ensures forall p | p in PollRun.Partials(server, n) :: p != ""
  {
    if n > 0 {
      PartialsAreNotEmpty(server, n - 1);
    }
  }

  /** One of the first `n` polls brings some text. */
  ghost predicate SomePartial(server: nat -> PollRun.Answer, n: nat)
    requires PollRun.OneRun(server, n)
  {
    exists i: nat | i < n :: PollRun.NonEmpty(server(i).run.partial) != []
  }

  lemma {:induction false} PartialsIffSome(server: nat -> PollRun.Answer, n: nat)
    requires PollRun.OneRun(server, n)
    ensures PollRun.Partials(server, n) != [] <==> SomePartial(server, n)
  {
    if n > 0 {
      PartialsIffSome(server, n - 1);
      var last := PollRun.NonEmpty(server(n - 1).run.partial);
      assert PollRun.Partials(server, n) == PollRun.Partials(server, n - 1) + last;
    }
  }

  // ----- left streaming

  predicate IsStreaming(xs: seq<Exchange>, i: int) {
    0 <= i < |xs| && xs[i].status == Streaming
  }

  /** Stored bubbles are never streaming. */
  lemma {:induction false} StoredAreDone(ms: seq<Message>, xs: seq<Exchange>, k: nat)
    requires Pairs(ms, xs) && k < |xs|
    ensures xs[k].status == Done
  {
    var i := UserAt(ms, k);
  }

  /** The k-th user message. */
  lemma {:induction false} UserAt(ms: seq<Message>, k: nat) returns (i: nat)
    requires k < Users(ms)
    ensures i < |ms| && ms[i].role == "user" && Users(ms[..i]) == k
    decreases |ms|
  {
    var front, last := ms[..|ms| - 1], ms[|ms| - 1];
    if k < Users(front) {
      i := UserAt(front, k);
      assert front[..i] == ms[..i];
    } else {
      i := |ms| - 1;
    }
  }

  /**
   Exactly when the bubble is left saying "streaming": it was open to the poll, it says so since before or
   since a partial answer, and neither a failure was shown nor the stored thread put in its place.
   */
  lemma LeftStreamingIff(xs: seq<Exchange>, partials: seq<string>, end: End, xs': seq<Exchange>)
    requires Resumed(xs, partials, end, xs') && xs != [] && forall p | p in partials :: p != ""
    ensures var x := xs[|xs| - 1];
            IsStreaming(xs', |xs| - 1) <==>
            && !Settled(x) && (x.status == Streaming || partials != []) && !Failed(end)
            && !(partials == [] && Reloaded(xs, |xs| - 1, end))
  {
    var target := |xs| - 1;
    var shown := AfterPartials(xs, target, partials);
    assert partials != [] ==> partials[|partials| - 1] in partials;
    assert Reloaded(shown, target, end) <==> partials == [] && Reloaded(xs, target, end);
    if !Failed(end) && Reloaded(shown, target, end) && target < |xs'| {
      StoredAreDone(end.reload.messages, xs', target);
    }
  }

  /**
   For a thread just opened, whose bubbles are stored ones: the bubble is left streaming if and only if it had
   no answer, some poll brought text, and the run was not seen to fail.  A run that is seen to complete
   leaves it so too.
   */
  lemma OpenedIsLeftStreamingIff(conversationId: string, maxPolls: int, aborted: nat -> bool,
                                 server: nat -> PollRun.Answer, xs: seq<Exchange>, partials: seq<string>, streak: nat,
                                 end: End, xs': seq<Exchange>)
    requires Watched(conversationId, maxPolls, aborted, server, end.result, partials, streak)
    requires Resumed(xs, partials, end, xs') && xs != [] && xs[|xs| - 1].status == Done
    ensures IsStreaming(xs', |xs| - 1) <==>
            && xs[|xs| - 1].answer == "" && SomePartial(server, streak)
            && !(end.result.Some? && !end.stopped && server(streak).run.status == Some("error"))
  {
    PartialsAreNotEmpty(server, streak);
    PartialsIffSome(server, streak);
    LeftStreamingIff(xs, partials, end, xs');
  }

  /** A failed run is shown, with its message, on a bubble that was open to the poll. */
  lemma FailedRunIsShown(conversationId: string, maxPolls: int, aborted: nat -> bool, server: nat -> PollRun.Answer,
                         xs: seq<Exchange>, partials: seq<string>, streak: nat, end: End, xs': seq<Exchange>)
    requires Watched(conversationId, maxPolls, aborted, server, end.result, partials, streak)
    requires Resumed(xs, partials, end, xs') && xs != []
    requires xs[|xs| - 1].answer == "" || xs[|xs| - 1].status == Streaming
    requires end.result.Some? && !end.stopped && server(streak).run.status == Some("error")
    ensures var x, error := xs[|xs| - 1], server(streak).run.error;
            xs' == xs[|xs| - 1 :=
                      Exchange(x.question, if partials == [] then x.answer else partials[|partials| - 1], x.sources,
                               Error, Some(if error.Some? then error.value else "The answer failed."))]
  {
    PartialsAreNotEmpty(server, streak);
  }

  /** The answer of a run that is over is fetched where nothing of it was shown. */
  lemma StoredAnswerIsFetched(conversationId: string, maxPolls: int, aborted: nat -> bool,
                              server: nat -> PollRun.Answer, xs: seq<Exchange>, streak: nat, end: End,
                              xs': seq<Exchange>, id: string, i: nat)
    requires Watched(conversationId, maxPolls, aborted, server, end.result, [], streak)
    requires Resumed(xs, [], end, xs') && xs != [] && xs[|xs| - 1].answer == ""
    requires end.result.Some? && !end.stopped && server(streak).run.status == Some("done")
    requires server(streak).run.finalMessageId == Some(id) && id != ""
    requires end.reload.Stored? && i < |end.reload.messages| && end.reload.messages[i].role == "user"
    ensures Pairs(end.reload.messages, xs')
  {
    assert "done"[0] != "error"[0];
    UsersAround(end.reload.messages, i);
  }

  /** In every other case the bubbles are as the partial answers left them. */
  lemma NothingElseIsWritten(conversationId: string, maxPolls: int, aborted: nat -> bool,
                             server: nat -> PollRun.Answer, xs: seq<Exchange>, partials: seq<string>, streak: nat,
                             end: End, xs': seq<Exchange>)
    requires Watched(conversationId, maxPolls, aborted, server, end.result, partials, streak)
    requires Resumed(xs, partials, end, xs') && xs != []
    requires var x := xs[|xs| - 1];
             || end.result.None? || end.stopped
             || (x.answer != "" && x.status != Streaming)
             || (server(streak).run.status != Some("error")
                 && (partials != [] || x.answer != "" || server(streak).run.status != Some("done")
                     || server(streak).run.finalMessageId in {None, Some("")} || end.reload.NoReload?
                     || Users(end.reload.messages) == 0))
    ensures var x := xs[|xs| - 1];
            xs' == if partials == [] || (x.answer != "" && x.status != Streaming) then xs
                   else xs[|xs| - 1 := x.(answer := partials[|partials| - 1], status := Streaming)]
  {
    PartialsAreNotEmpty(server, streak);
    assert partials != [] ==> partials[|partials| - 1] in partials;
  }

  /** For instance: a first poll brings some text, the second that the run is done and its answer stored. */
  lemma CompletedRunLeftStreaming(conversationId: string, maxPolls: int, aborted: nat -> bool,
                                  server: nat -> PollRun.Answer, xs: seq<Exchange>, partials: seq<string>,
                                  streak: nat, end: End, xs': seq<Exchange>, id: string, text: string, answer: string)
    requires Watched(conversationId, maxPolls, aborted, server, end.result, partials, streak)
    requires Resumed(xs, partials, end, xs') && xs != [] && xs[|xs| - 1] == Opened(xs[|xs| - 1].question)
    requires PollRun.IsUuid(conversationId) && maxPolls >= 2 && !aborted(0) && !aborted(1) && !end.stopped
    requires text != "" && answer != ""
    requires server(0) == PollRun.Latest(PollRun.Run(Some(id), Some("streaming"), Some(text), None, None))
    requires server(1) == PollRun.Latest(PollRun.Run(Some(id), Some("done"), None, None, Some(answer)))
    ensures end.result == Some(PollRun.Settled(PollRun.Done, None, true))
    ensures xs' == xs[|xs| - 1 := xs[|xs| - 1].(answer := text, status := Streaming)]
  {
    SettlesAtSecond(aborted, server, id, text, answer);
    PollRun.StreakIsDetermined(server, aborted, streak, 1);
    assert PollRun.Partials(server, 1) == [text];
  }

  lemma SettlesAtSecond(aborted: nat -> bool, server: nat -> PollRun.Answer, id: string, text: string, answer: string)
    requires !aborted(0) && !aborted(1)
    requires server(0) == PollRun.Latest(PollRun.Run(Some(id), Some("streaming"), Some(text), None, None))
    requires server(1) == PollRun.Latest(PollRun.Run(Some(id), Some("done"), None, None, Some(answer)))
    ensures PollRun.SettlesAt(server, aborted, 1) && !PollRun.Streak(server, aborted, 2)
  {
    assert "done"[0] != "streaming"[0];
  }
}
