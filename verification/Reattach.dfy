/**
 Coming back to a thread (components/query-chat.tsx): stored messages turned into bubbles, and the
 patches of a reattached poll arriving between those of a new question.
 */
module Reattach {
  import opened Text
  import opened QueryChat

  datatype Message = Message(role: string, content: string)

  function Opened(question: string): Exchange {
    Exchange(question, "", [], Done, None)
  }

  // ----- stored messages

  function Users(ms: seq<Message>): nat {
    if ms == [] then 0 else Users(ms[..|ms| - 1]) + if ms[|ms| - 1].role == "user" then 1 else 0
  }

  /** The last assistant text before the next user message, or the text already there. */
  function AnswerTo(ms: seq<Message>, soFar: string): string
    decreases ms
  {
    if ms == [] || ms[0].role == "user" then soFar
    else AnswerTo(ms[1..], if ms[0].role == "assistant" then ms[0].content else soFar)
  }

  /** With an assistant message before the next user message, the last such one. */
  lemma {:induction false} AnswerIsLast(ms: seq<Message>, soFar: string, i: nat)
    requires i < |ms| && ms[i].role == "assistant" && forall j | 0 <= j < i :: ms[j].role != "user"
    requires forall j | i < j < |ms| && ms[j].role == "assistant" :: exists k | i < k < j :: ms[k].role == "user"
    ensures AnswerTo(ms, soFar) == ms[i].content
    decreases i
  {
    assert "assistant"[0] != "user"[0];
    if i == 0 {
      forall j | 0 <= j < |ms[1..]| && ms[1..][j].role == "assistant"
        ensures exists k | 0 <= k < j :: ms[1..][k].role == "user"
      {
        var k :| 0 < k < j + 1 && ms[k].role == "user";
        assert ms[1..][k - 1].role == "user";
      }
      NoAnswer(ms[1..], ms[0].content);
    } else {
      forall j | i - 1 < j < |ms[1..]| && ms[1..][j].role == "assistant"
        ensures exists k | i - 1 < k < j :: ms[1..][k].role == "user"
      {
        var k :| i < k < j + 1 && ms[k].role == "user";
        assert ms[1..][k - 1].role == "user";
      }
      AnswerIsLast(ms[1..], if ms[0].role == "assistant" then ms[0].content else soFar, i - 1);
    }
  }

  /** Without one, what there was. */
  lemma {:induction false} NoAnswer(ms: seq<Message>, soFar: string)
    requires forall j | 0 <= j < |ms| && ms[j].role == "assistant" :: exists k | 0 <= k < j :: ms[k].role == "user"
    ensures AnswerTo(ms, soFar) == soFar
  {
    if ms != [] && ms[0].role != "user" {
      forall j | 0 <= j < |ms[1..]| && ms[1..][j].role == "assistant"
        ensures exists k | 0 <= k < j :: ms[1..][k].role == "user"
      {
        var k :| 0 <= k < j + 1 && ms[k].role == "user";
        assert ms[1..][k - 1].role == "user";
      }
      NoAnswer(ms[1..], soFar);
    }
  }

  /**
   One bubble per user message, in order, each answered by the last assistant message before the
   next user message; assistant messages before the first user message go nowhere.
   */
  ghost predicate Pairs(ms: seq<Message>, out: seq<Exchange>) {
    && |out| == Users(ms)
    && forall i | 0 <= i < |ms| && ms[i].role == "user" ::
         Users(ms[..i]) < |out| && out[Users(ms[..i])] == Opened(ms[i].content).(answer := AnswerTo(ms[i + 1..], ""))
  }

  lemma {:induction false} AnswerToSnoc(ms: seq<Message>, m: Message, soFar: string)
    ensures AnswerTo(ms + [m], soFar) ==
            if m.role == "assistant" && Users(ms) == 0 then m.content else AnswerTo(ms, soFar)
    decreases ms
  {
    if ms == [] {
      assert (ms + [m])[1..] == [];
    } else {
      UsersCons(ms);
      if ms[0].role != "user" {
        assert (ms + [m])[1..] == ms[1..] + [m];
        AnswerToSnoc(ms[1..], m, if ms[0].role == "assistant" then ms[0].content else soFar);
      }
    }
  }

  lemma {:induction false} UsersCons(ms: seq<Message>)
    requires ms != []
    ensures Users(ms) == (if ms[0].role == "user" then 1 else 0) + Users(ms[1..])
  {
    if |ms| > 1 {
      UsersCons(ms[..|ms| - 1]);
      assert ms[..|ms| - 1][1..] == ms[1..][..|ms| - 2];
    }
  }

  lemma {:induction false} UsersAppend(a: seq<Message>, b: seq<Message>)
    ensures Users(a + b) == Users(a) + Users(b)
  {
    if b == [] {
      assert a + b == a;
    } else {
      assert (a + b)[..|a + b| - 1] == a + b[..|b| - 1];
      UsersAppend(a, b[..|b| - 1]);
    }
  }

  lemma UsersAround(ms: seq<Message>, i: nat)
    requires i < |ms| && ms[i].role == "user"
    ensures Users(ms) == Users(ms[..i]) + 1 + Users(ms[i + 1..])
  {
    assert ms == ms[..i] + ([ms[i]] + ms[i + 1..]);
    UsersAppend(ms[..i], [ms[i]] + ms[i + 1..]);
    UsersAppend([ms[i]], ms[i + 1..]);
    assert [ms[i]][..0] == [];
  }

  /** A message after the `i`-th only answers it if no user message stands between. */
  lemma PairsSnoc(ms: seq<Message>, out: seq<Exchange>, m: Message)
    requires Pairs(ms, out)
    ensures Pairs(ms + [m],
                  if m.role == "user" then out + [Opened(m.content)]
                  else if m.role == "assistant" && out != [] then out[|out| - 1 := out[|out| - 1].(answer := m.content)]
                  else out)
  {
    var ms' := ms + [m];
    assert ms'[..|ms|] == ms;
    var out' := if m.role == "user" then out + [Opened(m.content)]
                else if m.role == "assistant" && out != [] then out[|out| - 1 := out[|out| - 1].(answer := m.content)]
                else out;
    forall i | 0 <= i < |ms'| && ms'[i].role == "user"
      ensures Users(ms'[..i]) < |out'|
      ensures out'[Users(ms'[..i])] == Opened(ms'[i].content).(answer := AnswerTo(ms'[i + 1..], ""))
    {
      if i < |ms| {
        var later := ms[i + 1..];
        assert ms'[..i] == ms[..i] && ms'[i + 1..] == later + [m];
        AnswerToSnoc(later, m, "");
        UsersAround(ms, i);
      } else {
        assert ms'[i + 1..] == [];
      }
    }
  }

  method MessagesToExchanges(messages: seq<Message>) returns (out: seq<Exchange>)
    ensures Pairs(messages, out)
  {
    out := [];
    for i := 0 to |messages|
      invariant Pairs(messages[..i], out)
    {
      var m := messages[i];
      assert messages[..i + 1] == messages[..i] + [m];
      PairsSnoc(messages[..i], out, m);
      if m.role == "user" {
        out := out + [Exchange(m.content, "", [], Done, None)];
      } else if m.role == "assistant" && out != [] {
        out := out[|out| - 1 := out[|out| - 1].(answer := m.content)];
      }
    }
    assert messages[..|messages|] == messages;
  }

  // ----- patches

  datatype Patch = Patch(answer: Option<string>, status: Option<Status>, error: Option<string>)

  function Patched(x: Exchange, p: Patch): Exchange {
    x.(answer := Default(p.answer, x.answer), status := Default(p.status, x.status),
       error := if p.error.Some? then p.error else x.error)
  }

  predicate Settled(x: Exchange) {
    x.answer != "" && x.status != Streaming
  }

  /** The reattached poll's patch: its own bubble only, and never one that is already settled. */
  function PatchTarget(xs: seq<Exchange>, target: int, p: Patch): seq<Exchange> {
    if target < 0 || target >= |xs| || Settled(xs[target]) then xs
    else xs[target := Patched(xs[target], p)]
  }

  datatype Update = FromPoll(p: Patch) | NewQuestion(x: Exchange) | FromAsk(index: nat, p: Patch)

  function Apply(xs: seq<Exchange>, target: int, u: Update): seq<Exchange> {
    match u
    case FromPoll(p) => PatchTarget(xs, target, p)
    case NewQuestion(x) => xs + [x]
    case FromAsk(i, p) => if i < |xs| then xs[i := Patched(xs[i], p)] else xs
  }

  function ApplyAll(xs: seq<Exchange>, target: int, us: seq<Update>): seq<Exchange>
    decreases us
  {
    if us == [] then xs else ApplyAll(Apply(xs, target, us[0]), target, us[1..])
  }

  function WithoutPoll(us: seq<Update>): seq<Update> {
    if us == [] then []
    else (if us[0].FromPoll? then [] else [us[0]]) + WithoutPoll(us[1..])
  }

  /** Lists that differ at most in the poll's bubble. */
  ghost predicate SameElsewhere(xs: seq<Exchange>, ys: seq<Exchange>, target: int) {
    |xs| == |ys| && forall i | 0 <= i < |xs| && i != target :: xs[i] == ys[i]
  }

  /**
   Whatever the order in which a poll's patches and a new question's updates arrive, every bubble but
   the poll's own ends as it would have without the poll.
   */
  lemma {:induction false} PollTouchesOnlyItsTarget(xs: seq<Exchange>, ys: seq<Exchange>, target: int, us: seq<Update>)
    requires SameElsewhere(xs, ys, target)
    ensures SameElsewhere(ApplyAll(xs, target, us), ApplyAll(ys, target, WithoutPoll(us)), target)
    decreases us
  {
    if us == [] {
    } else {
      var u := us[0];
      if u.FromPoll? {
        PollTouchesOnlyItsTarget(Apply(xs, target, u), ys, target, us[1..]);
        assert WithoutPoll(us) == WithoutPoll(us[1..]);
      } else {
        assert WithoutPoll(us)[1..] == WithoutPoll(us[1..]);
        PollTouchesOnlyItsTarget(Apply(xs, target, u), Apply(ys, target, u), target, us[1..]);
      }
    }
  }

  /** An answered, settled bubble is out of the poll's reach for good. */
  lemma {:induction false} SettledStays(xs: seq<Exchange>, target: nat, us: seq<Update>)
    requires target < |xs| && Settled(xs[target])
    requires forall u | u in us && u.FromAsk? :: u.index != target
    ensures target < |ApplyAll(xs, target, us)| && ApplyAll(xs, target, us)[target] == xs[target]
    decreases us
  {
    if us == [] {
    } else {
      assert us[0] in us && forall u | u in us[1..] :: u in us;
      SettledStays(Apply(xs, target, us[0]), target, us[1..]);
    }
  }

  function OnlyPoll(us: seq<Update>): seq<Update> {
    if us == [] then []
    else (if us[0].FromPoll? then [us[0]] else []) + OnlyPoll(us[1..])
  }

  /** And the poll's own bubble ends as it would have without the new question. */
  lemma {:induction false} OwnBubbleFollowsPoll(xs: seq<Exchange>, ys: seq<Exchange>, target: nat, us: seq<Update>)
    requires target < |xs| && target < |ys| && xs[target] == ys[target]
    requires forall u | u in us && u.FromAsk? :: u.index != target
    ensures var xs', ys' := ApplyAll(xs, target, us), ApplyAll(ys, target, OnlyPoll(us));
            target < |xs'| && target < |ys'| && xs'[target] == ys'[target]
    decreases us
  {
    if us == [] {
    } else {
      var u := us[0];
      assert u in us && forall v | v in us[1..] :: v in us;
      if u.FromPoll? {
        assert OnlyPoll(us)[1..] == OnlyPoll(us[1..]);
        OwnBubbleFollowsPoll(Apply(xs, target, u), Apply(ys, target, u), target, us[1..]);
      } else {
        assert OnlyPoll(us) == OnlyPoll(us[1..]);
        OwnBubbleFollowsPoll(Apply(xs, target, u), ys, target, us[1..]);
      }
    }
  }
}
