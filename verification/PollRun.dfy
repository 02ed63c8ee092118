/**
 `pollRun` of components/query-chat.tsx: watch one run of a thread until it settles, against a server
 that may answer anything.
 */
module PollRun {
  import opened Text

  datatype Run = Run(id: Option<string>, status: Option<string>, partial: Option<string>, error: Option<string>,
                     finalMessageId: Option<string>)

  /** One poll: the request throws, is refused, finds no run, or reports the thread's latest run. */
  datatype Answer = Thrown | NotOk | NoRun | Latest(run: Run)

  datatype SettledStatus = Done | Error
  datatype Settled = Settled(status: SettledStatus, error: Option<string>, hasAnswer: bool)

  predicate IsHex(c: char) {
    '0' <= c <= '9' || 'a' <= c <= 'f' || 'A' <= c <= 'F'
  }

  /** The only shape a conversation id may have: 8-4-4-4-12 hexadecimal digits. */
  predicate IsUuid(s: string) {
    |s| == 36 &&
    forall i | 0 <= i < 36 :: if i == 8 || i == 13 || i == 18 || i == 23 then s[i] == '-' else IsHex(s[i])
  }

  const HEX_DIGITS := "0123456789abcdefABCDEF"

  predicate AllHex(s: string) {
    forall c | c in s :: c in HEX_DIGITS
  }

  lemma HexDigits(c: char)
    ensures IsHex(c) <==> c in HEX_DIGITS
  {
    var n := if '0' <= c <= '9' then c as int - '0' as int
             else if 'a' <= c <= 'f' then c as int - 'a' as int + 10
             else if 'A' <= c <= 'F' then c as int - 'A' as int + 16
             else 0;
    assert IsHex(c) ==> HEX_DIGITS[n] == c;
  }

  /** Five groups of digits with dashes between them. */
  ghost predicate InGroups(s: string, a: string, b: string, c: string, d: string, e: string) {
    && s == a + "-" + b + "-" + c + "-" + d + "-" + e && |a| == 8 && |b| == |c| == |d| == 4 && |e| == 12
    && AllHex(a) && AllHex(b) && AllHex(c) && AllHex(d) && AllHex(e)
  }

  lemma HexAt(s: string, lo: nat, hi: nat)
    requires lo <= hi <= |s| && forall i | lo <= i < hi :: IsHex(s[i])
    ensures AllHex(s[lo..hi])
  {
    forall c | c in s[lo..hi] ensures c in HEX_DIGITS {
      HexDigits(c);
    }
  }

  lemma GroupIsHex(s: string)
    requires AllHex(s)
    ensures forall i | 0 <= i < |s| :: IsHex(s[i])
  {
    forall i | 0 <= i < |s| ensures IsHex(s[i]) {
      HexDigits(s[i]);
    }
  }

  lemma GroupsMakeUuid(s: string, a: string, b: string, c: string, d: string, e: string)
    requires InGroups(s, a, b, c, d, e)
    ensures IsUuid(s)
  {
    GroupIsHex(a);
    GroupIsHex(b);
    GroupIsHex(c);
    GroupIsHex(d);
    GroupIsHex(e);
  }

  /** The shape of an id, put together from its groups. */
  lemma UuidGroups(s: string)
    ensures IsUuid(s) <==> exists a, b, c, d, e :: InGroups(s, a, b, c, d, e)
  {
    if IsUuid(s) {
      HexAt(s, 0, 8);
      HexAt(s, 9, 13);
      HexAt(s, 14, 18);
      HexAt(s, 19, 23);
      HexAt(s, 24, 36);
      assert InGroups(s, s[0..8], s[9..13], s[14..18], s[19..23], s[24..36]);
    }
    if a, b, c, d, e :| InGroups(s, a, b, c, d, e) {
      GroupsMakeUuid(s, a, b, c, d, e);
    }
  }

  predicate IsStreaming(a: Answer) {
    a.Latest? && a.run.status == Some("streaming")
  }

  function NonEmpty(o: Option<string>): seq<string> {
    if o.Some? && o.value != "" then [o.value] else []
  }

  /** The ids of the first `n` answers are all null up to some point and one and the same from there. */
  ghost predicate OneRun(server: nat -> Answer, n: nat) {
    && (forall i: nat | i < n :: server(i).Latest?)
    && (forall i: nat, j: nat | i < j < n && server(i).run.id.Some? :: server(j).run.id == server(i).run.id)
  }

  /** The loop got through its first `n` polls: not aborted, each still streaming, all one run. */
  ghost predicate Streak(server: nat -> Answer, aborted: nat -> bool, n: nat) {
    && OneRun(server, n)
    && (forall i: nat | i < n :: !aborted(i) && IsStreaming(server(i)))
  }

  /** Poll number `n` ends the watch with a terminal state of the watched run. */
  ghost predicate SettlesAt(server: nat -> Answer, aborted: nat -> bool, n: nat) {
    Streak(server, aborted, n) && !aborted(n) && OneRun(server, n + 1) && !IsStreaming(server(n))
  }

  /** The partial answers of the first `n` polls, in order. */
  ghost function Partials(server: nat -> Answer, n: nat): seq<string>
    requires OneRun(server, n)
  {
    if n == 0 then [] else Partials(server, n - 1) + NonEmpty(server(n - 1).run.partial)
  }

  function Describe(run: Run): Settled {
    Settled(if run.status == Some("error") then Error else Done,
            run.error,
            run.status == Some("done") && NonEmpty(run.finalMessageId) != [])
  }

  /** The number of polls a watch gets through is determined by the server and the signal. */
  lemma StreakIsDetermined(server: nat -> Answer, aborted: nat -> bool, m: nat, n: nat)
    requires Streak(server, aborted, m) && !Streak(server, aborted, m + 1)
    requires Streak(server, aborted, n) && !Streak(server, aborted, n + 1)
    ensures m == n
  {
    if m < n {
      StreakPrefix(server, aborted, m + 1, n);
    } else if n < m {
      StreakPrefix(server, aborted, n + 1, m);
    }
  }

  lemma StreakPrefix(server: nat -> Answer, aborted: nat -> bool, m: nat, n: nat)
    requires Streak(server, aborted, n) && m <= n
    ensures Streak(server, aborted, m)
  {
  }

  method Poll(conversationId: string, maxPolls: int, aborted: nat -> bool, server: nat -> Answer)
    returns (result: Option<Settled>, partials: seq<string>, requests: nat, ghost streak: nat)
    // an id that is not uuid-shaped never reaches the network
    ensures !IsUuid(conversationId) ==> result == None && partials == [] && requests == streak == 0
    // the budget holds whatever the server does
    ensures streak == 0 || streak <= maxPolls
    ensures requests == 0 || requests <= maxPolls
    // the watch goes on exactly while the same run streams, the signal is quiet and budget is left
    ensures Streak(server, aborted, streak)
    ensures IsUuid(conversationId) && streak < maxPolls ==> !Streak(server, aborted, streak + 1)
    ensures streak <= requests <= streak + 1
    // every partial passed on is one of that run's, in order
    ensures partials == Partials(server, streak)
    // a result is given exactly when the watched run settles inside the budget, and describes it
    ensures result.Some? <==> IsUuid(conversationId) && streak < maxPolls && SettlesAt(server, aborted, streak)
    ensures result.Some? ==> result.value == Describe(server(streak).run)
    // that run failed or is over, with the error it gives and an answer only where a message is named
    ensures result.Some? ==>
              var run := server(streak).run;
              && (result.value.status == Error <==> run.status == Some("error"))
              && result.value.error == run.error
              && (result.value.hasAnswer <==>
                    run.status == Some("done") && run.finalMessageId.Some? && run.finalMessageId.value != "")
              && run.status != Some("streaming") && !aborted(streak)
    ensures forall i: nat | i < streak ::
              server(i).Latest? && server(i).run.status == Some("streaming") && !aborted(i)
    // what cuts a watch short before its budget
    ensures IsUuid(conversationId) && streak < maxPolls && result.None? ==>
              || aborted(streak) || !server(streak).Latest?
              || (streak > 0 && server(streak - 1).run.id.Some?
                  && server(streak).run.id != server(streak - 1).run.id)
  {
    partials, requests, streak := [], 0, 0;
    if !IsUuid(conversationId) {
      return None, partials, requests, streak;
    }
    var watchedId: Option<string> := None;
    var polls := 0;
    while polls < maxPolls
      invariant 0 <= polls && (polls == 0 || polls <= maxPolls)
      invariant requests == polls == streak
      invariant Streak(server, aborted, polls)
      invariant partials == Partials(server, polls)
      invariant watchedId == if polls == 0 then None else server(polls - 1).run.id
    {
      if aborted(polls) {
        return None, partials, requests, streak;
      }
      requests := requests + 1;
      var answer := server(polls);
      if !answer.Latest? {
        return None, partials, requests, streak;
      }
      var run := answer.run;
      if watchedId.None? {
        watchedId := run.id;
      } else if run.id != watchedId {
        assert server(polls - 1).run.id == watchedId;
        return None, partials, requests, streak;
      }
      assert OneRun(server, polls + 1);
      if run.status == Some("streaming") {
        partials := partials + NonEmpty(run.partial);
        polls, streak := polls + 1, streak + 1;
      } else {
        return Some(Describe(run)), partials, requests, streak;
      }
    }
    return None, partials, requests, streak;
  }
}
