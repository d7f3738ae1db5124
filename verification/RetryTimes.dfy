/**
  When radclient transmits, waits and gives up (src/bin/radclient.c), told from the times of the visits and the
  replies in between.
 */
module RetryTimes {
  import opened Bytes
  import opened Retries

  // ----- What can be seen of a run -----

  /** The last event made the request be transmitted. */
  predicate Transmits(conf: Conf, es: seq<Event>)
    requires es != []
  {
    Run(conf, es).sent > Run(conf, es[..|es| - 1]).sent
  }

  /** When the request was last transmitted. */
  function LastSent(conf: Conf, es: seq<Event>): Option<int> {
    if es == [] then None
    else if Transmits(conf, es) && es[|es| - 1].Send? then Some(es[|es| - 1].now)
    else LastSent(conf, es[..|es| - 1])
  }

  /** How often it was transmitted since it last got an id. */
  function SentUnderId(conf: Conf, es: seq<Event>): nat {
    if es == [] then 0
    else
      var front := es[..|es| - 1];
      var before := if Run(conf, front).hasId then SentUnderId(conf, front) else 0;
      if Transmits(conf, es) then before + 1 else before
  }

  /** The request waits for a reply under an id. */
  predicate Waits(s: Progress) { s.hasId && !s.done && !s.gone }

  /** The fields of a waiting request are what was seen. */
  lemma {:induction false} FieldsSeen(conf: Conf, es: seq<Event>)
    requires Accepted(conf)
    ensures Waits(Run(conf, es)) ==>
      LastSent(conf, es) == Some(Run(conf, es).stamp) && SentUnderId(conf, es) == Run(conf, es).tries
    ensures Waits(Run(conf, es)) ==> 1 <= SentUnderId(conf, es) <= conf.retries
  {
    if es != [] {
      FieldsSeen(conf, es[..|es| - 1]);
      RunShape(conf, es[..|es| - 1]);
      FieldStep(conf, Run(conf, es[..|es| - 1]), es[|es| - 1]);
    }
  }

  /** What one event does to them. */
  lemma FieldStep(conf: Conf, s: Progress, e: Event)
    requires Accepted(conf) && Shape(s) && (Waits(s) ==> 1 <= s.tries <= conf.retries)
    ensures var t := Step(conf, s, e);
      && s.sent <= t.sent <= s.sent + 1
      && (t.sent > s.sent ==> e.Send? && !s.gone && !s.done)
      && (Waits(t) && t.sent > s.sent ==> t.stamp == e.now && t.tries == (if s.hasId then s.tries else 0) + 1)
      && (Waits(t) && t.sent == s.sent ==> Waits(s) && t.stamp == s.stamp && t.tries == s.tries)
      && (Waits(t) ==> 1 <= t.tries <= conf.retries)
  {
  }

  // ----- One visit -----

  /** A visit that frees the request without a transmission. */
  predicate GivesUp(conf: Conf, es: seq<Event>, e: Event) {
    Run(conf, es + [e]).gone && Run(conf, es + [e]).sent == Run(conf, es).sent
  }

  /** What a transmission leaves: a request that waits, or one that is done and freed because it could not be sent. */
  predicate Sent(conf: Conf, es: seq<Event>, e: Event)
    requires e.Send?
  {
    var t := Run(conf, es + [e]);
    if e.sentOk then Waits(t) && t.listed && t.data && t.stamp == e.now
    else t.done && t.gone && !t.hasId && !t.listed && !t.data
  }

  /**
    A visit to a request that waits: before `timeout` has passed since the last transmission nothing happens; then
    it is transmitted again, or given up if it was transmitted `retries` times under its id.
   */
  lemma VisitWaiting(conf: Conf, es: seq<Event>, e: Event)
    requires Accepted(conf) && Waits(Run(conf, es)) && e.Send?
    ensures LastSent(conf, es).Some?
    ensures var due := e.now - LastSent(conf, es).value >= conf.timeout;
      && (Run(conf, es + [e]) == Run(conf, es) <==> !due)
      && (Transmits(conf, es + [e]) <==> due && SentUnderId(conf, es) < conf.retries)
      && (GivesUp(conf, es, e) <==> due && SentUnderId(conf, es) == conf.retries)
      && (Transmits(conf, es + [e]) ==> Run(conf, es + [e]).resend == Run(conf, es).resend && Sent(conf, es, e))
      && (GivesUp(conf, es, e) ==>
            var s, t := Run(conf, es), Run(conf, es + [e]);
            t == s.(listed := false, data := false, done := s.resend == conf.resendCount, gone := true))
  {
    FieldsSeen(conf, es);
    RunShape(conf, es);
    RunSnoc(conf, es, e);
    assert (es + [e])[..|es|] == es;
    hide Run, LastSent, SentUnderId;
  }

  /** A visit to a request without an id: it is transmitted, as the next packet, exactly if one is found. */
  lemma VisitFresh(conf: Conf, es: seq<Event>, e: Event)
    requires var s := Run(conf, es); !s.hasId && !s.done && !s.gone && e.Send?
    ensures Transmits(conf, es + [e]) <==> e.idOk
    ensures !e.idOk ==> GivesUp(conf, es, e)
    ensures e.idOk ==> Run(conf, es + [e]).resend == Run(conf, es).resend + 1
    ensures e.idOk ==> Sent(conf, es, e)
  {
    RunShape(conf, es);
    RunSnoc(conf, es, e);
    assert (es + [e])[..|es|] == es;
    hide Run;
  }

  /** A visit to a request that is done frees it, and nothing happens to one that is freed. */
  lemma VisitDone(conf: Conf, es: seq<Event>, e: Event)
    requires e.Send? && (Run(conf, es).done || Run(conf, es).gone)
    ensures Run(conf, es + [e]) == Run(conf, es).(gone := true)
  {
    RunSnoc(conf, es, e);
  }

  /** Two transmissions under one id are at least `timeout` apart. */
  lemma TransmissionsApart(conf: Conf, es: seq<Event>, e: Event)
    requires Accepted(conf) && Waits(Run(conf, es)) && e.Send? && Transmits(conf, es + [e])
    ensures LastSent(conf, es).Some? && e.now >= LastSent(conf, es).value + conf.timeout
  {
    VisitWaiting(conf, es, e);
  }

  // ----- One reply -----

  /** A reply counts only if it is verified and awaited: the id is free, and the request done after its last packet. */
  lemma ReplyExactly(conf: Conf, es: seq<Event>, verified: bool, decoded: bool)
    ensures var s, t := Run(conf, es), Run(conf, es + [Reply(verified, decoded)]);
      && (t == s <==> !verified || !Waits(s))
      && (verified && Waits(s) ==>
            t == s.(hasId := false, listed := false, data := false, done := decoded && s.resend == conf.resendCount))
  {
    RunShape(conf, es);
    RunSnoc(conf, es, Reply(verified, decoded));
    hide Run;
  }

  // ----- No reply at all -----

  /** Every event is a visit, with an id to be had and a network that sends. */
  predicate Unanswered(es: seq<Event>) { forall i :: 0 <= i < |es| ==> es[i].Send? && es[i].idOk && es[i].sentOk }

  /** How many visits are due, the first and each that is `timeout` or more after the last due one; and that one. */
  function Due(timeout: int, es: seq<Event>): (nat, int)
    requires Unanswered(es)
  {
    if es == [] then (0, 0)
    else
      var (n, last) := Due(timeout, es[..|es| - 1]);
      var now := es[|es| - 1].now;
      if n == 0 || now - last >= timeout then (n + 1, now) else (n, last)
  }

  /** Without a reply a request is sent at every due visit, `retries` times at most, and freed at the next one. */
  lemma {:induction false} SentAtEveryDueVisit(conf: Conf, es: seq<Event>)
    requires Accepted(conf) && Unanswered(es)
    ensures var s, (n, last) := Run(conf, es), Due(conf.timeout, es);
      && s.sent == (if n <= conf.retries then n else conf.retries)
      && (s.gone <==> n > conf.retries)
      && (0 < n <= conf.retries ==> Waits(s) && s.tries == n && s.stamp == last && s.resend == 1)
      && (n == 0 ==> s == FRESH)
  {
    if es != [] {
      SentAtEveryDueVisit(conf, es[..|es| - 1]);
      RunShape(conf, es[..|es| - 1]);
    }
  }

  // ----- A reply to everything -----

  /** Every packet is answered, and the answers decode: the request is sent `resend_count` times and then freed. */
  lemma {:induction false} AnsweredIsSentOften(conf: Conf, n: nat)
    requires Accepted(conf)
    ensures var s := Run(conf, Answered(n));
      && s.sent == s.resend == (if n <= conf.resendCount then n else conf.resendCount)
      && (s.done <==> n >= conf.resendCount) && (s.gone <==> n > conf.resendCount) && !s.hasId && !s.listed
  {
    if n > 0 {
      AnsweredIsSentOften(conf, n - 1);
      RunShape(conf, Answered(n - 1));
      AnsweredOnce(conf, Answered(n - 1));
      hide Run;
    }
  }
}
