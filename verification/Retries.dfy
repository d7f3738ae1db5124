/**
  The sending side of radclient (src/bin/radclient.c): how often one request is transmitted.  A request is
  followed through the visits of the send loop and the replies it gets.
 */
module Retries {
  datatype Conf = Conf(retries: nat, resendCount: nat, timeout: int)

  /** Both options are checked when they are read. */
  predicate Accepted(conf: Conf) { 1 <= conf.retries <= 1000 && 1 <= conf.resendCount }

  /** A visit of the send loop at a time, with the fate of getting an id and of the transmission; or a reply. */
  datatype Event = Send(now: int, idOk: bool, sentOk: bool) | Reply(verified: bool, decoded: bool)

  /**
    A request: whether it holds an id and is in the packet list, its counters, whether its packet is encoded,
    how often it was transmitted, and whether it was freed.
   */
  datatype Progress = Progress(hasId: bool, listed: bool, tries: nat, resend: nat, done: bool, data: bool,
                               stamp: int, sent: nat, gone: bool)

  const FRESH := Progress(false, false, 0, 0, false, false, 0, 0, false)

  /** `deallocate_id`: the id is given back exactly when the packet was still in the list. */
  function Deallocated(s: Progress): Progress {
    if !s.hasId then s else s.(hasId := !s.listed, listed := false, data := false)
  }

  /** The transmission itself. */
  function Transmitted(s: Progress, ok: bool): Progress {
    var s' := s.(sent := s.sent + 1, data := true);
    if ok then s' else Deallocated(s').(done := true, gone := true)
  }

  /** `send_one_packet`, and the freeing of the request by its caller when it fails. */
  function SendOne(conf: Conf, s: Progress, now: int, idOk: bool, ok: bool): Progress {
    if s.tries == 0 || !s.hasId then
      if !idOk then s.(gone := true)
      else Transmitted(s.(hasId := true, listed := true, tries := 1, resend := s.resend + 1, stamp := now), ok)
    else if now - s.stamp < conf.timeout then s
    else if s.tries == conf.retries then
      Deallocated(s.(listed := false)).(done := s.done || s.resend == conf.resendCount, gone := true)
    else Transmitted(s.(stamp := now, tries := s.tries + 1), ok)
  }

  /** `recv_one_packet` for a reply to this request. */
  function Received(conf: Conf, s: Progress, verified: bool, decoded: bool): Progress {
    if !verified then s
    else if !decoded then Deallocated(s)
    else Deallocated(s).(done := s.done || s.resend == conf.resendCount)
  }

  function Step(conf: Conf, s: Progress, e: Event): Progress {
    if s.gone then s
    else match e
      case Send(now, idOk, ok) => if s.done then s.(gone := true) else SendOne(conf, s, now, idOk, ok)
      case Reply(verified, decoded) => if s.listed then Received(conf, s, verified, decoded) else s
  }

  function Run(conf: Conf, es: seq<Event>): Progress {
    if es == [] then FRESH else Step(conf, Run(conf, es[..|es| - 1]), es[|es| - 1])
  }

  lemma RunSnoc(conf: Conf, es: seq<Event>, e: Event)
    ensures Run(conf, es + [e]) == Step(conf, Run(conf, es), e)
  {
    assert (es + [e])[..|es|] == es;
  }

  // ----- What every run keeps -----

  predicate Shape(s: Progress) {
    && (s.listed ==> s.hasId && !s.done && !s.gone)
    && (s.hasId && !s.gone ==> s.listed)
    && (s.data <==> s.listed)
    && (s.tries == 0 <==> s.resend == 0)
    && (s.hasId ==> s.tries > 0)
    && (s.tries == 0 ==> s.sent == 0 && !s.done)
  }

  lemma {:induction false} RunShape(conf: Conf, es: seq<Event>)
    ensures Shape(Run(conf, es))
  {
    if es != [] {
      RunShape(conf, es[..|es| - 1]);
    }
  }

  // ----- The bound -----

  /** A reply that cannot be decoded, to the last packet the request was to send. */
  predicate LateFailure(conf: Conf, es: seq<Event>) {
    es != [] &&
    (LateFailure(conf, es[..|es| - 1])
     || (var s := Run(conf, es[..|es| - 1]);
         es[|es| - 1] == Reply(true, false) && s.listed && s.resend == conf.resendCount))
  }

  predicate Bounded(conf: Conf, s: Progress) {
    && s.tries <= conf.retries && s.resend <= conf.resendCount
    && s.sent <= (if s.resend == 0 then 0 else conf.retries * (s.resend - 1) + s.tries)
    && (!s.done && !s.gone && !s.hasId ==> s.resend < conf.resendCount)
  }

  lemma StepBounded(conf: Conf, s: Progress, e: Event)
    requires Accepted(conf) && Shape(s) && Bounded(conf, s)
    requires !(e == Reply(true, false) && s.listed && s.resend == conf.resendCount)
    ensures Bounded(conf, Step(conf, s, e))
  {
    if s.resend > 0 {
      ProductGrows(conf.retries, s.resend - 1, s.resend - 1);
    }
  }

  lemma {:induction false} RunBounded(conf: Conf, es: seq<Event>)
    requires Accepted(conf) && !LateFailure(conf, es)
    ensures Bounded(conf, Run(conf, es))
  {
    if es != [] {
      RunShape(conf, es[..|es| - 1]);
      RunBounded(conf, es[..|es| - 1]);
      StepBounded(conf, Run(conf, es[..|es| - 1]), es[|es| - 1]);
    }
  }

  /** Once visited, a request has been tried 1 to `retries` times, and sent at most `retries * resend_count` times. */
  lemma TransmissionBound(conf: Conf, es: seq<Event>)
    requires Accepted(conf) && !LateFailure(conf, es)
    ensures var s := Run(conf, es);
            s.tries <= conf.retries && s.resend <= conf.resendCount && s.sent <= conf.retries * conf.resendCount
    ensures es != [] && es[0].Send? && es[0].idOk ==> Run(conf, es).tries >= 1
  {
    RunBounded(conf, es);
    hide Run, LateFailure;
    var s := Run(conf, es);
    if s.resend > 0 {
      SentWithin(conf.retries, conf.resendCount, s.resend, s.tries, s.sent);
    }
    if es != [] && es[0].Send? && es[0].idOk {
      FirstVisitTries(conf, es);
    }
  }

  lemma SentWithin(retries: nat, count: nat, resend: nat, tries: nat, sent: nat)
    requires 0 < resend <= count && tries <= retries && sent <= retries * (resend - 1) + tries
    ensures sent <= retries * count
  {
    ProductGrows(retries, resend - 1, count - 1);
  }

  lemma ProductGrows(n: nat, a: nat, b: nat)
    requires a <= b
    ensures n * a + n <= n * (b + 1)
  {
    assert n * (b + 1) == n * (a + 1) + n * (b - a);
  }

  lemma {:induction false} FirstVisitTries(conf: Conf, es: seq<Event>)
    requires es != [] && es[0].Send? && es[0].idOk
    ensures Run(conf, es).tries >= 1
    decreases |es|
  {
    if |es| == 1 {
      assert es[..0] == [];
    } else {
      assert es[..|es| - 1][0] == es[0];
      FirstVisitTries(conf, es[..|es| - 1]);
    }
  }

  // ----- Without the condition -----

  /** The request goes on although it has been sent often enough. */
  predicate Over(conf: Conf, s: Progress) {
    s.gone || s.resend > conf.resendCount || (s.resend == conf.resendCount && s.tries > 0 && !s.hasId && !s.done)
  }

  lemma {:induction false} LateFailureOver(conf: Conf, es: seq<Event>)
    requires LateFailure(conf, es)
    ensures Over(conf, Run(conf, es))
  {
    var front := es[..|es| - 1];
    RunShape(conf, front);
    if LateFailure(conf, front) {
      LateFailureOver(conf, front);
    }
  }

  /** After the next visit a request has been sent no more than `resend_count` times exactly without a late failure. */
  lemma ResendBoundExactly(conf: Conf, es: seq<Event>, now: int, ok: bool)
    requires Accepted(conf) && !Run(conf, es).gone
    ensures Run(conf, es + [Send(now, true, ok)]).resend <= conf.resendCount <==> !LateFailure(conf, es)
  {
    var more := es + [Send(now, true, ok)];
    assert more[..|more| - 1] == es;
    if LateFailure(conf, es) {
      LateFailureOver(conf, es);
    } else {
      RunBounded(conf, more);
    }
  }

  /** `n` more packets, each of them answered. */
  function Answered(n: nat): seq<Event> {
    if n == 0 then [] else Answered(n - 1) + [Send(0, true, true), Reply(true, true)]
  }

  /** Sent often enough, answered, and still to be sent again. */
  predicate Again(conf: Conf, s: Progress, n: nat) {
    s.resend == conf.resendCount + n && s.sent >= n && s.tries > 0 && !s.hasId && !s.listed && !s.done && !s.gone
  }

  lemma AgainAnswered(conf: Conf, s: Progress, n: nat)
    requires Again(conf, s, n)
    ensures Again(conf, Step(conf, Step(conf, s, Send(0, true, true)), Reply(true, true)), n + 1)
  {
  }

  /** After a late failure there is no bound: as long as the server answers, the request is sent again. */
  lemma {:induction false} NoBoundAfterLateFailure(conf: Conf, es: seq<Event>, n: nat)
    requires LateFailure(conf, es) && Run(conf, es).resend == conf.resendCount && !Run(conf, es).gone
    ensures Again(conf, Run(conf, es + Answered(n)), n)
  {
    hide Run, LateFailure, Step;
    if n == 0 {
      LateFailureOver(conf, es);
      RunShape(conf, es);
      assert es + Answered(0) == es;
    } else {
      NoBoundAfterLateFailure(conf, es, n - 1);
      var before := es + Answered(n - 1);
      AnsweredOnce(conf, before);
      AgainAnswered(conf, Run(conf, before), n - 1);
      assert es + Answered(n) == before + [Send(0, true, true), Reply(true, true)];
    }
  }

  lemma AnsweredOnce(conf: Conf, es: seq<Event>)
    ensures Run(conf, es + [Send(0, true, true), Reply(true, true)])
         == Step(conf, Step(conf, Run(conf, es), Send(0, true, true)), Reply(true, true))
  {
    var one, two := es + [Send(0, true, true)], es + [Send(0, true, true), Reply(true, true)];
    assert one[..|one| - 1] == es;
    assert two[..|two| - 1] == one;
  }

  /** The shortest run that gets there: one packet to send, one reply that cannot be decoded. */
  lemma LateFailureHappens(conf: Conf)
    requires Accepted(conf) && conf.resendCount == 1
    ensures var es := [Send(0, true, true), Reply(true, false)];
            LateFailure(conf, es) && Run(conf, es).resend == 1 && Run(conf, es + [Send(1, true, true)]).resend == 2
  {
    var one, es := [Send(0, true, true)], [Send(0, true, true), Reply(true, false)];
    var three := es + [Send(1, true, true)];
    assert one[..0] == [];
    assert es[..1] == one && three[..2] == es;
    assert Run(conf, one).listed && Run(conf, one).resend == 1;
    assert Run(conf, es) == Step(conf, Run(conf, one), Reply(true, false));
  }
}
