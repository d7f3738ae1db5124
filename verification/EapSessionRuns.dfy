/**
  Which packets an EAP session takes (src/lib/eap/session.c), told from the fields of the packets and of the
  RADIUS request: the exact guards, whose identity a session has, and how far a well-behaved peer gets.
 */
module EapSessionRuns {
  import opened Bytes
  import opened EapPacket
  import opened EapSession

  /** The User-Name does not contradict the identity, or the identity is too long for an attribute. */
  predicate UserFits(identity: seq<byte>, user: Option<seq<byte>>) {
    user.None? || user.value == identity || |identity| > 253
  }

  /** A packet that can start a session: an Identity response, or of a type that is a method's. */
  predicate CanStart(p: Packet) { (p.num == 1 && p.code == 2) || p.num > 3 }

  function StartIdentity(p: Packet): seq<byte> { if p.num == 1 then p.data else [] }

  /** A turn is taken if and only if packet, session and User-Name are right; a Nak is right for every session. */
  lemma AcceptedExactly(c: Option<Sess>, t: Turn)
    ensures Sent(c, t).Some? <==> match c
      case None => CanStart(t.p) && UserFits(StartIdentity(t.p), t.user)
      case Some(s) => s.rounds + 1 < 50 && (t.p.num == 3 || t.p.num == s.kind) && UserFits(s.identity, t.user)
  {
  }

  /** A refused turn leaves a thawed session, or none if the packet cannot start one or the rounds are used up. */
  lemma RefusedExactly(c: Option<Sess>, t: Turn)
    requires Sent(c, t).None?
    ensures Step(c, t) == match c
      case None => if CanStart(t.p) then Some(Sess(true, 0, StartIdentity(t.p), 0, 0, [])) else None
      case Some(s) => if s.rounds + 1 < 50 then Some(s.(thawed := true, rounds := s.rounds + 1)) else None
  {
  }

  /** What an accepted turn leaves: a frozen session of the method that answered, or none. */
  lemma AcceptedLeaves(c: Option<Sess>, t: Turn)
    requires Sent(c, t).Some?
    ensures Step(c, t).Some? <==> t.answer.GoesOn(t.p)
    ensures Step(c, t).Some? ==> var s := Step(c, t).value;
      && !s.thawed && s.kind == t.answer.kind
      && s.rounds == (if c.None? then 0 else c.value.rounds + 1)
      && s.accepted == (if c.None? then 1 else c.value.accepted + 1)
      && s.identity == (if c.None? then StartIdentity(t.p) else c.value.identity)
      && s.ids == (if c.None? then [] else c.value.ids) +
           (if t.answer.Code() != REQUEST then []
            else [if t.answer.setId.Some? then t.answer.setId.value else Inc(t.p.id)])
  {
  }

  /** The identifier of what is sent: the method's, else the response's for a Success or Failure, else the next one. */
  function SentId(t: Turn): byte {
    if t.answer.setId.Some? then t.answer.setId.value
    else if t.answer.Code() == 3 || t.answer.Code() == 4 then t.p.id
    else Inc(t.p.id)
  }

  /** The octets an accepted turn sends: four for an end, else header, type and type data. */
  lemma SentExactly(c: Option<Sess>, t: Turn)
    requires Sent(c, t).Some?
    ensures var a, m := t.answer, Sent(c, t).value;
      if a.result == Failed then m == [4, if a.setId.Some? then 0 else t.p.id, 0, 4]
      else if a.Code() >= 3 then m == [a.Code(), SentId(t), 0, 4]
      else
        && |m| == 5 + |a.data| && m[0] == a.Code() && m[1] == SentId(t) && U16(m[2], m[3]) == |m| % 65536
        && m[4] == (if a.Code() != 0 && a.num == 0 then a.kind else a.num) && m[5..] == a.data
  {
    hide U16;
    assert Net16(4) == [0, 4];
    hide Net16;
  }

  /** A challenge for a request, an acceptance for a success or response, a rejection for the rest unless proxied. */
  lemma RadiusCodeExactly(code: byte, proxied: bool)
    ensures RadiusCodeFor(code, proxied) == Some(AccessChallenge) <==> code == 1
    ensures RadiusCodeFor(code, proxied) == Some(AccessAccept) <==> code == 2 || code == 3
    ensures RadiusCodeFor(code, proxied) == Some(AccessReject) <==> code == 4 || (!proxied && (code < 1 || code > 4))
    ensures KnownCode(code) <==> code in {1, 2, 3, 4}
  {
  }

  // ----- Whose identity -----

  /** The packet that began the session that is bound now. */
  function FirstPacket(ts: seq<Turn>): Packet
    requires ts != []
  {
    var last := |ts| - 1;
    if Run(ts[..last]).None? || last == 0 then ts[last].p else FirstPacket(ts[..last])
  }

  /** The identity of a session is what its first packet said, whatever came since. */
  lemma {:induction false} IdentityIsFirst(ts: seq<Turn>)
    requires Run(ts).Some?
    ensures ts != [] && Run(ts).value.identity == StartIdentity(FirstPacket(ts)) && CanStart(FirstPacket(ts))
  {
    var front, t := ts[..|ts| - 1], ts[|ts| - 1];
    assert Run(ts) == Step(Run(front), t);
    if Run(front).Some? {
      IdentityIsFirst(front);
    }
    if Sent(Run(front), t).Some? {
      AcceptedLeaves(Run(front), t);
    } else {
      RefusedExactly(Run(front), t);
    }
  }

  // ----- A well-behaved peer -----

  /** Identity first, then always the type of the method that asked, under a User-Name that fits; every turn goes on. */
  predicate Steady(ts: seq<Turn>) {
    && ts != [] && ts[0].p.num == 1 && ts[0].p.code == 2
    && (forall i :: 0 <= i < |ts| ==> UserFits(ts[0].p.data, ts[i].user) && ts[i].answer.GoesOn(ts[i].p))
    && (forall i :: 0 < i < |ts| ==> ts[i].p.num == ts[i - 1].answer.kind)
  }

  lemma {:induction false} SteadySession(ts: seq<Turn>, k: nat)
    requires Steady(ts) && k < |ts| && k < 50
    ensures Sent(Run(ts[..k]), ts[k]).Some? && Run(ts[..k + 1]).Some?
    ensures var s := Run(ts[..k + 1]).value; s.rounds == k && s.identity == ts[0].p.data && s.kind == ts[k].answer.kind
  {
    assert ts[..k + 1][..k] == ts[..k];
    if k > 0 {
      SteadySession(ts, k - 1);
    }
    hide Run, Step, Sent;
    assert k == 0 ==> Run(ts[..k]) == None by { NothingRun(ts); }
    AcceptedExactly(Run(ts[..k]), ts[k]);
    AcceptedLeaves(Run(ts[..k]), ts[k]);
    RunLast(ts, k);
  }

  lemma NothingRun(ts: seq<Turn>)
    ensures Run(ts[..0]) == None
  {
  }

  lemma RunLast(ts: seq<Turn>, k: nat)
    requires k < |ts|
    ensures Run(ts[..k + 1]) == Step(Run(ts[..k]), ts[k])
  {
    assert ts[..k + 1][..k] == ts[..k];
  }

  /** The first fifty packets of such a peer are accepted, and the next one is not. */
  lemma FiftyAccepted(ts: seq<Turn>, k: nat)
    requires Steady(ts) && k < |ts| && k <= 50
    ensures Sent(Run(ts[..k]), ts[k]).Some? <==> k < 50
  {
    if k < 50 {
      SteadySession(ts, k);
    } else {
      SteadySession(ts, 49);
      AcceptedExactly(Run(ts[..50]), ts[50]);
    }
  }
}
