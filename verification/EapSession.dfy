/**
  The life of an EAP session (src/lib/eap/session.c) and the identifier rules of the replies sent in it
  (src/lib/eap/compose.c).
 */
module EapSession {
  import opened Bytes
  import opened EapPacket

  const IDENTITY: byte := 1
  const MD5: byte := 4
  const LEAP: byte := 17
  const MAX_ROUNDS := 50
  const MAX_STRING := 253

  // ----- Replies -----

  /** The RADIUS reply code chosen for an EAP reply. */
  datatype RadiusCode = AccessAccept | AccessReject | AccessChallenge

  /** A code that EAP does not know is a rejection, unless the request is being proxied. */
  function RadiusCodeFor(code: byte, proxied: bool): Option<RadiusCode> {
    if code == REQUEST then Some(AccessChallenge)
    else if code == RESPONSE || code == SUCCESS then Some(AccessAccept)
    else if code == FAILURE || !proxied then Some(AccessReject)
    else None
  }

  predicate KnownCode(code: byte) { REQUEST <= code <= FAILURE }

  /** The type of a reply whose method left it open is the session's. */
  function TypeFor(code: byte, num: byte, kind: byte): byte {
    if (code == REQUEST || code == RESPONSE) && num == 0 then kind else num
  }

  /** The identifier of a reply to response `responseId`, unless the method chose one. */
  function ReplyId(code: byte, setId: Option<byte>, responseId: byte): byte {
    if setId.Some? then setId.value
    else if code == SUCCESS || code == FAILURE then responseId
    else Inc(responseId)
  }

  /** A Success or Failure is a header alone. */
  lemma ShortWire(p: Packet)
    ensures p.code >= SUCCESS ==> Wire(p) == [p.code, p.id, 0, 4]
  {
    assert Net16(4) == [0, 4];
  }

  /** A response and the reply being built for it, `eap_round_t`. */
  class Round {
    const response: Packet
    var reply: Reply
    var setRequestId: bool

    constructor (response: Packet)
      ensures this.response == response && !setRequestId && fresh(reply)
      ensures reply.code == 0 && reply.id == 0 && reply.typeNum == 0 && reply.typeData == [] && reply.packet == None
    {
      this.response, setRequestId := response, false;
      reply := new Reply(0, 0, 0, []);
    }

    /** `eap_compose`: give the reply its identifier and type, and its octets to the EAP-Message. */
    method Compose(kind: byte, proxied: bool) returns (message: seq<byte>, radius: Option<RadiusCode>)
      requires reply.packet == None
      requires reply.code < SUCCESS ==> |reply.typeData| <= MAX_TYPE_DATA
      requires (reply.code == REQUEST || reply.code == RESPONSE) && reply.typeNum == 0 ==> MD5 <= kind < METHOD_MAX
      modifies reply
      ensures reply == old(reply) && reply.packet == None && reply.typeData == old(reply.typeData)
      ensures reply.code == if KnownCode(old(reply.code)) || proxied then old(reply.code) else FAILURE
      ensures reply.id == ReplyId(old(reply.code), if setRequestId then Some(old(reply.id)) else None, response.id)
      ensures reply.typeNum == TypeFor(old(reply.code), old(reply.typeNum), kind)
      ensures var p := Packet(old(reply.code), reply.id, LengthOf(old(reply.code), reply.typeData), reply.typeNum,
                              reply.typeData);
        && |message| == p.length && message[..EAP_HEADER_LEN] == Wire(p)[..EAP_HEADER_LEN]
        && (p.code != 0 ==> message == Wire(p))
        && (p.code >= SUCCESS ==> message == [p.code, p.id, 0, 4])
      ensures radius == RadiusCodeFor(old(reply.code), proxied)
    {
      hide Wire, Net16;
      if !setRequestId {
        reply.id := response.id;
        if reply.code != SUCCESS && reply.code != FAILURE {
          reply.id := Inc(reply.id);
        }
      }
      if (reply.code == REQUEST || reply.code == RESPONSE) && reply.typeNum == 0 {
        reply.typeNum := kind;
      }
      reply.WireFormat();
      message := reply.packet.value;
      ShortWire(reply.View());
      reply.packet := None;
      if reply.code == RESPONSE || reply.code == SUCCESS {
        radius := Some(AccessAccept);
      } else if reply.code == FAILURE {
        radius := Some(AccessReject);
      } else if reply.code == REQUEST {
        radius := Some(AccessChallenge);
      } else if proxied {
        radius := None;
      } else {
        radius, reply.code := Some(AccessReject), FAILURE;
      }
    }

    /** `eap_fail`: whatever the method had prepared is thrown away. */
    method Fail() returns (message: seq<byte>, radius: Option<RadiusCode>)
      modifies this
      ensures fresh(reply) && setRequestId == old(setRequestId)
      ensures radius == Some(AccessReject)
      ensures message == [FAILURE, if setRequestId then 0 else response.id, 0, 4]
    {
      hide Wire;
      reply := new Reply(FAILURE, 0, 0, []);
      message, radius := Compose(0, false);
    }

    /** `eap_success` */
    method Success() returns (message: seq<byte>, radius: Option<RadiusCode>)
      requires reply.packet == None
      modifies reply
      ensures radius == Some(AccessAccept)
      ensures message == [SUCCESS, if setRequestId then old(reply.id) else response.id, 0, 4]
    {
      hide Wire;
      reply.code := SUCCESS;
      message, radius := Compose(0, false);
    }

    /** `eap_continue` */
    method Continue(kind: byte) returns (message: seq<byte>, radius: Option<RadiusCode>)
      requires reply.packet == None && |reply.typeData| <= MAX_TYPE_DATA
      requires reply.typeNum == 0 ==> MD5 <= kind < METHOD_MAX
      modifies reply
      ensures radius == Some(AccessChallenge) && message == Wire(reply.View()) && reply.code == REQUEST
      ensures reply.typeNum == (if old(reply.typeNum) == 0 then kind else old(reply.typeNum))
      ensures reply.typeData == old(reply.typeData)
      ensures reply.id == if setRequestId then old(reply.id) else Inc(response.id)
    {
      hide Wire;
      reply.code := REQUEST;
      message, radius := Compose(kind, false);
    }
  }

  // ----- Sessions -----

  /** A session as a value, with the packets it accepted and the identifiers of the requests it sent. */
  datatype Sess = Sess(thawed: bool, kind: byte, identity: seq<byte>, rounds: nat, accepted: nat, ids: seq<byte>)

  /** The identity of a new session, or nothing when its first packet cannot start one. */
  function InitialIdentity(p: Packet): Option<seq<byte>> {
    if p.num == IDENTITY then
      if p.code == RESPONSE then Some(p.data) else None
    else if p.num == 0 || p.num == NOTIFICATION || p.num == NAK then None
    else Some([])
  }

  /** A User-Name that contradicts the EAP identity, when that fits in an attribute. */
  predicate WrongUser(identity: seq<byte>, user: Option<seq<byte>>) {
    user.Some? && |identity| <= MAX_STRING && user.value != identity
  }

  /** `eap_session_continue`: the session bound afterwards, and whether the caller is given it. */
  function Continued(c: Option<Sess>, p: Packet, user: Option<seq<byte>>): (Option<Sess>, bool) {
    match c
    case None =>
      var identity := InitialIdentity(p);
      if identity == None then (None, false)
      else
        var s := Sess(true, 0, identity.value, 0, 0, []);
        if WrongUser(s.identity, user) then (Some(s), false) else (Some(s.(accepted := 1)), true)
    case Some(s) =>
      var s' := s.(thawed := true, rounds := s.rounds + 1);
      if s'.rounds >= MAX_ROUNDS then (None, false)
      else if p.num != NAK && p.num != s.kind then (Some(s'), false)
      else if WrongUser(s.identity, user) then (Some(s'), false)
      else (Some(s'.(accepted := s.accepted + 1)), true)
  }

  /** A caller's pointer to a raw packet. */
  class PacketRef {
    var packet: Option<seq<byte>>

    constructor (packet: Option<seq<byte>>)
      ensures this.packet == packet
    {
      this.packet := packet;
    }
  }

  class Session {
    var thawed: bool
    var kind: byte
    var identity: seq<byte>
    var rounds: nat
    var thisRound: Round?
    var finished: bool
    ghost var accepted: nat
    ghost var ids: seq<byte>

    constructor ()
      ensures View() == Sess(true, 0, [], 0, 0, []) && thisRound == null && !finished
    {
      thawed, kind, identity, rounds, finished := true, 0, [], 0, false;
      thisRound, accepted, ids := null, 0, [];
    }

    ghost function View(): Sess
      reads this
    {
      Sess(thawed, kind, identity, rounds, accepted, ids)
    }
  }

  /** The requests of one authentication, linked by the State attribute, and the session bound to them. */
  class Conversation {
    var bound: Session?

    ghost function View(): Option<Sess>
      reads this, bound
    {
      if bound == null then None else Some(bound.View())
    }

    constructor ()
      ensures View() == None
    {
      bound := null;
    }

    /** `eap_session_thaw`; `frozen` is the assertion it makes. */
    method Thaw() returns (s: Session?, frozen: bool)
      modifies bound
      ensures s == bound && bound == old(bound)
      ensures frozen <==> old(bound == null || !bound.thawed)
      ensures View() == if s == null then None else Some(old(View()).value.(thawed := true))
    {
      s, frozen := bound, true;
      if s != null {
        frozen := !s.thawed;
        s.thawed := true;
      }
    }

    /** `eap_session_freeze` */
    method Freeze(s: Session)
      requires s == bound && s.thawed
      modifies s`thawed
      ensures View() == Some(old(View()).value.(thawed := false))
    {
      s.thawed := false;
    }

    /** `eap_session_destroy` */
    method Destroy(s: Session)
      requires s == bound
      modifies this
      ensures View() == None
    {
      bound := null;
    }

    /** `eap_session_continue`: whatever happens, the caller's packet pointer is NULL afterwards. */
    method Continue(ref: PacketRef, user: Option<seq<byte>>) returns (s: Session?, userName: seq<byte>)
      requires ref.packet.Some? && |ref.packet.value| > EAP_HEADER_LEN
      requires U16(ref.packet.value[2], ref.packet.value[3]) <= |ref.packet.value|
      requires EAP_HEADER_LEN < U16(ref.packet.value[2], ref.packet.value[3])
      modifies this, bound, ref
      ensures ref.packet == None
      ensures (View(), s != null) == Continued(old(View()), RoundBuild(old(ref.packet.value)), user)
      ensures s != null ==> s == bound && s.thawed && (old(bound) != null ==> s == old(bound))
      ensures s != null ==> s.thisRound != null && s.thisRound.response == RoundBuild(old(ref.packet.value))
      ensures s != null ==> fresh(s.thisRound) && fresh(s.thisRound.reply) && !s.thisRound.setRequestId
      ensures s != null ==> s.thisRound.reply.packet == None && s.thisRound.reply.typeNum == 0
      ensures s != null && user.None? ==> userName == s.identity
      ensures bound == old(bound) || bound == null || fresh(bound)
    {
      hide RoundBuild, U16;
      userName := if user.Some? then user.value else [];
      var p := RoundBuild(ref.packet.value);
      ref.packet := None;
      var frozen;
      s, frozen := Thaw();
      if s == null {
        s := new Session();
        if p.num == IDENTITY {
          if p.code != RESPONSE {
            return null, userName;
          }
          s.identity := p.data;
        } else if p.num == 0 || p.num == NOTIFICATION || p.num == NAK {
          return null, userName;
        }
        bound := s;
      } else {
        s.rounds := s.rounds + 1;
        if s.rounds >= MAX_ROUNDS {
          Destroy(s);
          return null, userName;
        }
        if p.num != NAK && p.num != s.kind {
          return null, userName;
        }
      }
      if user == None {
        userName := s.identity;
      } else if |s.identity| <= MAX_STRING {
        if s.identity != user.value {
          return null, userName;
        }
      }
      s.thisRound := new Round(p);
      s.accepted := s.accepted + 1;
    }

    /**
      One turn as the EAP module takes it (`mod_authenticate_result`): continue, compose the answer, then freeze
      or destroy.
     */
    method TakeTurn(ref: PacketRef, user: Option<seq<byte>>, a: Answer) returns (message: Option<seq<byte>>)
      requires ref.packet.Some? && |ref.packet.value| > EAP_HEADER_LEN
      requires EAP_HEADER_LEN < U16(ref.packet.value[2], ref.packet.value[3]) <= |ref.packet.value|
      requires a.Ok()
      modifies this, bound, ref
      ensures ref.packet == None
      ensures View() == Step(old(View()), Turn(RoundBuild(old(ref.packet.value)), user, a))
      ensures var t := Turn(RoundBuild(old(ref.packet.value)), user, a);
        Answers(message, Sent(old(View()), t), a.Code())
    {
      hide RoundBuild, U16, Continued, Wire;
      var s, _ := Continue(ref, user);
      if s == null {
        return None;
      }
      var round := s.thisRound;
      s.kind := a.kind;
      var code := Prepare(round, a);
      var m: seq<byte>, radius: Option<RadiusCode>;
      if a.result == Failed {
        m, radius := round.Fail();
        message := Some(m);
        Destroy(s);
        return;
      }
      m, radius := round.Compose(s.kind, a.proxied);
      message := Some(m);
      var reply := round.reply;
      if (reply.code == REQUEST && reply.typeNum >= MD5)
         || (round.response.code == RESPONSE && round.response.num == LEAP
             && reply.code == SUCCESS && reply.typeNum == 0) {
        assert s.ids + [] == s.ids;
        if code == REQUEST {
          s.ids := s.ids + [reply.id];
        }
        Freeze(s);
      } else {
        Destroy(s);
      }
    }

    /** What the method left in the reply; a method that rejects has its code overridden. */
    method Prepare(round: Round, a: Answer) returns (code: byte)
      modifies round, round.reply
      ensures round.reply == old(round.reply) && round.reply.packet == old(round.reply.packet)
      ensures code == round.reply.code == a.Code() && round.reply.typeNum == a.num && round.reply.typeData == a.data
      ensures round.setRequestId == (old(round.setRequestId) || a.setId.Some?)
      ensures a.setId.Some? ==> round.reply.id == a.setId.value
    {
      round.reply.code, round.reply.typeNum, round.reply.typeData := a.code, a.num, a.data;
      if a.setId.Some? {
        round.setRequestId, round.reply.id := true, a.setId.value;
      }
      if a.result == Rejected {
        round.reply.code := FAILURE;
      }
      code := round.reply.code;
    }
  }

  // ----- Every run of a conversation -----

  /** The result of the method's module: fail or invalid, reject or disallow, or anything else. */
  datatype Result = Failed | Rejected | Other

  /** What a method did with an accepted packet; `kind` is its type, the rest what it left in the reply. */
  datatype Answer = Answer(result: Result, kind: byte, code: byte, num: byte, setId: Option<byte>, data: seq<byte>,
                           proxied: bool)
  {
    /** The code of the reply. */
    function Code(): byte { if result == Rejected then FAILURE else code }

    predicate Ok() {
      && (Code() < SUCCESS ==> |data| <= MAX_TYPE_DATA)
      && ((Code() == REQUEST || Code() == RESPONSE) && num == 0 ==> MD5 <= kind < METHOD_MAX)
    }

    /** The session goes on after a request of a method, and after a LEAP success. */
    predicate GoesOn(p: Packet) {
      && result != Failed
      && ((Code() == REQUEST && TypeFor(REQUEST, num, kind) >= MD5)
          || (p.code == RESPONSE && p.num == LEAP && Code() == SUCCESS && num == 0))
    }
  }

  /** One Access-Request of the conversation. */
  datatype Turn = Turn(p: Packet, user: Option<seq<byte>>, answer: Answer)

  /** A turn as the module runs it: continue, compose, then freeze or destroy. */
  function Step(c: Option<Sess>, t: Turn): Option<Sess> {
    var (c', ok) := Continued(c, t.p, t.user);
    if !ok then c'
    else if !t.answer.GoesOn(t.p) then None
    else
      var s := c'.value;
      var id := ReplyId(REQUEST, t.answer.setId, t.p.id);
      Some(s.(thawed := false, kind := t.answer.kind, ids := s.ids + if t.answer.Code() == REQUEST then [id] else []))
  }

  /** The EAP packet a turn sends back. */
  function Sent(c: Option<Sess>, t: Turn): Option<seq<byte>> {
    var a, code := t.answer, t.answer.Code();
    if !Continued(c, t.p, t.user).1 then None
    else if a.result == Failed then Some([FAILURE, if a.setId.Some? then 0 else t.p.id, 0, 4])
    else
      var id, num := ReplyId(code, a.setId, t.p.id), TypeFor(code, a.num, a.kind);
      Some(Wire(Packet(code, id, LengthOf(code, a.data), num, a.data)))
  }

  /** What is sent is what was to be sent; under code 0 only the header and the length are determined. */
  predicate Answers(message: Option<seq<byte>>, sent: Option<seq<byte>>, code: byte) {
    if message.None? || sent.None? then message == sent
    else if code != 0 then message == sent
    else
      && |message.value| == |sent.value| >= EAP_HEADER_LEN
      && message.value[..EAP_HEADER_LEN] == sent.value[..EAP_HEADER_LEN]
  }

  function Run(ts: seq<Turn>): Option<Sess> {
    if ts == [] then None else Step(Run(ts[..|ts| - 1]), ts[|ts| - 1])
  }

  /** A method that fails or rejects ends the session, whatever it left in the reply. */
  lemma RefusalEndsSession(c: Option<Sess>, t: Turn)
    requires Continued(c, t.p, t.user).1 && t.answer.result != Other
    ensures Step(c, t) == None
    ensures Sent(c, t).Some? && |Sent(c, t).value| == EAP_HEADER_LEN && Sent(c, t).value[0] == FAILURE
  {
  }

  /** No session ever accepts more than fifty packets, nor sends more requests than it accepted packets. */
  lemma {:induction false} RunBounded(ts: seq<Turn>)
    ensures Run(ts).Some? ==> var s := Run(ts).value;
      |s.ids| <= s.accepted <= s.rounds + 1 <= MAX_ROUNDS
  {
    if ts != [] {
      RunBounded(ts[..|ts| - 1]);
    }
  }

  /**
    The guard of the two exits that return nothing yet leave the session bound and thawed: the packet
    is of the wrong type for the session, or the User-Name does not match the identity.
   */
  predicate LeftThawed(c: Option<Sess>, t: Turn) {
    match c
    case None =>
      var identity := if t.p.num == 1 then t.p.data else [];
      && ((t.p.num == 1 && t.p.code == 2) || t.p.num > 3)
      && t.user.Some? && t.user.value != identity && |identity| <= 253
    case Some(s) =>
      && s.rounds + 1 < 50
      && ((t.p.num != 3 && t.p.num != s.kind) || (t.user.Some? && t.user.value != s.identity && |s.identity| <= 253))
  }

  /** The thaw assertion of the next turn fails if and only if the last turn left through one of those exits. */
  lemma ThawAssertionFailsExactly(ts: seq<Turn>)
    ensures Run(ts).Some? && Run(ts).value.thawed <==> ts != [] && LeftThawed(Run(ts[..|ts| - 1]), ts[|ts| - 1])
  {
    if ts != [] {
      var c := Run(ts[..|ts| - 1]);
      assert Run(ts) == Step(c, ts[|ts| - 1]);
    }
  }

  /** Methods leave identifiers to the core, and the peer echoes the last request's identifier. */
  predicate Echoes(c: Option<Sess>, t: Turn) {
    && t.answer.setId == None
    && (c.Some? && c.value.ids != [] ==> t.p.id == c.value.ids[|c.value.ids| - 1])
  }

  predicate AllEcho(ts: seq<Turn>) {
    forall k :: 0 <= k < |ts| ==> Echoes(Run(ts[..k]), ts[k])
  }

  lemma NextId(a: nat)
    ensures Inc(a % 256) == (a + 1) % 256
  {
  }

  lemma IdsApart(a: nat, i: nat, j: nat)
    requires i < j < i + 256
    ensures (a + i) % 256 != (a + j) % 256
  {
  }

  predicate Consecutive(ids: seq<byte>) {
    forall i :: 0 <= i < |ids| ==> ids[i] == (ids[0] + i) % 256
  }

  lemma ConsecutiveNext(ids: seq<byte>, next: byte)
    requires Consecutive(ids)
    requires ids != [] ==> next == Inc(ids[|ids| - 1])
    ensures Consecutive(ids + [next])
  {
    if ids != [] {
      NextId(ids[0] + |ids| - 1);
    }
  }

  /** A turn sends at most one request, whose identifier follows the last one. */
  lemma StepConsecutive(c: Option<Sess>, t: Turn)
    requires Echoes(c, t) && (c.Some? ==> Consecutive(c.value.ids))
    ensures Step(c, t).Some? ==> Consecutive(Step(c, t).value.ids)
  {
    ConsecutiveNext(if c.Some? then c.value.ids else [], Inc(t.p.id));
  }

  lemma {:induction false} IdsConsecutive(ts: seq<Turn>)
    requires AllEcho(ts)
    ensures Run(ts).Some? ==> Consecutive(Run(ts).value.ids)
  {
    hide Step, Consecutive, Echoes;
    if ts != [] {
      var last := |ts| - 1;
      forall k | 0 <= k < last
        ensures Echoes(Run(ts[..last][..k]), ts[..last][k])
      {
        assert ts[..last][..k] == ts[..k];
      }
      IdsConsecutive(ts[..last]);
      StepConsecutive(Run(ts[..last]), ts[last]);
    }
  }

  /** The identifiers of all requests of a session are pairwise distinct, although they wrap at 256. */
  lemma RequestIdsDistinct(ts: seq<Turn>, i: nat, j: nat)
    requires AllEcho(ts) && Run(ts).Some?
    requires i < j < |Run(ts).value.ids|
    ensures Run(ts).value.ids[i] != Run(ts).value.ids[j]
  {
    hide Run, AllEcho;
    RunBounded(ts);
    IdsConsecutive(ts);
    IdsApart(Run(ts).value.ids[0], i, j);
  }
}
