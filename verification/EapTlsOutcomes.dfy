/**
  What `eap_tls_process` (src/lib/eap/tls.c) answers to every packet, told from the octets of the packet, the
  fields of the session before it and what OpenSSL says: verdict, status, reply and establishment.
 */
module EapTlsOutcomes {
  import opened Bytes
  import opened EapPacket
  import opened EapTls
  import opened EapTlsRuns

  // ----- Packets by their octets -----

  /** One octet with neither of the top two bits. */
  predicate Bare(data: seq<byte>) { |data| == 1 && data[0] < 64 }

  /** A flags octet without the S bit, the length if the L bit says so, and anything but an acknowledgement. */
  predicate Carries(data: seq<byte>) {
    |data| >= 1 && (data[0] >= 128 ==> |data| >= 5) && data[0] % 64 < 32 && !Bare(data)
  }

  function Body(data: seq<byte>): seq<byte>
    requires Carries(data)
  {
    if data[0] >= 128 then data[5..] else data[1..]
  }

  /** The length in the last two octets of the field holds the data and fits the buffer. */
  predicate LengthHolds(data: seq<byte>)
    requires Carries(data)
  {
    data[0] >= 128 ==> |Body(data)| <= U16(data[3], data[4]) <= 16384
  }

  /** The last fragment of the transfer, with exactly what was missing, or a whole record. */
  predicate Completes(s: Tls, data: seq<byte>) {
    && Carries(data) && data[0] % 128 < 64 && LengthHolds(data)
    && if s.inStarted then s.inRecvd + |Body(data)| == s.inTotal
       else data[0] >= 128 ==> |Body(data)| == U16(data[3], data[4])
  }

  /** A fragment with M and L and no transfer under way. */
  predicate Begins(s: Tls, data: seq<byte>) {
    Carries(data) && data[0] >= 192 && LengthHolds(data) && !s.inStarted
  }

  /** A fragment with M that does not exceed what was declared. */
  predicate Continues(s: Tls, data: seq<byte>) {
    && Carries(data) && data[0] % 128 >= 64 && LengthHolds(data)
    && s.inStarted && s.inRecvd + |Body(data)| <= s.inTotal
  }

  lemma SameBody(data: seq<byte>)
    requires Carries(data)
    ensures HasPayload(data) && Payload(data) == Body(data)
    ensures LengthIncluded(data[0]) == (data[0] >= 128) && MoreFragments(data[0]) == (data[0] % 128 >= 64)
    ensures !Start(data[0])
  {
  }

  /** The verdict on every packet that is no acknowledgement. */
  lemma VerdictExactly(s: Tls, prevId: Option<byte>, p: Packet)
    requires WellFormed(p) && !Bare(p.data)
    ensures Verify(s, prevId, p).0 ==
      if Completes(s, p.data) then RecvComplete
      else if Begins(s, p.data) then RecvFirst
      else if Continues(s, p.data) then RecvMore
      else Invalid
  {
    hide U16;
    if Carries(p.data) {
      SameBody(p.data);
      hide LengthIncluded, MoreFragments, Start, Payload;
    }
  }

  // ----- Acknowledgements -----

  /** The message last seen lets the peer acknowledge data: none yet, one of our handshake, or application data. */
  predicate Awaited(info: Info) {
    !info.initialized || info.content == ApplicationData || (info.content == Handshake && info.sent)
  }

  /** An acknowledgement of what was sent last: the next fragment, the end of the handshake, or a refusal. */
  lemma AckOutcome(s: Tls, p: Packet, ssl: Ssl)
    requires s.Ok() && ssl.Ok() && WellFormed(p) && Bare(p.data)
    ensures var o := Process(s, Some(p.id), p, ssl);
      var handshake := s.info.initialized && s.info.content == Handshake;
      if !Awaited(s.info) then
        o.reply == None && o.tls == s.(state := if s.info.content == Alert then Fail else Invalid)
      else if s.finished && s.dirtyOut == [] && (handshake || !s.phase2) then
        && o.reply == None && o.tls.state == Established
        && o.tls.phase2 == (s.phase2 || !handshake)
        && o.tls.info == (if handshake then s.info.(content := ApplicationData) else s.info)
      else
        o.reply == Some(Request(s).1) && o.tls == Request(s).0.(state := Handled)
  {
    hide Verify, Request, NextFragment;
    AckVerdict(s, p);
    StateIndependent(s, RecordSend);
  }

  lemma AckVerdict(s: Tls, p: Packet)
    requires WellFormed(p) && Bare(p.data)
    ensures Verify(s, Some(p.id), p) ==
      (AckStatus(s), if AckStatus(s) == Established then s.(info := s.info.(content := ApplicationData)) else s)
  {
    assert IsAck(p);
    hide AckStatus;
  }

  /** An acknowledgement of anything else is refused and changes nothing. */
  lemma StrayAck(s: Tls, prevId: Option<byte>, p: Packet, ssl: Ssl)
    requires s.Ok() && ssl.Ok() && WellFormed(p) && Bare(p.data) && prevId != Some(p.id)
    ensures Process(s, prevId, p, ssl) == Outcome(s.(state := Invalid), None)
  {
    assert IsAck(p);
  }

  // ----- Fragments and records -----

  /** A fragment that is not the last is kept and acknowledged with the base flags, if it fits. */
  lemma FragmentOutcome(s: Tls, prevId: Option<byte>, p: Packet, ssl: Ssl)
    requires s.Ok() && ssl.Ok() && WellFormed(p) && (Begins(s, p.data) || Continues(s, p.data))
    ensures var o := Process(s, prevId, p, ssl);
      if |s.dirtyIn| + |Body(p.data)| > 16384 then o.tls.state == Fail && o.reply == None
      else o.tls.state == Handled && o.reply == Some([s.baseFlags]) && o.tls.dirtyIn == s.dirtyIn + Body(p.data)
  {
    VerdictExactly(s, prevId, p);
    SameBody(p.data);
    hide Verify, Payload, Body, Carries, U16, LengthHolds;
  }

  /** OpenSSL is handed something and does not take it. */
  predicate NotTaken(s: Tls, data: seq<byte>, ssl: Ssl) { s.dirtyIn + data != [] && !ssl.writes }

  /** A record that completes after the handshake: what decrypting it came to. */
  lemma ApplicationOutcome(s: Tls, prevId: Option<byte>, p: Packet, ssl: Ssl)
    requires s.Ok() && ssl.Ok() && WellFormed(p) && Completes(s, p.data)
    requires |s.dirtyIn| + |Body(p.data)| <= 16384 && (s.phase2 || s.finished)
    ensures var o := Process(s, prevId, p, ssl);
      && o.reply == None && o.tls.phase2
      && o.tls.state == if !s.finished || NotTaken(s, Body(p.data), ssl) || ssl.recv == RecvError then Fail
                        else if ssl.recv == RecvOk then RecvComplete else RecvMore
  {
    VerdictExactly(s, prevId, p);
    SameBody(p.data);
    hide Verify, Payload, Body, Carries, U16, LengthHolds;
  }

  /** What is to be sent after a handshake round. */
  function Pending(s: Tls, ssl: Ssl): seq<byte> { if ssl.out != [] then ssl.out else s.dirtyOut }

  /**
    What a handshake round comes to: a failed one is a FAIL; what OpenSSL wrote is answered with its first fragment;
    with nothing to send, the end of the handshake is ESTABLISHED and anything else a FAIL.
   */
  predicate HandshakeAnswer(o: Outcome, s: Tls, data: seq<byte>, ssl: Ssl)
    requires s.Ok() && ssl.Ok()
  {
    if NotTaken(s, data, ssl) || !ssl.handshakeOk then
      o.tls.state == Fail && o.reply == None && !o.tls.phase2
    else if Pending(s, ssl) != [] then
      var (t, first) := Request(s.(dirtyOut := Pending(s, ssl)));
      o.tls.state == Handled && o.reply == Some(first) && o.tls.dirtyOut == t.dirtyOut && !o.tls.phase2
    else if ssl.finished then
      && o.tls.state == Established && o.reply == None && o.tls.phase2
      && o.tls.info == ssl.info.(content := ApplicationData)
    else
      o.tls.state == Fail && o.reply == None && !o.tls.phase2
  }

  /** A record that completes during the handshake. */
  lemma HandshakeOutcome(s: Tls, prevId: Option<byte>, p: Packet, ssl: Ssl)
    requires s.Ok() && ssl.Ok() && WellFormed(p) && Completes(s, p.data)
    requires |s.dirtyIn| + |Body(p.data)| <= 16384 && !s.phase2 && !s.finished
    ensures HandshakeAnswer(Process(s, prevId, p, ssl), s, Body(p.data), ssl)
  {
    VerdictExactly(s, prevId, p);
    SameBody(p.data);
    hide Verify, Payload, Body, Carries, U16, LengthHolds, Absorb, HandshakeAnswer, Begins, Continues;
    var v := Verify(s, prevId, p).1.(state := RecvComplete);
    HandshakeAbsorbed(v, Body(p.data), ssl);
    SameAnswer(Absorb(v, Body(p.data), ssl), v, s, Body(p.data), ssl);
  }

  /** The receiving side of the session has no part in the answer but for what was buffered. */
  lemma SameAnswer(o: Outcome, v: Tls, s: Tls, data: seq<byte>, ssl: Ssl)
    requires s.Ok() && ssl.Ok() && v.Ok() && HandshakeAnswer(o, v, data, ssl)
    requires v == s.(state := v.state, inStarted := v.inStarted, inTotal := v.inTotal, inRecvd := v.inRecvd,
                     info := v.info)
    ensures HandshakeAnswer(o, s, data, ssl)
  {
    SendsAlike(v.(dirtyOut := Pending(s, ssl)), s.(dirtyOut := Pending(s, ssl)));
    hide Request;
  }

  lemma HandshakeAbsorbed(v: Tls, data: seq<byte>, ssl: Ssl)
    requires v.Ok() && ssl.Ok() && v.state == RecvComplete && |v.dirtyIn| + |data| <= 16384 && !v.phase2 && !v.finished
    ensures HandshakeAnswer(Absorb(v, data, ssl), v, data, ssl)
  {
    var m := HandshakeStep(v.(dirtyIn := v.dirtyIn + data), ssl);
    ResumeAnswer(m, v, data, ssl);
    hide HandshakeResume, HandshakeStep, HandshakeAnswer;
  }

  /** `m` is the session after OpenSSL has seen the record. */
  lemma ResumeAnswer(m: Tls, v: Tls, data: seq<byte>, ssl: Ssl)
    requires m.Ok() && v.Ok() && ssl.Ok() && !v.phase2
    requires m == v.(dirtyIn := m.dirtyIn, dirtyOut := m.dirtyOut, finished := m.finished, info := m.info,
                     delivered := m.delivered)
    requires !NotTaken(v, data, ssl) && ssl.handshakeOk ==>
      m.dirtyOut == Pending(v, ssl) && m.finished == ssl.finished && m.info == ssl.info
    ensures HandshakeAnswer(HandshakeResume(m, ssl.handshakeOk && !NotTaken(v, data, ssl)), v, data, ssl)
  {
    hide Request, NotTaken;
    if !NotTaken(v, data, ssl) && ssl.handshakeOk {
      SendsAlike(m, v.(dirtyOut := Pending(v, ssl)));
    }
  }

  /** What is sent depends on the sending side of the session only. */
  lemma SendsAlike(s: Tls, t: Tls)
    requires s.Ok() && t.Ok() && s.dirtyOut == t.dirtyOut && s.mtu == t.mtu && s.baseFlags == t.baseFlags
    requires s.includeLength == t.includeLength && s.outStarted == t.outStarted && s.outTotal == t.outTotal
    ensures Request(s).1 == Request(t).1 && Request(s).0.dirtyOut == Request(t).0.dirtyOut
  {
  }

  /** A whole record that does not fit is a FAIL, and a packet that is none of these is INVALID. */
  lemma RefusedOutcome(s: Tls, prevId: Option<byte>, p: Packet, ssl: Ssl)
    requires s.Ok() && ssl.Ok() && WellFormed(p) && !Bare(p.data)
    ensures var o := Process(s, prevId, p, ssl);
      && (Completes(s, p.data) && |s.dirtyIn| + |Body(p.data)| > 16384 ==> o.tls.state == Fail && o.reply == None)
      && (!Completes(s, p.data) && !Begins(s, p.data) && !Continues(s, p.data) ==>
            o.tls.state == Invalid && o.reply == None && o.tls.dirtyIn == s.dirtyIn)
  {
    VerdictExactly(s, prevId, p);
    if Completes(s, p.data) {
      SameBody(p.data);
    }
    hide Verify, Payload, Body, Carries, U16, LengthHolds;
  }

  // ----- Establishment -----

  /** An acknowledgement with the id of the last request, the handshake finished and everything sent. */
  predicate EstablishedByAck(s: Tls, prevId: Option<byte>, p: Packet) {
    && Bare(p.data) && prevId == Some(p.id) && s.finished && s.dirtyOut == []
    && if s.info.initialized && s.info.content == Handshake then s.info.sent
       else !s.phase2 && (!s.info.initialized || s.info.content == ApplicationData)
  }

  /** A record that completes and fits, with which OpenSSL finishes the handshake and leaves nothing to send. */
  predicate EstablishedByRecord(s: Tls, p: Packet, ssl: Ssl) {
    && Completes(s, p.data) && |s.dirtyIn| + |Body(p.data)| <= 16384 && !s.phase2 && !s.finished
    && (ssl.writes || s.dirtyIn + Body(p.data) == []) && ssl.handshakeOk && ssl.finished
    && ssl.out == [] && s.dirtyOut == []
  }

  /**
    A packet is answered with ESTABLISHED if and only if it is one of these two; phase 2 is entered, except with an
    acknowledgement of our own handshake, which leaves that to the next packet.
   */
  lemma EstablishedExactly(s: Tls, prevId: Option<byte>, p: Packet, ssl: Ssl)
    requires s.Ok() && ssl.Ok() && WellFormed(p)
    ensures var t := Process(s, prevId, p, ssl).tls;
      && (t.state == Established <==> EstablishedByAck(s, prevId, p) || EstablishedByRecord(s, p, ssl))
      && (t.state == Established ==>
            t.phase2 == (s.phase2 || !(Bare(p.data) && s.info.initialized && s.info.content == Handshake)))
  {
    hide Process, Body, Begins, Continues, Request, LengthHolds, U16;
    if Bare(p.data) {
      if prevId == Some(p.id) {
        AckOutcome(s, p, ssl);
      } else {
        StrayAck(s, prevId, p, ssl);
      }
    } else if Completes(s, p.data) && |s.dirtyIn| + |Body(p.data)| <= 16384 {
      if s.phase2 || s.finished {
        ApplicationOutcome(s, prevId, p, ssl);
      } else {
        HandshakeOutcome(s, prevId, p, ssl);
      }
    } else if Begins(s, p.data) || Continues(s, p.data) {
      FragmentOutcome(s, prevId, p, ssl);
    } else {
      RefusedOutcome(s, prevId, p, ssl);
    }
  }

  // ----- The sending side -----

  /** Application data of an inner method is sent from its first fragment on, once the handshake is finished. */
  lemma PushExactly(s: Tls, out: seq<byte>)
    requires s.Ok() && |out| <= 16384
    ensures Step(s, Push(out)) ==
      if s.finished && |out| > 0 then Request(s.(dirtyOut := out)).0.(state := Handled) else s
  {
  }

  /** The fragment size: the configured one, at least 100 and at most 16384, less ten; or a Framed-MTU below that. */
  lemma MtuExactly(configured: nat, framedMtu: Option<nat>)
    ensures var mtu := SessionMtu(configured, framedMtu);
      var size := if configured <= 100 then 90 else if configured <= 16384 then configured - 10 else 16374;
      mtu == if framedMtu.Some? && 101 <= framedMtu.value <= size then framedMtu.value else size
  {
  }
}
