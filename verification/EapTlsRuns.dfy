/**
  What EAP-TLS record transfer guarantees over whole exchanges and over every run of the session:
  delivery (section 2.1.5 of RFC 5216), fragment sizes and counts, the reassembly invariant and
  safety of establishment.
 */
module EapTlsRuns {
  import opened Bytes
  import opened EapPacket
  import opened EapTls

  // ----- Fragment sizes and counts -----

  function Ceil(a: nat, b: nat): nat
    requires b > 0
  {
    (a + b - 1) / b
  }

  lemma DivUnique(x: nat, b: nat, q: nat, r: nat)
    requires b > 0 && x == q * b + r && r < b
    ensures x / b == q
  {
    var d := q - x / b;
    assert d * b == x % b - r;
    assert d >= 1 ==> d * b >= b;
    assert d <= -1 ==> d * b <= -1 * b;
  }

  lemma CeilStep(a: nat, b: nat)
    requires b > 0 && a > 0
    ensures a <= b ==> Ceil(a, b) == 1
    ensures a > b ==> Ceil(a, b) == 1 + Ceil(a - b, b) && Ceil(a - b, b) >= 1
  {
    if a <= b {
      DivUnique(a + b - 1, b, 1, a - 1);
    } else {
      var x := a - 1;
      assert (x / b + 1) * b == x / b * b + b;
      DivUnique(a + b - 1, b, x / b + 1, x % b);
    }
  }

  /** The number of fragments an `n`-octet record takes. */
  function FragmentCount(n: nat, mtu: nat, includeLength: bool): nat
    requires mtu > LENGTH_FIELD
  {
    if includeLength then Ceil(n, mtu - LENGTH_FIELD)
    else if n <= mtu then 1
    else 1 + Ceil(n - (mtu - LENGTH_FIELD), mtu)
  }

  /** One call of `eap_tls_request` with data to send. */
  lemma OneFragment(s: Tls)
    requires s.Ok() && s.dirtyOut != []
    ensures var (s', d) := Request(s);
      && |d| >= 2 && !Start(d[0])
      && (LengthIncluded(d[0]) ==>
            |d| > 5 && U16(d[3], d[4]) == (if s.outStarted then s.outTotal else |s.dirtyOut|) % 65536)
      && Payload(d) != [] && Payload(d) + s'.dirtyOut == s.dirtyOut
      && (MoreFragments(d[0]) <==> s'.dirtyOut != [])
      && (MoreFragments(d[0]) ==>
            && s'.outStarted && |d| == s.mtu + 1 && s'.outTotal == (if s.outStarted then s.outTotal else |s.dirtyOut|)
            && |Payload(d)| == if s.includeLength || !s.outStarted then s.mtu - LENGTH_FIELD else s.mtu)
      && (MoreFragments(d[0]) <==> |s.dirtyOut| > if s.includeLength then s.mtu - LENGTH_FIELD else s.mtu)
      && |d| <= |s.dirtyOut| + 5
      && |d| <= s.mtu + 1
      && (!s.outStarted && MoreFragments(d[0]) ==> LengthIncluded(d[0]))
  {
    RequestParts(s);
    hide LengthIncluded, MoreFragments, Start, U16;
  }

  /** The parts of a request: flags as `NextFragment` decides, the total if announced, and the fragment. */
  lemma RequestParts(s: Tls)
    requires s.Ok()
    ensures var (len, more, l) := NextFragment(s);
      var total := if s.outStarted then s.outTotal else |s.dirtyOut|;
      var d := Request(s).1;
      && |d| == 1 + (if l then 4 else 0) + len
      && LengthIncluded(d[0]) == l && MoreFragments(d[0]) == more && !Start(d[0])
      && (l ==> U16(d[3], d[4]) == total % 65536)
      && Payload(d) == s.dirtyOut[..len]
  {
    hide LengthIncluded, MoreFragments, Start, U16, NextFragment;
    BaseClear(s.baseFlags);
    var (len, more, l) := NextFragment(s);
    var total := if s.outStarted then s.outTotal else |s.dirtyOut|;
    var f0 := if more then SetMoreFragments(s.baseFlags) else s.baseFlags;
    var flags := if l then SetLengthIncluded(f0) else f0;
    var head := if l then Net32(total) else [];
    hide Net32, SetMoreFragments, SetLengthIncluded;
    var d := [flags] + head + s.dirtyOut[..len];
    assert d[1..] == head + s.dirtyOut[..len];
    if l {
      assert d[3] == head[2] && d[4] == head[3] && d[5..] == s.dirtyOut[..len];
    }
  }

  lemma BaseClear(flags: byte)
    requires BaseFlags(flags)
    ensures !LengthIncluded(flags) && !MoreFragments(flags) && !Start(flags)
  {
  }

  /** The fragment size a session uses: the configured one within bounds, less the headers, or Framed-MTU. */
  function Bounded(configured: nat): nat {
    if configured < 100 then 100 else if configured > MAX_RECORD then MAX_RECORD else configured
  }

  function SessionMtu(configured: nat, framedMtu: Option<nat>): (mtu: nat) {
    var size := Bounded(configured) - 10;
    if framedMtu.Some? && 100 < framedMtu.value < size then framedMtu.value else size
  }

  /** No EAP packet exceeds the fragment size; one that is not the last is six octets over the MTU. */
  lemma PacketsFit(s: Tls, configured: nat, framedMtu: Option<nat>, id: byte, num: byte)
    requires s.Ok() && s.dirtyOut != [] && s.mtu == SessionMtu(configured, framedMtu)
    ensures var d := Request(s).1;
      var n := |Wire(Fragment(id, num, d))|;
      && n <= Bounded(configured) && n <= s.mtu + 6
      && (MoreFragments(d[0]) ==> n == s.mtu + 6)
  {
    OneFragment(s);
  }

  // ----- Delivery of one record from one end to the other -----

  /** What a whole transfer did: the statuses at the receiving end, and both ends afterwards. */
  datatype Talk = Talk(statuses: seq<Status>, snd: Tls, rcv: Tls)

  /** What one end gets when the other sends a packet. */
  type Channel = Packet -> Option<Packet>

  function Fragment(id: byte, num: byte, data: seq<byte>): Packet {
    Packet(REQUEST, id, EAP_HEADER_LEN + 1 + |data|, num, data)
  }

  /** Everything that fits in an EAP packet arrives as it was sent. */
  ghost predicate Faithful(ch: Channel, num: byte) {
    forall p: Packet :: Sendable(p) && p.num == num ==> ch(p) == Some(p)
  }

  /**
    Two ends running `eap_tls_process`: `frag` goes from `snd` to `rcv`, `rcv` acknowledges it, and the
    acknowledgement makes `snd` send the next one, until `rcv` stops acknowledging.
   */
  function Converse(snd: Tls, frag: seq<byte>, rcv: Tls, id: byte, num: byte, ch: Channel, ssl: Ssl): Talk
    requires snd.Ok() && rcv.Ok() && ssl.Ok()
    decreases |snd.dirtyOut|
  {
    var p := ch(Fragment(id, num, frag));
    if p == None || !WellFormed(p.value) then Talk([], snd, rcv)
    else
      var st := Verify(rcv, None, p.value).0;
      var o := Process(rcv, None, p.value, ssl);
      var ack := if o.reply.Some? then ch(Fragment(id, num, o.reply.value)) else None;
      if !(st.RecvFirst? || st.RecvMore?) || ack == None || !WellFormed(ack.value) then Talk([st], snd, o.tls)
      else
        var back := Process(snd, Some(id), ack.value, ssl);
        if back.reply == None || |back.tls.dirtyOut| >= |snd.dirtyOut| then Talk([st], back.tls, o.tls)
        else
          var rest := Converse(back.tls, back.reply.value, o.tls, Inc(id), num, ch, ssl);
          rest.(statuses := [st] + rest.statuses)
  }

  /** FIRST, MORE*, COMPLETE, or COMPLETE alone. */
  function Expected(count: nat, first: bool): seq<Status>
    decreases count
  {
    if count <= 1 then [RecvComplete]
    else [if first then RecvFirst else RecvMore] + Expected(count - 1, false)
  }

  /** An acknowledgement makes the session send more, as long as there is more to send. */
  predicate SendsOnAck(info: Info) {
    !info.initialized || (info.content == Handshake && info.sent) || info.content == ApplicationData
  }

  /** The last reported status has no part in what is sent next. */
  lemma StateIndependent(s: Tls, st: Status)
    requires s.Ok()
    ensures Request(s.(state := st)) == (Request(s).0.(state := st), Request(s).1)
  {
  }

  /** The sending end answers an acknowledgement of what it just sent with its next fragment. */
  lemma AckSendsNext(s: Tls, p: Packet, ssl: Ssl)
    requires s.Ok() && ssl.Ok() && s.dirtyOut != []
    requires IsAck(p)
    ensures var o := Process(s, Some(p.id), p, ssl);
      o.reply == Some(Request(s).1) && o.tls == Request(s).0.(state := Handled) <==> SendsOnAck(s.info)
  {
    var s1 := s.(state := RecordSend);
    assert Verify(s, Some(p.id), p) == (AckStatus(s), s);
    StateIndependent(s, RecordSend);
  }

  /** The receiving end of a transfer of `total` octets that has received `got` so far. */
  predicate Receiving(r: Tls, got: seq<byte>, total: nat) {
    r.inStarted && r.dirtyIn == got && r.inRecvd == |got| && r.inTotal == total && (r.phase2 ==> r.finished)
  }

  /** What OpenSSL has of a record that is handed over. */
  function Handed(ssl: Ssl, record: seq<byte>): seq<seq<byte>> {
    if record == [] || !ssl.writes then [] else [record]
  }

  /** A complete record is handed over whole, whatever OpenSSL makes of it. */
  lemma AbsorbDelivers(r: Tls, data: seq<byte>, ssl: Ssl)
    requires r.Ok() && ssl.Ok() && (r.phase2 ==> r.finished)
    requires r.state == RecvComplete && |r.dirtyIn + data| <= MAX_RECORD
    ensures Absorb(r, data, ssl).tls.delivered == r.delivered + Handed(ssl, r.dirtyIn + data)
  {
    hide Request, NextFragment;
    var s' := r.(dirtyIn := r.dirtyIn + data);
    assert Deliver(s', ssl).delivered == r.delivered + Handed(ssl, s'.dirtyIn);
    ResumeDelivers(HandshakeStep(s', ssl), ssl.handshakeOk && !Refused(s', ssl));
    hide HandshakeResume;
  }

  /** Resuming after a handshake round hands nothing more to OpenSSL. */
  lemma ResumeDelivers(s: Tls, ok: bool)
    requires s.Ok()
    ensures HandshakeResume(s, ok).tls.delivered == s.delivered
  {
    hide Request;
  }

  /** The receiving end takes a fragment that is not the last, and acknowledges it. */
  lemma TakesFragment(r: Tls, p: Packet, got: seq<byte>, total: nat, ssl: Ssl)
    requires r.Ok() && ssl.Ok() && WellFormed(p) && (r.phase2 ==> r.finished)
    requires |p.data| >= 2 && !Start(p.data[0]) && MoreFragments(p.data[0])
    requires LengthIncluded(p.data[0]) ==> |p.data| >= 5 && U16(p.data[3], p.data[4]) == total
    requires |got| + |Payload(p.data)| <= total <= MAX_RECORD
    requires if r.inStarted then Receiving(r, got, total) else Clean(r) && got == [] && LengthIncluded(p.data[0])
    ensures Verify(r, None, p).0 == if r.inStarted then RecvMore else RecvFirst
    ensures var o := Process(r, None, p, ssl);
      && o.reply == Some([r.baseFlags]) && o.tls.delivered == r.delivered
      && Receiving(o.tls, got + Payload(p.data), total)
  {
  }

  /** The receiving end takes the last fragment, or an unfragmented record, and delivers the record. */
  lemma TakesLast(r: Tls, p: Packet, got: seq<byte>, total: nat, ssl: Ssl)
    requires r.Ok() && ssl.Ok() && WellFormed(p) && (r.phase2 ==> r.finished)
    requires |p.data| >= 2 && !Start(p.data[0]) && !MoreFragments(p.data[0])
    requires LengthIncluded(p.data[0]) ==> |p.data| >= 5 && U16(p.data[3], p.data[4]) == total
    requires |got| + |Payload(p.data)| == total <= MAX_RECORD && Payload(p.data) != []
    requires if r.inStarted then Receiving(r, got, total) else Clean(r) && got == []
    ensures Verify(r, None, p).0 == RecvComplete
    ensures Process(r, None, p, ssl).tls.delivered == r.delivered + Handed(ssl, got + Payload(p.data))
  {
    var (st, v) := Verify(r, None, p);
    AbsorbDelivers(v.(state := st), Payload(p.data), ssl);
  }

  /** A fragment that is not the last: one acknowledged step, then the rest of the exchange. */
  lemma ConverseStep(snd: Tls, rcv: Tls, got: seq<byte>, total: nat, id: byte, num: byte,
                     ch: Channel, ssl: Ssl)
    returns (rcv': Tls)
    requires snd.Ok() && rcv.Ok() && ssl.Ok() && Faithful(ch, num) && SendsOnAck(snd.info)
    requires snd.dirtyOut != [] && |got| + |snd.dirtyOut| == total <= MAX_RECORD
    requires MoreFragments(Request(snd).1[0]) && (rcv.phase2 ==> rcv.finished)
    requires if rcv.inStarted then Receiving(rcv, got, total) && snd.outStarted && snd.outTotal == total
             else Clean(rcv) && got == [] && !snd.outStarted
    ensures rcv'.Ok() && Receiving(rcv', got + Payload(Request(snd).1), total) && rcv'.delivered == rcv.delivered
    ensures var (s1, frag) := Request(snd);
      var s2 := s1.(state := Handled);
      var t := Converse(s1, frag, rcv, id, num, ch, ssl);
      var rest := Converse(Request(s2).0, Request(s2).1, rcv', Inc(id), num, ch, ssl);
      t == rest.(statuses := [if rcv.inStarted then RecvMore else RecvFirst] + rest.statuses)
  {
    hide Process, Verify, Request, Payload, U16;
    var (s1, frag) := Request(snd);
    OneFragment(snd);
    var p := Fragment(id, num, frag);
    TakesFragment(rcv, p, got, total, ssl);
    rcv' := Process(rcv, None, p, ssl).tls;
    AckSendsNext(s1, Fragment(id, num, [rcv.baseFlags]), ssl);
    OneFragment(s1);
    StateIndependent(s1, Handled);
  }

  /** The last fragment ends the exchange. */
  lemma ConverseLast(snd: Tls, rcv: Tls, got: seq<byte>, id: byte, num: byte,
                     ch: Channel, ssl: Ssl)
    requires snd.Ok() && rcv.Ok() && ssl.Ok() && Faithful(ch, num)
    requires snd.dirtyOut != [] && |got| + |snd.dirtyOut| <= MAX_RECORD
    requires !MoreFragments(Request(snd).1[0]) && (rcv.phase2 ==> rcv.finished)
    requires if rcv.inStarted
             then Receiving(rcv, got, |got| + |snd.dirtyOut|) && snd.outStarted
                  && snd.outTotal == |got| + |snd.dirtyOut|
             else Clean(rcv) && got == [] && !snd.outStarted
    ensures var (s1, frag) := Request(snd);
      var t := Converse(s1, frag, rcv, id, num, ch, ssl);
      t.statuses == [RecvComplete] && t.snd.dirtyOut == []
      && t.rcv.delivered == rcv.delivered + Handed(ssl, got + snd.dirtyOut)
  {
    hide Process, Verify, Request, Payload, U16;
    var (s1, frag) := Request(snd);
    OneFragment(snd);
    assert Payload(frag) == snd.dirtyOut;
    TakesLast(rcv, Fragment(id, num, frag), got, |got| + |snd.dirtyOut|, ssl);
  }

  /** Every later fragment is taken as MORE or, when nothing remains, as COMPLETE. */
  lemma {:induction false} ConverseRest(snd: Tls, rcv: Tls, got: seq<byte>, id: byte, num: byte,
                                        ch: Channel, ssl: Ssl)
    requires snd.Ok() && rcv.Ok() && ssl.Ok() && Faithful(ch, num)
    requires snd.dirtyOut != [] && snd.outStarted && snd.outTotal == |got| + |snd.dirtyOut| <= MAX_RECORD
    requires SendsOnAck(snd.info) && Receiving(rcv, got, snd.outTotal)
    ensures var (s1, frag) := Request(snd);
      var t := Converse(s1, frag, rcv, id, num, ch, ssl);
      && t.statuses ==
         Expected(Ceil(|snd.dirtyOut|, if snd.includeLength then snd.mtu - LENGTH_FIELD else snd.mtu), false)
      && t.rcv.delivered == rcv.delivered + Handed(ssl, got + snd.dirtyOut)
      && t.snd.dirtyOut == []
    decreases |snd.dirtyOut|
  {
    hide Process, Verify, Request, Payload, Converse, Ceil, MoreFragments, LengthIncluded, Start, U16, SendsOnAck;
    var (s1, frag) := Request(snd);
    OneFragment(snd);
    CeilStep(|snd.dirtyOut|, if snd.includeLength then snd.mtu - LENGTH_FIELD else snd.mtu);
    if MoreFragments(frag[0]) {
      var rcv' := ConverseStep(snd, rcv, got, snd.outTotal, id, num, ch, ssl);
      ConverseRest(s1.(state := Handled), rcv', got + Payload(frag), Inc(id), num, ch, ssl);
      assert got + Payload(frag) + s1.dirtyOut == got + snd.dirtyOut;
    } else {
      ConverseLast(snd, rcv, got, id, num, ch, ssl);
    }
  }

  /**
    A record is delivered: for every MTU, either length setting, every way of carrying the packets in
    EAP-Message attributes and every answer of OpenSSL, the statuses are FIRST, MORE*, COMPLETE (or
    COMPLETE alone), as many as the fragment count, and OpenSSL is handed exactly the record; it has the
    record if it takes it.
   */
  lemma RecordDelivered(snd: Tls, rcv: Tls, id: byte, num: byte, ch: Channel, ssl: Ssl)
    requires snd.Ok() && rcv.Ok() && ssl.Ok() && Faithful(ch, num)
    requires snd.dirtyOut != [] && !snd.outStarted && SendsOnAck(snd.info)
    requires Clean(rcv) && (rcv.phase2 ==> rcv.finished)
    ensures var (s1, frag) := Request(snd);
      var t := Converse(s1, frag, rcv, id, num, ch, ssl);
      && |snd.dirtyOut| > 0
      && t.statuses == Expected(FragmentCount(|snd.dirtyOut|, snd.mtu, snd.includeLength), true)
      && t.rcv.delivered == rcv.delivered + (if ssl.writes then [snd.dirtyOut] else [])
      && t.snd.dirtyOut == []
  {
    hide Process, Verify, Request, Payload, Converse, Ceil, MoreFragments, LengthIncluded, Start, U16, SendsOnAck;
    var (s1, frag) := Request(snd);
    OneFragment(snd);
    CeilStep(|snd.dirtyOut|, snd.mtu - LENGTH_FIELD);
    if MoreFragments(frag[0]) {
      var rcv' := ConverseStep(snd, rcv, [], |snd.dirtyOut|, id, num, ch, ssl);
      CeilStep(|s1.dirtyOut|, snd.mtu);
      assert [] + Payload(frag) == Payload(frag);
      ConverseRest(s1.(state := Handled), rcv', Payload(frag), Inc(id), num, ch, ssl);
    } else {
      ConverseLast(snd, rcv, [], id, num, ch, ssl);
      assert [] + snd.dirtyOut == snd.dirtyOut;
    }
  }

  /** The channel made of EAP-Message attributes: wire format, some split into attributes, reassembly, parse. */
  function Attributes(carry: Packet -> seq<seq<byte>>): Channel {
    p => Received(carry(p))
  }

  /** Every way of splitting packets into EAP-Message attributes is a faithful channel. */
  lemma AttributesFaithful(carry: Packet -> seq<seq<byte>>, num: byte)
    requires forall p: Packet :: Sendable(p) ==> IsSplit(Wire(p), carry(p))
    requires KnownType(num) && num != NOTIFICATION
    ensures Faithful(Attributes(carry), num)
  {
    forall p: Packet | Sendable(p) && p.num == num
      ensures Attributes(carry)(p) == Some(p)
    {
      FourStageRoundTrip(p, carry(p));
    }
  }

  /** Delivery over EAP-Message attributes as `eap_packet_to_vp` splits and `eap_packet_from_vp` joins them. */
  lemma DeliveredInAttributes(snd: Tls, rcv: Tls, id: byte, num: byte, ssl: Ssl)
    requires snd.Ok() && rcv.Ok() && ssl.Ok() && KnownType(num) && num != NOTIFICATION
    requires snd.dirtyOut != [] && !snd.outStarted && SendsOnAck(snd.info)
    requires Clean(rcv) && (rcv.phase2 ==> rcv.finished)
    ensures var (s1, frag) := Request(snd);
      var t := Converse(s1, frag, rcv, id, num, Attributes(p => Split(Wire(p))), ssl);
      && t.statuses == Expected(FragmentCount(|snd.dirtyOut|, snd.mtu, snd.includeLength), true)
      && t.rcv.delivered == rcv.delivered + (if ssl.writes then [snd.dirtyOut] else [])
      && t.snd.dirtyOut == []
  {
    hide Converse, Request, FragmentCount, SendsOnAck, Attributes;
    var carry: Packet -> seq<seq<byte>> := p => Split(Wire(p));
    forall p: Packet | Sendable(p)
      ensures IsSplit(Wire(p), carry(p))
    {
      SplitExists(Wire(p));
    }
    AttributesFaithful(carry, num);
    RecordDelivered(snd, rcv, id, num, Attributes(carry), ssl);
  }

  // ----- Every run of one session -----

  /** A packet from the peer with OpenSSL's answer, or application data queued by an inner method. */
  datatype Event = Recv(prevId: Option<byte>, packet: Packet, ssl: Ssl) | Push(out: seq<byte>)
  {
    predicate Ok() {
      match this
      case Recv(_, p, ssl) => WellFormed(p) && ssl.Ok()
      case Push(out) => |out| <= MAX_RECORD
    }
  }

  function Step(s: Tls, e: Event): (s': Tls)
    requires s.Ok() && e.Ok()
    ensures s'.Ok()
  {
    match e
    case Recv(prevId, p, ssl) => Process(s, prevId, p, ssl).tls
    case Push(out) => if s.finished && out != [] then Sent(s.(dirtyOut := out)).tls else s
  }

  predicate AllOk(es: seq<Event>) {
    forall e :: e in es ==> e.Ok()
  }

  function Run(s: Tls, es: seq<Event>): (s': Tls)
    requires s.Ok() && AllOk(es)
    ensures s'.Ok()
  {
    if es == [] then s else Step(Run(s, es[..|es| - 1]), es[|es| - 1])
  }

  /** A transfer in progress holds what it has received, within the declared length; otherwise nothing is held. */
  predicate Transfer(s: Tls) {
    if s.inStarted then |s.dirtyIn| == s.inRecvd <= s.inTotal <= MAX_RECORD else s.dirtyIn == []
  }

  /** Phase 2 is entered only after the handshake, and success is reported only with nothing left to send. */
  predicate Safe(s: Tls) {
    && (s.phase2 ==> s.finished)
    && (s.state == Established ==> s.finished && s.dirtyOut == [])
  }

  /** `r` follows `s` safely, with the receiving side of the transfer as it was and `dirtyIn` held. */
  predicate Follows(s: Tls, r: Tls, dirtyIn: seq<byte>) {
    && Safe(r) && (s.phase2 ==> r.phase2) && (s.finished ==> r.finished) && s.delivered <= r.delivered
    && r.inStarted == s.inStarted && r.inTotal == s.inTotal && r.inRecvd == s.inRecvd
    && r.dirtyIn == dirtyIn
  }

  lemma HandshakeFollows(s: Tls, ssl: Ssl)
    requires s.Ok() && ssl.Ok() && (s.phase2 ==> s.finished)
    ensures Follows(s, HandshakeResume(HandshakeStep(s, ssl), ssl.handshakeOk && !Refused(s, ssl)).tls, [])
  {
    hide Request, HandshakeResume;
    var m := HandshakeStep(s, ssl);
    assert m.dirtyIn == [] && s.delivered <= m.delivered;
    ResumeFollows(m, ssl.handshakeOk && !Refused(s, ssl));
  }

  lemma ResumeFollows(m: Tls, ok: bool)
    requires m.Ok() && (m.phase2 ==> m.finished)
    ensures Follows(m, HandshakeResume(m, ok).tls, m.dirtyIn)
  {
    hide Request;
    assert Sent(m).tls.state == Handled;
  }

  /** What buffering a fragment, and processing a complete record, can change. */
  lemma AbsorbFollows(s: Tls, data: seq<byte>, ssl: Ssl)
    requires s.Ok() && ssl.Ok() && (s.phase2 ==> s.finished)
    ensures var r := Absorb(s, data, ssl).tls;
      if |s.dirtyIn| + |data| > MAX_RECORD then r.state == Fail && Follows(s, r, r.dirtyIn)
      else Follows(s, r, if s.state == RecvComplete then [] else s.dirtyIn + data)
  {
    hide HandshakeStep, HandshakeResume;
    var s' := s.(dirtyIn := s.dirtyIn + data);
    if |s.dirtyIn| + |data| <= MAX_RECORD {
      HandshakeFollows(s', ssl);
    }
  }

  lemma StepSafe(s: Tls, e: Event)
    requires s.Ok() && e.Ok() && Safe(s)
    ensures Safe(Step(s, e))
    ensures s.phase2 ==> Step(s, e).phase2
    ensures s.finished ==> Step(s, e).finished
    ensures s.delivered <= Step(s, e).delivered
  {
    hide Request, Payload, Absorb, Verify;
    if e.Recv? {
      var (st, v) := Verify(s, e.prevId, e.packet);
      if st.RecvFirst? || st.RecvMore? || st.RecvComplete? {
        AbsorbFollows(v.(state := st), Payload(e.packet.data), e.ssl);
      }
    }
  }

  /** What a fragment of `fragLen` octets, `total` being declared if `l`, adds to the transfer `s` to make it `v`. */
  predicate Kept(s: Tls, st: Status, v: Tls, l: bool, total: nat, fragLen: nat) {
    match st
    case RecvFirst => s.dirtyIn == [] && v.inStarted && fragLen == v.inRecvd <= v.inTotal <= MAX_RECORD
    case RecvMore => v.inStarted && |s.dirtyIn| + fragLen == v.inRecvd <= v.inTotal <= MAX_RECORD
    case RecvComplete =>
      && !v.inStarted
      && (s.inStarted ==> |s.dirtyIn| + fragLen == s.inTotal)
      && (!s.inStarted && l ==> fragLen == total)
    case _ => true
  }

  lemma TransferredKeeps(s: Tls, l: bool, m: bool, total: nat, fragLen: nat)
    requires Transfer(s)
    ensures var (st, v) := Transferred(s, l, m, total, fragLen); Kept(s, st, v, l, total, fragLen)
  {
  }

  /** The total that the fields of a packet declare, as far as they are read. */
  function ReadTotal(data: seq<byte>): nat
    requires HasPayload(data)
  {
    if LengthIncluded(data[0]) then U16(data[3], data[4]) else 0
  }

  /** What a verified packet adds to the transfer in progress; a packet that adds nothing leaves it. */
  lemma VerifyKeepsTransfer(s: Tls, prevId: Option<byte>, p: Packet)
    requires s.Ok() && WellFormed(p) && Transfer(s)
    ensures var (st, v) := Verify(s, prevId, p);
      if st.RecvFirst? || st.RecvMore? || st.RecvComplete?
      then Kept(s, st, v, LengthIncluded(p.data[0]), ReadTotal(p.data), |Payload(p.data)|)
      else st.Invalid? || Transfer(v)
  {
    hide U16, LengthIncluded, MoreFragments, Start, Transferred, Kept;
    if HasPayload(p.data) {
      var l := LengthIncluded(p.data[0]);
      TransferredKeeps(s, l, MoreFragments(p.data[0]), ReadTotal(p.data), |Payload(p.data)|);
    }
  }

  /** The verdict of `eap_tls_verify` on a packet in this state. */
  function StatusOf(s: Tls, e: Event): Status
    requires s.Ok() && e.Ok() && e.Recv?
  {
    Verify(s, e.prevId, e.packet).0
  }

  /** A record that arrives whole, without a declared length, and does not fit the buffer. */
  predicate Oversize(s: Tls, e: Event)
    requires s.Ok() && e.Ok()
  {
    e.Recv? && StatusOf(s, e) == RecvComplete && |s.dirtyIn| + |Payload(e.packet.data)| > MAX_RECORD
  }

  /** Whatever else fails, a packet that is not INVALID keeps the reassembly invariant, unless it is oversize. */
  lemma StepKeepsTransfer(s: Tls, e: Event)
    requires s.Ok() && e.Ok() && Safe(s) && Transfer(s)
    requires e.Recv? ==> StatusOf(s, e) != Invalid
    ensures Transfer(Step(s, e)) <==> !Oversize(s, e)
  {
    hide Request, Absorb, Verify, Payload;
    if e.Recv? {
      VerifyKeepsTransfer(s, e.prevId, e.packet);
      var (st, v) := Verify(s, e.prevId, e.packet);
      if st.RecvFirst? || st.RecvMore? || st.RecvComplete? {
        AbsorbFollows(v.(state := st), Payload(e.packet.data), e.ssl);
        if Oversize(s, e) {
          OversizeFills(v.(state := st), Payload(e.packet.data), e.ssl);
        }
      }
    }
  }

  lemma OversizeFills(s: Tls, data: seq<byte>, ssl: Ssl)
    requires s.Ok() && ssl.Ok() && |s.dirtyIn| + |data| > MAX_RECORD
    ensures |Absorb(s, data, ssl).tls.dirtyIn| == MAX_RECORD
  {
  }

  /**
    Establishment safety over every run, whatever the peer sends and whatever went wrong before: phase 2
    means the handshake has finished, neither ever reverts, and success is only ever reported with the
    handshake finished and nothing left to send.
   */
  lemma {:induction false} RunSafe(s: Tls, es: seq<Event>)
    requires s.Ok() && AllOk(es) && Safe(s)
    ensures Safe(Run(s, es))
    ensures s.phase2 ==> Run(s, es).phase2
    ensures s.finished ==> Run(s, es).finished
    ensures s.delivered <= Run(s, es).delivered
  {
    hide Step;
    if es != [] {
      var last := |es| - 1;
      RunSafe(s, es[..last]);
      StepSafe(Run(s, es[..last]), es[last]);
    }
  }

  /** No packet so far was INVALID. */
  predicate NoInvalid(s: Tls, es: seq<Event>)
    requires s.Ok() && AllOk(es)
  {
    forall k :: 0 <= k < |es| && es[k].Recv? ==> StatusOf(Run(s, es[..k]), es[k]) != Invalid
  }

  predicate NeverOversize(s: Tls, es: seq<Event>)
    requires s.Ok() && AllOk(es)
  {
    forall k :: 0 <= k < |es| ==> !Oversize(Run(s, es[..k]), es[k])
  }

  predicate AlwaysTransfer(s: Tls, es: seq<Event>)
    requires s.Ok() && AllOk(es)
  {
    forall k :: 0 <= k <= |es| ==> Transfer(Run(s, es[..k]))
  }

  lemma RunStep(s: Tls, es: seq<Event>, k: nat)
    requires s.Ok() && AllOk(es) && k < |es|
    ensures Run(s, es[..k + 1]) == Step(Run(s, es[..k]), es[k])
  {
    assert es[..k + 1][..k] == es[..k];
  }

  /** Up to the first oversize record the invariant holds; that record breaks it. */
  lemma TransferNext(s: Tls, es: seq<Event>, k: nat)
    requires s.Ok() && AllOk(es) && Safe(s) && NoInvalid(s, es) && k < |es| && Transfer(Run(s, es[..k]))
    ensures Transfer(Run(s, es[..k + 1])) <==> !Oversize(Run(s, es[..k]), es[k])
  {
    hide Step, Run, Transfer, Safe, Oversize;
    RunStep(s, es, k);
    RunSafe(s, es[..k]);
    StepKeepsTransfer(Run(s, es[..k]), es[k]);
  }

  lemma {:induction false} TransferUpTo(s: Tls, es: seq<Event>, k: nat)
    requires s.Ok() && AllOk(es) && Safe(s) && Transfer(s) && NoInvalid(s, es) && NeverOversize(s, es) && k <= |es|
    ensures Transfer(Run(s, es[..k]))
    decreases k
  {
    hide Step, Transfer, Safe, Oversize, NoInvalid;
    if k > 0 {
      TransferUpTo(s, es, k - 1);
      TransferNext(s, es, k - 1);
    }
  }

  /**
    The reassembly invariant holds all along every run without an INVALID packet, whatever failed otherwise, if
    and only if no record that arrived whole was larger than the buffer.
   */
  lemma RunKeepsTransfer(s: Tls, es: seq<Event>)
    requires s.Ok() && AllOk(es) && Safe(s) && Transfer(s) && NoInvalid(s, es)
    ensures AlwaysTransfer(s, es) <==> NeverOversize(s, es)
  {
    hide Step, Run, Transfer, Safe, Oversize, NoInvalid;
    if NeverOversize(s, es) {
      forall k | 0 <= k <= |es|
        ensures Transfer(Run(s, es[..k]))
      {
        TransferUpTo(s, es, k);
      }
    }
    if AlwaysTransfer(s, es) {
      forall k | 0 <= k < |es|
        ensures !Oversize(Run(s, es[..k]), es[k])
      {
        TransferNext(s, es, k);
      }
    }
  }

  /** A packet from the peer with this type data. */
  function Packed(data: seq<byte>, ssl: Ssl): (e: Event)
    requires ssl.Ok()
    ensures e.Ok()
  {
    Recv(None, Packet(RESPONSE, 0, EAP_HEADER_LEN + 1 + |data|, 13, data), ssl)
  }

  lemma RunTwo(s: Tls, e: Event, f: Event)
    requires s.Ok() && e.Ok() && f.Ok()
    ensures AllOk([e, f]) && Run(s, [e, f]) == Step(Step(s, e), f)
  {
    assert [e, f][..1] == [e] && [e][..0] == [];
    assert Run(s, [e]) == Step(Run(s, []), e);
  }

  /**
    A run that breaks it, without an INVALID packet: a whole record that is too large fills the buffer, and an
    empty first fragment then starts a transfer on top of what is left.
   */
  lemma OversizeThenFirst(s: Tls, record: seq<byte>, ssl: Ssl)
    requires s.Ok() && ssl.Ok() && Safe(s) && Clean(s) && |record| > MAX_RECORD
    ensures var whole, first := Packed([0] + record, ssl), Packed([192, 0, 0, 0, 0], ssl);
      && StatusOf(s, whole) == RecvComplete && Oversize(s, whole) && Step(s, whole).state == Fail
      && StatusOf(Step(s, whole), first) == RecvFirst && Step(Step(s, whole), first).state == Handled
      && AllOk([whole, first]) && !Transfer(Run(s, [whole, first]))
  {
    hide Step, Run, StatusOf, Payload;
    OversizeAlone(s, record, ssl);
    EmptyFirst(Step(s, Packed([0] + record, ssl)), ssl);
    RunTwo(s, Packed([0] + record, ssl), Packed([192, 0, 0, 0, 0], ssl));
  }

  lemma OversizeAlone(s: Tls, record: seq<byte>, ssl: Ssl)
    requires s.Ok() && ssl.Ok() && Clean(s) && |record| > MAX_RECORD
    ensures var whole := Packed([0] + record, ssl);
      && StatusOf(s, whole) == RecvComplete && Oversize(s, whole)
      && Step(s, whole) == s.(state := Fail, dirtyIn := record[..MAX_RECORD])
  {
    var d := [0] + record;
    assert d[0] == 0 && Payload(d) == record;
  }

  lemma EmptyFirst(t: Tls, ssl: Ssl)
    requires t.Ok() && ssl.Ok() && !t.inStarted
    ensures var first := Packed([192, 0, 0, 0, 0], ssl);
      && StatusOf(t, first) == RecvFirst && Step(t, first).dirtyIn == t.dirtyIn
      && Step(t, first).inStarted && Step(t, first).inRecvd == 0 && Step(t, first).state == Handled
  {
    var d: seq<byte> := [192, 0, 0, 0, 0];
    assert Payload(d) == [];
  }

  /** `es` are the fragments of one record, as some peer sent them: FIRST, then MORE any number of times. */
  predicate Fragments(s: Tls, es: seq<Event>)
    requires s.Ok() && AllOk(es)
  {
    && es != []
    && forall k :: 0 <= k < |es| ==>
         es[k].Recv? && StatusOf(Run(s, es[..k]), es[k]) == if k == 0 then RecvFirst else RecvMore
  }

  /** The TLS data of a sequence of packets, in order. */
  function Payloads(es: seq<Event>): seq<byte>
    requires forall e :: e in es ==> e.Recv? && HasPayload(e.packet.data)
  {
    if es == [] then [] else Payloads(es[..|es| - 1]) + Payload(es[|es| - 1].packet.data)
  }

  /** One more fragment of a transfer in progress, or its first. */
  lemma FragmentStep(s: Tls, e: Event)
    requires s.Ok() && e.Ok() && Safe(s) && Transfer(s) && e.Recv?
    requires StatusOf(s, e) == if s.inStarted then RecvMore else RecvFirst
    ensures HasPayload(e.packet.data)
    ensures var t := Step(s, e);
      && Safe(t) && Transfer(t) && t.inStarted && t.delivered == s.delivered
      && t.dirtyIn == s.dirtyIn + Payload(e.packet.data)
      && if s.inStarted then t.inTotal == s.inTotal
         else LengthIncluded(e.packet.data[0]) && t.inTotal == U16(e.packet.data[3], e.packet.data[4])
  {
    StepSafe(s, e);
    VerifyKeepsTransfer(s, e.prevId, e.packet);
  }

  /** The fragments before the last, and the verdict on the last. */
  lemma FragmentsButLast(s: Tls, es: seq<Event>)
    requires s.Ok() && AllOk(es) && Fragments(s, es)
    ensures es != []
    ensures var last := |es| - 1;
      && es[last].Recv? && StatusOf(Run(s, es[..last]), es[last]) == (if last == 0 then RecvFirst else RecvMore)
      && (last > 0 ==> Fragments(s, es[..last]))
  {
    hide StatusOf, Run;
    var before := es[..|es| - 1];
    forall k | 0 <= k < |before|
      ensures before[k].Recv? && StatusOf(Run(s, before[..k]), before[k]) == if k == 0 then RecvFirst else RecvMore
    {
      assert before[..k] == es[..k];
    }
  }

  lemma {:induction false} FragmentsGather(s: Tls, es: seq<Event>)
    requires s.Ok() && AllOk(es) && Safe(s) && Clean(s) && Fragments(s, es)
    ensures forall e :: e in es ==> e.Recv? && HasPayload(e.packet.data)
    ensures LengthIncluded(es[0].packet.data[0])
    ensures var t := Run(s, es);
      && Safe(t) && Transfer(t) && t.inStarted && t.delivered == s.delivered
      && t.dirtyIn == Payloads(es) && t.inTotal == U16(es[0].packet.data[3], es[0].packet.data[4])
  {
    hide Step, StatusOf, Payload, HasPayload, Safe, U16, Fragments, LengthIncluded;
    FragmentsButLast(s, es);
    var last := |es| - 1;
    var before := es[..last];
    if last > 0 {
      FragmentsGather(s, before);
      assert before[0] == es[0];
    }
    FragmentStep(Run(s, before), es[last]);
    assert es == before + [es[last]];
  }

  /**
    A fragmented record that completes is the concatenation of what the fragments carried, whatever
    their sizes, and exactly as long as the first fragment declared.
   */
  lemma FragmentedRecordExact(s: Tls, es: seq<Event>, last: Event)
    requires s.Ok() && AllOk(es) && Safe(s) && Clean(s) && Fragments(s, es)
    requires last.Ok() && last.Recv? && StatusOf(Run(s, es), last) == RecvComplete
    ensures HasPayload(last.packet.data) && forall e :: e in es ==> HasPayload(e.packet.data)
    ensures LengthIncluded(es[0].packet.data[0])
    ensures var record := Payloads(es) + Payload(last.packet.data);
      && |record| == U16(es[0].packet.data[3], es[0].packet.data[4])
      && Step(Run(s, es), last).delivered == s.delivered + Handed(last.ssl, record)
      && Clean(Step(Run(s, es), last))
  {
    hide Request, Payload, U16, Run, Fragments, LengthIncluded, Absorb;
    FragmentsGather(s, es);
    var t := Run(s, es);
    VerifyKeepsTransfer(t, last.prevId, last.packet);
    var v := Verify(t, last.prevId, last.packet).1.(state := RecvComplete);
    hide Verify;
    AbsorbFollows(v, Payload(last.packet.data), last.ssl);
    AbsorbDelivers(v, Payload(last.packet.data), last.ssl);
  }

  /** The length that the four octets of the field declare. */
  function Declared(data: seq<byte>): nat
    requires |data| >= 5
  {
    U16(data[1], data[2]) * 65536 + U16(data[3], data[4])
  }

  /** Only two octets of the field are read: the record is as long as declared if and only if the others are zero. */
  lemma DeclaredLengthExact(s: Tls, es: seq<Event>, last: Event)
    requires s.Ok() && AllOk(es) && Safe(s) && Clean(s) && Fragments(s, es)
    requires last.Ok() && last.Recv? && StatusOf(Run(s, es), last) == RecvComplete
    ensures HasPayload(last.packet.data) && forall e :: e in es ==> HasPayload(e.packet.data)
    ensures var d := es[0].packet.data;
      |d| >= 5 && (|Payloads(es) + Payload(last.packet.data)| == Declared(d) <==> d[1] == 0 && d[2] == 0)
  {
    FragmentedRecordExact(s, es, last);
    hide Run, Fragments, Payloads, Payload, Step, StatusOf;
  }

  /** A transfer that received more than was declared. */
  predicate Overrun(s: Tls) {
    s.inStarted && s.inRecvd > s.inTotal
  }

  lemma OverrunVerify(s: Tls, prevId: Option<byte>, p: Packet)
    requires s.Ok() && WellFormed(p) && Overrun(s)
    ensures var (st, v) := Verify(s, prevId, p);
      && !st.RecvFirst? && !st.RecvMore? && !st.RecvComplete?
      && v.inTotal == s.inTotal && (Overrun(v) || (!v.inStarted && st == Invalid))
  {
  }

  /** An over-run transfer hands nothing over, and ends, if at all, with INVALID. */
  lemma OverrunStep(s: Tls, e: Event)
    requires s.Ok() && e.Ok() && Overrun(s)
    ensures var t := Step(s, e);
      && t.delivered == s.delivered && t.dirtyIn == s.dirtyIn
      && (Overrun(t) || (!t.inStarted && t.state == Invalid))
  {
    hide Request, Verify;
    if e.Recv? {
      OverrunVerify(s, e.prevId, e.packet);
    }
  }

  /** No sequence of packets completes an over-run transfer: until it is given up, nothing is handed over. */
  lemma {:induction false} OverrunNeverCompletes(s: Tls, es: seq<Event>)
    requires s.Ok() && AllOk(es) && Overrun(s)
    requires forall k :: 0 <= k < |es| ==> Run(s, es[..k]).inStarted
    ensures var t := Run(s, es);
      t.delivered == s.delivered && t.dirtyIn == s.dirtyIn && (Overrun(t) || (!t.inStarted && t.state == Invalid))
  {
    hide Step;
    if es != [] {
      var last := |es| - 1;
      forall k | 0 <= k < last
        ensures Run(s, es[..last][..k]).inStarted
      {
        assert es[..last][..k] == es[..k];
      }
      OverrunNeverCompletes(s, es[..last]);
      OverrunStep(Run(s, es[..last]), es[last]);
    }
  }

  /**
    What a transfer leaves behind when it is given up is not cleared: the next record that arrives whole
    is handed over as sent if and only if nothing was left in the buffer.
   */
  lemma StaleBytesPrefixNextRecord(s: Tls, e: Event)
    requires s.Ok() && e.Ok() && Safe(s) && !s.inStarted && e.Recv? && StatusOf(s, e) == RecvComplete
    requires |s.dirtyIn| + |Payload(e.packet.data)| <= MAX_RECORD && Payload(e.packet.data) != [] && e.ssl.writes
    ensures Step(s, e).delivered == s.delivered + [s.dirtyIn + Payload(e.packet.data)]
    ensures Step(s, e).delivered == s.delivered + [Payload(e.packet.data)] <==> s.dirtyIn == []
  {
    hide Request, Payload;
    var data := Payload(e.packet.data);
    AbsorbDelivers(Verify(s, e.prevId, e.packet).1.(state := RecvComplete), data, e.ssl);
    assert (s.delivered + [s.dirtyIn + data])[|s.delivered|] == s.dirtyIn + data;
    assert (s.delivered + [data])[|s.delivered|] == data;
    assert s.dirtyIn == [] ==> s.dirtyIn + data == data;
  }

  /**
    How a transfer comes to be given up with something left: what arrived is less or more than was declared. The
    last packet is INVALID, and what the first one carried stands before the next record.
   */
  lemma GivenUpTransferLeaves(s: Tls, total: nat, a: seq<byte>, b: seq<byte>, record: seq<byte>, ssl: Ssl)
    requires s.Ok() && ssl.Ok() && Safe(s) && Clean(s) && ssl.writes
    requires |a| <= total <= MAX_RECORD && b != [] && |a| + |b| != total
    requires record != [] && |a| + |record| <= MAX_RECORD
    ensures var first, last := Packed([192] + Net32(total) + a, ssl), Packed([0] + b, ssl);
      var whole := Packed([0] + record, ssl);
      var t := Step(Step(s, first), last);
      && StatusOf(s, first) == RecvFirst && StatusOf(Step(s, first), last) == Invalid
      && !t.inStarted && t.dirtyIn == a && t.delivered == s.delivered
      && StatusOf(t, whole) == RecvComplete && Step(t, whole).delivered == s.delivered + [a + record]
  {
    hide Step, StatusOf, Payload, Net32;
    FirstTaken(s, total, a, ssl);
    var first, last := Packed([192] + Net32(total) + a, ssl), Packed([0] + b, ssl);
    var f := Step(s, first);
    StepSafe(s, first);
    GivenUp(f, b, ssl);
    StepSafe(f, last);
    StandsBefore(Step(f, last), record, ssl);
  }

  lemma FirstTaken(s: Tls, total: nat, a: seq<byte>, ssl: Ssl)
    requires s.Ok() && ssl.Ok() && Clean(s) && |a| <= total <= MAX_RECORD
    ensures var first := Packed([192] + Net32(total) + a, ssl);
      StatusOf(s, first) == RecvFirst
      && Step(s, first) == s.(state := Handled, inStarted := true, inTotal := total, inRecvd := |a|, dirtyIn := a)
  {
    hide U16, Net32;
    var d := [192] + Net32(total) + a;
    assert d[0] == 192 && d[3] == Net32(total)[2] && d[4] == Net32(total)[3] && d[5..] == a;
    assert Payload(d) == a && s.dirtyIn + a == a;
  }

  lemma GivenUp(f: Tls, b: seq<byte>, ssl: Ssl)
    requires f.Ok() && ssl.Ok() && f.inStarted && b != [] && f.inRecvd + |b| != f.inTotal
    ensures var last := Packed([0] + b, ssl);
      StatusOf(f, last) == Invalid
      && Step(f, last) == f.(state := Invalid, inStarted := false, inRecvd := f.inRecvd + |b|)
  {
    var d := [0] + b;
    assert d[0] == 0 && Payload(d) == b;
  }

  lemma StandsBefore(t: Tls, record: seq<byte>, ssl: Ssl)
    requires t.Ok() && ssl.Ok() && Safe(t) && !t.inStarted && ssl.writes
    requires record != [] && |t.dirtyIn| + |record| <= MAX_RECORD
    ensures var whole := Packed([0] + record, ssl);
      StatusOf(t, whole) == RecvComplete && Step(t, whole).delivered == t.delivered + [t.dirtyIn + record]
  {
    var whole := Packed([0] + record, ssl);
    assert whole.packet.data[0] == 0 && Payload(whole.packet.data) == record;
    assert StatusOf(t, whole) == RecvComplete;
    StaleBytesPrefixNextRecord(t, whole);
    hide Step, StatusOf, Payload;
  }
}
