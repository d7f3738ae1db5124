/**
  EAP-TLS record transfer (src/lib/eap/tls.c): the fragmenter `eap_tls_request`, the checks of
  `eap_tls_verify` and the state machine `eap_tls_process`, on the server's session object.
 */
module EapTls {
  import opened Bytes
  import opened EapPacket

  /** FR_TLS_MAX_RECORD_SIZE: the capacity of every record buffer. */
  const MAX_RECORD := 16384
  const LENGTH_FIELD := 4

  // ----- Flags: L M S R R R R R -----

  predicate LengthIncluded(flags: byte) { flags >= 128 }
  predicate MoreFragments(flags: byte) { flags % 128 >= 64 }
  predicate Start(flags: byte) { flags % 64 >= 32 }

  function SetLengthIncluded(flags: byte): (r: byte)
    ensures LengthIncluded(r) && MoreFragments(r) == MoreFragments(flags) && Start(r) == Start(flags)
  {
    if LengthIncluded(flags) then flags else flags + 128
  }

  function SetMoreFragments(flags: byte): (r: byte)
    ensures MoreFragments(r) && LengthIncluded(r) == LengthIncluded(flags) && Start(r) == Start(flags)
  {
    if MoreFragments(flags) then flags else flags + 64
  }

  /** The reserved bits a protocol may use as its base flags: `flags & 0xe0 == 0`. */
  predicate BaseFlags(flags: byte) { flags < 32 }

  function Net32(n: nat): (b: seq<byte>)
    ensures |b| == 4
    ensures U16(b[2], b[3]) == n % 65536
  {
    Net16(n / 65536) + Net16(n)
  }

  // ----- Session state -----

  datatype Status =
    | Invalid | Established | Fail | Handled
    | RecordSend
    | RecvFirst | RecvMore | RecvComplete

  datatype Content = Alert | Handshake | ApplicationData | OtherContent

  /** What the TLS message callback last saw: `fr_tls_info_t`. */
  datatype Info = Info(initialized: bool, content: Content, sent: bool)

  /** The values of the fields of `eap_tls_session_t` and `fr_tls_session_t`. */
  datatype Tls = Tls(
    state: Status, baseFlags: byte, includeLength: bool, phase2: bool,
    outStarted: bool, outTotal: nat,
    inStarted: bool, inTotal: nat, inRecvd: nat,
    mtu: nat, dirtyIn: seq<byte>, dirtyOut: seq<byte>,
    info: Info,
    finished: bool,              // SSL_is_init_finished
    delivered: seq<seq<byte>>)   // records written into OpenSSL, oldest first
  {
    predicate Ok() {
      BaseFlags(baseFlags) && mtu > LENGTH_FIELD && |dirtyIn| <= MAX_RECORD && |dirtyOut| <= MAX_RECORD
    }
  }

  datatype RecvResult = RecvOk | RecvWantMore | RecvError

  /** What OpenSSL answers when it is handed a complete record; `writes` says whether it takes all of it. */
  datatype Ssl = Ssl(writes: bool, handshakeOk: bool, out: seq<byte>, finished: bool, info: Info, recv: RecvResult)
  {
    predicate Ok() { |out| <= MAX_RECORD }
  }

  /** A response as `eap_round_build` leaves it. */
  predicate WellFormed(p: Packet) {
    p.length == EAP_HEADER_LEN + 1 + |p.data|
  }

  // ----- Specification functions -----

  /** How many octets the next fragment takes, and whether it is marked as one of several. */
  function NextFragment(s: Tls): (r: (nat, bool, bool))
    requires s.Ok()
    ensures r.0 <= |s.dirtyOut|
  {
    var spare := if s.includeLength then LENGTH_FIELD else 0;
    if |s.dirtyOut| + spare > s.mtu then
      var l := s.includeLength || !s.outStarted;
      (if l then s.mtu - LENGTH_FIELD else s.mtu, true, l)
    else
      (|s.dirtyOut|, false, s.includeLength)
  }

  /** `eap_tls_request`: the session afterwards, and the type data of the EAP-Request. */
  function Request(s: Tls): (r: (Tls, seq<byte>))
    requires s.Ok()
    ensures r.0.Ok()
    ensures r.0 == s.(outStarted := r.0.outStarted, outTotal := r.0.outTotal, dirtyOut := r.0.dirtyOut)
  {
    var (len, more, l) := NextFragment(s);
    var total := if s.outStarted then s.outTotal else |s.dirtyOut|;
    var f0 := if more then SetMoreFragments(s.baseFlags) else s.baseFlags;
    var flags := if l then SetLengthIncluded(f0) else f0;
    (s.(outStarted := more, outTotal := total, dirtyOut := s.dirtyOut[len..]),
     [flags] + (if l then Net32(total) else []) + s.dirtyOut[..len])
  }

  /** Type data with room for the fields its flags announce. */
  predicate HasPayload(data: seq<byte>) {
    |data| >= 1 && (LengthIncluded(data[0]) ==> |data| >= 5)
  }

  /** The octets of TLS data that a response carries. */
  function Payload(data: seq<byte>): seq<byte>
    requires HasPayload(data)
  {
    if LengthIncluded(data[0]) then data[5..] else data[1..]
  }

  /** `eap_tls_session_status`: how the session reacts to an acknowledgement. */
  function AckStatus(s: Tls): Status {
    if !s.info.initialized then RecordSend
    else if s.info.content == Handshake && !s.info.sent then Invalid
    else match s.info.content
      case Alert => Fail
      case Handshake => if s.finished && s.dirtyOut == [] then Established else RecordSend
      case ApplicationData => RecordSend
      case OtherContent => Invalid
  }

  predicate IsAck(p: Packet) {
    WellFormed(p) && |p.data| == 1 && !LengthIncluded(p.data[0]) && !MoreFragments(p.data[0])
  }

  /** What a fragment of `fragLen` octets does to the transfer; `total` is the length it declares, if `l` is set. */
  function Transferred(s: Tls, l: bool, m: bool, total: nat, fragLen: nat): (r: (Status, Tls))
    ensures r.1 == s.(inStarted := r.1.inStarted, inTotal := r.1.inTotal, inRecvd := r.1.inRecvd)
    ensures r.0.Invalid? || r.0.RecvFirst? || r.0.RecvMore? || r.0.RecvComplete?
  {
    if l && (fragLen > total || total > MAX_RECORD) then (Invalid, s)
    else if l && !s.inStarted then
      if m then (RecvFirst, s.(inStarted := true, inTotal := total, inRecvd := fragLen))
      else (if total == fragLen then RecvComplete else Invalid, s)
    else if m then
      if !s.inStarted then (Invalid, s)
      else
        var s' := s.(inRecvd := s.inRecvd + fragLen);
        (if s'.inRecvd > s'.inTotal then Invalid else RecvMore, s')
    else if s.inStarted then
      var s' := s.(inStarted := false, inRecvd := s.inRecvd + fragLen);
      (if s'.inRecvd != s'.inTotal then Invalid else RecvComplete, s')
    else
      (RecvComplete, s)
  }

  /** `eap_tls_verify`: the status it returns and the session it leaves. */
  function Verify(s: Tls, prevId: Option<byte>, p: Packet): (r: (Status, Tls))
    requires WellFormed(p)
    ensures r.0.RecvFirst? || r.0.RecvMore? || r.0.RecvComplete? ==> HasPayload(p.data)
    ensures !r.0.Handled?
    ensures r.0.Established? ==> s.finished && s.dirtyOut == []
    ensures r.1 == s.(inStarted := r.1.inStarted, inTotal := r.1.inTotal, inRecvd := r.1.inRecvd, info := r.1.info)
  {
    if p.length < EAP_HEADER_LEN + 2 then (Invalid, s)
    else
      var flags := p.data[0];
      var l := LengthIncluded(flags);
      if p.length < EAP_HEADER_LEN + (if l then 6 else 2) then (Invalid, s)
      else if IsAck(p) then
        if prevId != Some(p.id) then (Invalid, s)
        else
          var st := AckStatus(s);
          (st, if st == Established then s.(info := s.info.(content := ApplicationData)) else s)
      else if Start(flags) then (Invalid, s)
      else
        Transferred(s, l, MoreFragments(flags), if l then U16(p.data[3], p.data[4]) else 0, |Payload(p.data)|)
  }

  /** The session after `eap_tls_process`, and the type data of the request it composed, if any. */
  datatype Outcome = Outcome(tls: Tls, reply: Option<seq<byte>>)

  /** Send what is in `dirty_out` and report the packet as handled. */
  function Sent(s: Tls): (r: Outcome)
    requires s.Ok()
    ensures r.tls.Ok()
  {
    var (s', data) := Request(s);
    Outcome(s'.(state := Handled), Some(data))
  }

  /** There is a record in `dirty_in` and OpenSSL does not take it. */
  predicate Refused(s: Tls, ssl: Ssl) { s.dirtyIn != [] && !ssl.writes }

  /** Hand the record in `dirty_in` to OpenSSL; the buffer is emptied even when it is refused. */
  function Deliver(s: Tls, ssl: Ssl): Tls {
    s.(delivered := if s.dirtyIn == [] || !ssl.writes then s.delivered else s.delivered + [s.dirtyIn], dirtyIn := [])
  }

  /** The session after OpenSSL has worked on a handshake record. */
  function HandshakeStep(s: Tls, ssl: Ssl): (r: Tls)
    requires s.Ok() && ssl.Ok()
    ensures r.Ok()
  {
    if Refused(s, ssl) then Deliver(s, ssl)
    else
      Deliver(s, ssl).(finished := s.finished || ssl.finished, info := ssl.info,
                       dirtyOut := if ssl.handshakeOk && ssl.out != [] then ssl.out else s.dirtyOut)
  }

  /** `eap_tls_handshake_resume`. */
  function HandshakeResume(s: Tls, ok: bool): (r: Outcome)
    requires s.Ok()
    ensures r.tls.Ok()
  {
    if !ok then Outcome(s.(state := Fail), None)
    else if s.dirtyOut != [] then Sent(s)
    else if s.phase2 || s.finished then
      Outcome(s.(phase2 := true, info := s.info.(content := ApplicationData), state := Established), None)
    else Outcome(s.(state := Fail), None)
  }

  /** Decryption of application data in phase 2, `fr_tls_session_recv`. */
  function ApplicationRecord(s: Tls, ssl: Ssl): (r: Outcome)
    ensures s.Ok() ==> r.tls.Ok()
  {
    var s1 := s.(phase2 := true);
    if !s1.finished then Outcome(s1.(state := Fail), None)
    else if Refused(s1, ssl) then Outcome(Deliver(s1, ssl).(state := Fail), None)
    else
      Outcome(Deliver(s1, ssl).(state := match ssl.recv
                                     case RecvOk => RecvComplete
                                     case RecvWantMore => RecvMore
                                     case RecvError => Fail), None)
  }

  /** A verified fragment or record is added to `dirty_in`. */
  function Absorb(s: Tls, data: seq<byte>, ssl: Ssl): (r: Outcome)
    requires s.Ok() && ssl.Ok()
    ensures r.tls.Ok()
  {
    var room := MAX_RECORD - |s.dirtyIn|;
    if |data| > room then
      Outcome(s.(dirtyIn := s.dirtyIn + data[..room], state := Fail), None)
    else
      var s' := s.(dirtyIn := s.dirtyIn + data);
      if s.state != RecvComplete then Outcome(s'.(state := Handled), Some([s'.baseFlags]))
      else if s'.phase2 || s'.finished then ApplicationRecord(s', ssl)
      else HandshakeResume(HandshakeStep(s', ssl), ssl.handshakeOk && !Refused(s', ssl))
  }

  /** `eap_tls_process`. */
  function Process(s: Tls, prevId: Option<byte>, p: Packet, ssl: Ssl): (r: Outcome)
    requires s.Ok() && ssl.Ok() && WellFormed(p)
    ensures r.tls.Ok()
  {
    var (st, v) := Verify(s, prevId, p);
    var s1 := v.(state := st);
    match st
    case RecvFirst | RecvMore | RecvComplete => Absorb(s1, Payload(p.data), ssl)
    case RecordSend =>
      if !s1.phase2 && s1.dirtyOut == [] && s1.finished then
        Outcome(s1.(phase2 := true, state := Established), None)
      else
        Sent(s1)
    case _ => Outcome(s1, None)
  }

  // ----- The session object -----

  class Session {
    var state: Status
    const baseFlags: byte
    const includeLength: bool
    var phase2: bool
    var outStarted: bool
    var outTotal: nat
    var inStarted: bool
    var inTotal: nat
    var inRecvd: nat
    const mtu: nat
    var dirtyIn: seq<byte>
    var dirtyOut: seq<byte>
    var info: Info
    var finished: bool
    ghost var delivered: seq<seq<byte>>

    ghost function View(): Tls
      reads this
    {
      Tls(state, baseFlags, includeLength, phase2, outStarted, outTotal, inStarted, inTotal, inRecvd,
          mtu, dirtyIn, dirtyOut, info, finished, delivered)
    }

    ghost predicate Valid()
      reads this
    {
      View().Ok()
    }

    constructor (baseFlags: byte, includeLength: bool, mtu: nat)
      requires BaseFlags(baseFlags) && mtu > LENGTH_FIELD
      ensures Valid() && Clean(View()) && !phase2 && state == Handled
      ensures this.baseFlags == baseFlags && this.includeLength == includeLength && this.mtu == mtu
      ensures dirtyOut == [] && !outStarted && !finished && delivered == []
    {
      this.baseFlags, this.includeLength, this.mtu := baseFlags, includeLength, mtu;
      state, phase2, finished := Handled, false, false;
      outStarted, outTotal := false, 0;
      inStarted, inTotal, inRecvd := false, 0, 0;
      dirtyIn, dirtyOut, delivered := [], [], [];
      info := Info(false, OtherContent, false);
    }

    /** `record_to_buff`: gives as much as is asked for and there is. */
    method TakeOut(n: nat) returns (data: seq<byte>)
      modifies this`dirtyOut
      ensures data + dirtyOut == old(dirtyOut)
      ensures |data| == n || (|data| < n && dirtyOut == [])
    {
      var taken := |dirtyOut|;
      if taken > n {
        taken := n;
      }
      data := dirtyOut[..taken];
      dirtyOut := dirtyOut[taken..];
    }

    /** `record_from_buff`: takes what fits, and says how much that was. */
    method AddIn(data: seq<byte>) returns (added: nat)
      requires |dirtyIn| <= MAX_RECORD
      modifies this`dirtyIn
      ensures added <= |data| && dirtyIn == old(dirtyIn) + data[..added] && |dirtyIn| <= MAX_RECORD
      ensures added < |data| ==> |dirtyIn| == MAX_RECORD
    {
      added := MAX_RECORD - |dirtyIn|;
      if added > |data| {
        added := |data|;
      }
      dirtyIn := dirtyIn + data[..added];
    }

    method SendRequest() returns (data: seq<byte>)
      requires Valid()
      modifies this`outStarted, this`outTotal, this`dirtyOut
      ensures Valid()
      ensures (View(), data) == Request(old(View()))
    {
      ghost var s := View();
      var flags := baseFlags;
      var lengthIncluded := includeLength;
      var fragLen: nat;
      if !outStarted {
        outTotal := |dirtyOut|;
      }
      if |dirtyOut| + (if lengthIncluded then LENGTH_FIELD else 0) > mtu {
        if !outStarted {
          lengthIncluded := true;
        }
        fragLen := if lengthIncluded then mtu - LENGTH_FIELD else mtu;
        flags := SetMoreFragments(flags);
        outStarted := true;
      } else {
        fragLen := |dirtyOut|;
        outStarted := false;
      }
      if lengthIncluded {
        flags := SetLengthIncluded(flags);
      }
      var taken := TakeOut(fragLen);
      assert taken == s.dirtyOut[..fragLen] && dirtyOut == s.dirtyOut[fragLen..];
      data := [flags] + (if LengthIncluded(flags) then Net32(outTotal) else []) + taken;
    }

    /** Send what is in `dirty_out` and report the packet as handled. */
    method SendAndReport() returns (reply: Option<seq<byte>>)
      requires Valid()
      modifies this`outStarted, this`outTotal, this`dirtyOut, this`state
      ensures Valid()
      ensures Outcome(View(), reply) == Sent(old(View()))
    {
      var data := SendRequest();
      state := Handled;
      reply := Some(data);
    }

    /** `eap_tls_session_status` */
    method SessionStatus() returns (st: Status)
      modifies this`info
      ensures st == AckStatus(old(View()))
      ensures View() == old(if st == Established then View().(info := info.(content := ApplicationData)) else View())
    {
      if !info.initialized {
        return RecordSend;
      }
      if info.content == Handshake && !info.sent {
        return Invalid;
      }
      match info.content
      case Alert =>
        return Fail;
      case Handshake =>
        if finished && dirtyOut == [] {
          info := info.(content := ApplicationData);
          return Established;
        }
        return RecordSend;
      case ApplicationData =>
        return RecordSend;
      case OtherContent =>
        return Invalid;
    }

    method VerifyPacket(prevId: Option<byte>, p: Packet) returns (st: Status)
      requires WellFormed(p)
      modifies this`inStarted, this`inTotal, this`inRecvd, this`info
      ensures (st, View()) == Verify(old(View()), prevId, p)
    {
      hide LengthIncluded, MoreFragments, Start, U16, AckStatus, Transferred;
      if p.length < EAP_HEADER_LEN + 2 {
        return Invalid;
      }
      var flags := p.data[0];
      var headerLen := EAP_HEADER_LEN + if LengthIncluded(flags) then 6 else 2;
      if p.length < headerLen {
        return Invalid;
      }
      if p.length == EAP_HEADER_LEN + 2 && !LengthIncluded(flags) && !MoreFragments(flags) {
        if prevId == None || prevId.value != p.id {
          return Invalid;
        }
        st := SessionStatus();
        return;
      }
      if Start(flags) {
        return Invalid;
      }
      var total := 0;
      if LengthIncluded(flags) {
        total := U16(p.data[3], p.data[4]);
      }
      st := TransferFragment(LengthIncluded(flags), MoreFragments(flags), total, p.length - headerLen);
    }

    /** The part of `eap_tls_verify` that keeps the state of the transfer. */
    method TransferFragment(lengthIncluded: bool, moreFragments: bool, total: nat, fragLen: nat) returns (st: Status)
      modifies this`inStarted, this`inTotal, this`inRecvd
      ensures (st, View()) == Transferred(old(View()), lengthIncluded, moreFragments, total, fragLen)
    {
      if lengthIncluded {
        if fragLen > total {
          return Invalid;
        }
        if total > MAX_RECORD {
          return Invalid;
        }
        if !inStarted {
          if moreFragments {
            inTotal, inRecvd, inStarted := total, fragLen, true;
            return RecvFirst;
          }
          if total != fragLen {
            return Invalid;
          }
          return RecvComplete;
        }
      }
      if moreFragments {
        if !inStarted {
          return Invalid;
        }
        inRecvd := inRecvd + fragLen;
        if inRecvd > inTotal {
          return Invalid;
        }
        return RecvMore;
      }
      if inStarted {
        inStarted := false;
        inRecvd := inRecvd + fragLen;
        if inRecvd != inTotal {
          return Invalid;
        }
        return RecvComplete;
      }
      return RecvComplete;
    }

    /** Write `dirty_in` into OpenSSL and clear it; a record that is not taken is lost. */
    method Feed(ssl: Ssl) returns (ok: bool)
      modifies this`dirtyIn, this`delivered
      ensures View() == Deliver(old(View()), ssl) && ok == !Refused(old(View()), ssl)
    {
      ok := true;
      if dirtyIn != [] {
        if !ssl.writes {
          dirtyIn := [];
          return false;
        }
        delivered, dirtyIn := delivered + [dirtyIn], [];
      }
    }

    /** `fr_tls_session_recv` and the statuses made of its result. */
    method ReceiveApplicationData(ssl: Ssl)
      requires Valid()
      modifies this
      ensures Valid()
      ensures Outcome(View(), None) == ApplicationRecord(old(View()), ssl)
    {
      phase2 := true;
      if !finished {
        state := Fail;
        return;
      }
      var ok := Feed(ssl);
      if !ok {
        state := Fail;
        return;
      }
      match ssl.recv
      case RecvOk => state := RecvComplete;
      case RecvWantMore => state := RecvMore;
      case RecvError => state := Fail;
    }

    /** A handshake round: OpenSSL reads `dirty_in` and may fill `dirty_out`. */
    method RunHandshake(ssl: Ssl) returns (ok: bool)
      requires Valid() && ssl.Ok()
      modifies this
      ensures Valid()
      ensures View() == HandshakeStep(old(View()), ssl)
      ensures ok == (ssl.handshakeOk && !Refused(old(View()), ssl))
    {
      ok := Feed(ssl);
      if !ok {
        return;
      }
      finished, info := finished || ssl.finished, ssl.info;
      if ssl.handshakeOk && |ssl.out| > 0 {
        dirtyOut := ssl.out;
      }
      ok := ssl.handshakeOk;
    }

    method ResumeHandshake(ok: bool) returns (reply: Option<seq<byte>>)
      requires Valid()
      modifies this
      ensures Valid()
      ensures Outcome(View(), reply) == HandshakeResume(old(View()), ok)
    {
      reply := None;
      if !ok {
        state := Fail;
      } else if |dirtyOut| > 0 {
        reply := SendAndReport();
      } else if phase2 || finished {
        phase2 := true;
        info := info.(content := ApplicationData);
        state := Established;
      } else {
        state := Fail;
      }
    }

    /** The part of `eap_tls_process` that buffers a verified fragment or record. */
    method AbsorbData(data: seq<byte>, ssl: Ssl) returns (reply: Option<seq<byte>>)
      requires Valid() && ssl.Ok()
      modifies this
      ensures Valid()
      ensures Outcome(View(), reply) == Absorb(old(View()), data, ssl)
    {
      reply := None;
      var added := AddIn(data);
      if added != |data| {
        state := Fail;
        return;
      }
      assert data[..added] == data;
      if state != RecvComplete {
        reply, state := Some([baseFlags]), Handled;
        return;
      }
      if phase2 || finished {
        ReceiveApplicationData(ssl);
      } else {
        var ok := RunHandshake(ssl);
        reply := ResumeHandshake(ok);
      }
    }

    method ProcessPacket(prevId: Option<byte>, p: Packet, ssl: Ssl) returns (reply: Option<seq<byte>>)
      requires Valid() && ssl.Ok() && WellFormed(p)
      modifies this
      ensures Valid()
      ensures Outcome(View(), reply) == Process(old(View()), prevId, p, ssl)
    {
      hide Verify, Absorb, Request, U16;
      reply := None;
      var status := VerifyPacket(prevId, p);
      state := status;
      match status
      case RecvFirst | RecvMore | RecvComplete =>
        reply := AbsorbData(if LengthIncluded(p.data[0]) then p.data[5..] else p.data[1..], ssl);
      case RecordSend =>
        if !phase2 && |dirtyOut| == 0 && finished {
          phase2, state := true, Established;
          return;
        }
        reply := SendAndReport();
      case _ =>
    }
  }

  /** Between transfers: nothing half received, nothing left over. */
  predicate Clean(s: Tls) {
    !s.inStarted && s.dirtyIn == []
  }
}
