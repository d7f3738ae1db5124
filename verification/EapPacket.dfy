/**
  The EAP packet layer (src/lib/eap/base.c, src/lib/eap/compose.c): wire format, splitting into
  EAP-Message attributes, concatenation, validation and the collapse of vendor-0 expanded types.
 */
module EapPacket {
  import opened Bytes

  const REQUEST: byte := 1
  const RESPONSE: byte := 2
  const SUCCESS: byte := 3
  const FAILURE: byte := 4

  const NOTIFICATION: byte := 2
  const NAK: byte := 3
  const METHOD_MAX: byte := 56
  const EXPANDED: byte := 254

  const EAP_HEADER_LEN := 4
  const MAX_CHUNK := 253
  /** Largest type data whose packet length still fits the 16-bit length field. */
  const MAX_TYPE_DATA := 65530

  /** The parsed view of a packet, `eap_packet_t`; an absent type-data pointer is the empty string. */
  datatype Packet = Packet(code: byte, id: byte, length: nat, num: byte, data: seq<byte>)

  /** What `length` must be for a packet with this code and type data. */
  function LengthOf(code: byte, data: seq<byte>): nat {
    if code < SUCCESS then EAP_HEADER_LEN + 1 + |data| else EAP_HEADER_LEN
  }

  /** The octets of a packet: header, then type and type data for requests and responses only. */
  function Wire(p: Packet): (b: seq<byte>)
    ensures |b| == LengthOf(p.code, p.data)
  {
    [p.code, p.id] + Net16(LengthOf(p.code, p.data)) + if p.code < SUCCESS then [p.num] + p.data else []
  }

  /** An `eap_packet_t` being built for sending. */
  class Reply {
    var code: byte
    var id: byte
    var typeNum: byte
    var typeData: seq<byte>
    var packet: Option<seq<byte>>

    constructor (code: byte, id: byte, typeNum: byte, typeData: seq<byte>)
      ensures this.code == code && this.id == id && this.typeNum == typeNum && this.typeData == typeData
      ensures packet == None
    {
      this.code, this.id, this.typeNum, this.typeData, this.packet := code, id, typeNum, typeData, None;
    }

    /** The field values as a packet, with the length they imply. */
    ghost function View(): Packet
      reads this
    {
      Packet(code, id, LengthOf(code, typeData), typeNum, typeData)
    }

    /**
      Fill in `packet`, unless an earlier call already did. Under code 0 the octets after the header are left as
      they were allocated.
     */
    method WireFormat()
      requires code < SUCCESS ==> |typeData| <= MAX_TYPE_DATA
      modifies this`packet
      ensures old(packet).Some? ==> packet == old(packet)
      ensures old(packet).None? ==> packet.Some? && |packet.value| == LengthOf(code, typeData)
      ensures old(packet).None? ==> packet.value[..EAP_HEADER_LEN] == Wire(View())[..EAP_HEADER_LEN]
      ensures old(packet).None? && code != 0 ==> packet.value == Wire(View())
    {
      if packet.Some? {
        return;
      }
      var total := EAP_HEADER_LEN;
      if code < SUCCESS {
        total := total + 1 + |typeData|;
      }
      var raw := new byte[total];
      raw[0], raw[1] := code, id;
      raw[2], raw[3] := Net16(total)[0], Net16(total)[1];
      if code == REQUEST || code == RESPONSE {
        raw[4] := typeNum;
        forall i | 0 <= i < |typeData| {
          raw[5 + i] := typeData[i];
        }
      }
      assert raw[..EAP_HEADER_LEN] == Wire(View())[..EAP_HEADER_LEN];
      assert code != 0 ==> raw[..] == Wire(View());
      packet := Some(raw[..]);
    }
  }

  /** `vps` are the EAP-Message values that carry `bytes`: full chunks, then one that is not empty. */
  predicate IsSplit(bytes: seq<byte>, vps: seq<seq<byte>>) {
    && Flatten(vps) == bytes
    && (forall i :: 0 <= i < |vps| - 1 ==> |vps[i]| == MAX_CHUNK)
    && (vps != [] ==> 1 <= |vps[|vps| - 1]| <= MAX_CHUNK)
  }

  /** The one such list. */
  function Split(bytes: seq<byte>): seq<seq<byte>> {
    if bytes == [] then []
    else if |bytes| <= MAX_CHUNK then [bytes]
    else [bytes[..MAX_CHUNK]] + Split(bytes[MAX_CHUNK..])
  }

  /** There is exactly one way to carry some octets in EAP-Message attributes. */
  lemma SplitUnique(bytes: seq<byte>, vps: seq<seq<byte>>)
    ensures IsSplit(bytes, vps) <==> vps == Split(bytes)
  {
    if IsSplit(bytes, vps) {
      SplitOnly(bytes, vps);
    }
    SplitExists(bytes);
  }

  lemma {:induction false} SplitExists(bytes: seq<byte>)
    ensures IsSplit(bytes, Split(bytes))
    decreases |bytes|
  {
    if 0 < |bytes| <= MAX_CHUNK {
      assert Split(bytes) == [bytes] && Flatten([bytes]) == bytes + Flatten([]);
    } else if bytes != [] {
      var head, rest := bytes[..MAX_CHUNK], Split(bytes[MAX_CHUNK..]);
      SplitExists(bytes[MAX_CHUNK..]);
      assert ([head] + rest)[1..] == rest;
      assert rest != [] by { assert Flatten(rest) == bytes[MAX_CHUNK..]; }
    }
  }

  lemma {:induction false} SplitOnly(bytes: seq<byte>, vps: seq<seq<byte>>)
    requires IsSplit(bytes, vps)
    ensures vps == Split(bytes)
    decreases |vps|
  {
    if vps != [] {
      var rest := vps[1..];
      assert bytes == vps[0] + Flatten(rest);
      if rest == [] {
        assert vps == [vps[0]] && vps[0] + [] == vps[0];
      } else {
        assert rest[|rest| - 1] == vps[|vps| - 1];
        assert Flatten(rest) == rest[0] + Flatten(rest[1..]);
        SplitOnly(Flatten(rest), rest);
        assert bytes[..MAX_CHUNK] == vps[0] && bytes[MAX_CHUNK..] == Flatten(rest);
      }
    }
  }

  /** Split a raw packet, of the length its header states, into EAP-Message values. */
  method PacketToVp(eap: seq<byte>) returns (vps: seq<seq<byte>>)
    requires |eap| >= EAP_HEADER_LEN
    requires U16(eap[2], eap[3]) <= |eap|
    ensures IsSplit(eap[..U16(eap[2], eap[3])], vps)
  {
    var total := U16(eap[2], eap[3]);
    vps := [];
    if total == 0 {
      return;
    }
    var ptr := 0;
    while true
      invariant 0 < total && ptr + total == U16(eap[2], eap[3])
      invariant Flatten(vps) == eap[..ptr]
      invariant forall i :: 0 <= i < |vps| ==> |vps[i]| == MAX_CHUNK
      decreases total
    {
      var size := total;
      if size > MAX_CHUNK {
        size := MAX_CHUNK;
      }
      FlattenSnoc(vps, eap[ptr..ptr + size]);
      assert eap[..ptr] + eap[ptr..ptr + size] == eap[..ptr + size];
      vps := vps + [eap[ptr..ptr + size]];
      ptr, total := ptr + size, total - size;
      if total <= 0 {
        break;
      }
    }
  }

  /** The method types the server accepts in place of an expanded type or directly. */
  predicate KnownType(t: byte) {
    0 < t < METHOD_MAX
  }

  /** A vendor-0 expanded type that can be smashed to a legacy one. */
  predicate Collapsible(b: seq<byte>)
    requires |b| > EAP_HEADER_LEN
  {
    && b[4] == EXPANDED
    && 12 < U16(b[2], b[3]) <= |b|
    && b[5] == b[6] == b[7] == b[8] == b[9] == b[10] == 0
    && KnownType(b[11]) && b[11] != NAK
  }

  /** The packets `eap_is_valid` accepts. */
  predicate ValidEap(b: seq<byte>) {
    && |b| > EAP_HEADER_LEN
    && EAP_HEADER_LEN < U16(b[2], b[3]) <= |b|
    && (b[0] == REQUEST || b[0] == RESPONSE)
    && (Collapsible(b) || (KnownType(b[4]) && b[4] != NOTIFICATION))
  }

  /** What an accepted packet is left as: an expanded type loses its seven extra octets. */
  function Collapse(b: seq<byte>): seq<byte>
    requires ValidEap(b)
  {
    if b[4] == EXPANDED then
      var len := U16(b[2], b[3]);
      b[..2] + Net16(len - 7) + b[11..len]
    else
      b
  }

  /** `eap_is_valid`: checks in place; the caller's buffer is replaced when the type collapses. */
  method IsValid(buf: array<byte>) returns (ok: bool, out: array<byte>)
    modifies buf
    ensures ok == ValidEap(old(buf[..]))
    ensures ok ==> out[..] == Collapse(old(buf[..]))
    ensures out == buf || fresh(out)
  {
    out := buf;
    ghost var b := buf[..];
    var packetLen := buf.Length;
    if packetLen <= EAP_HEADER_LEN {
      return false, buf;
    }
    var len := U16(buf[2], buf[3]);
    if len <= EAP_HEADER_LEN || len > packetLen {
      return false, buf;
    }
    if buf[0] != RESPONSE && buf[0] != REQUEST {
      return false, buf;
    }
    if buf[4] == 0 || buf[4] >= METHOD_MAX {
      if buf[4] == EXPANDED {
        if len <= EAP_HEADER_LEN + 1 + 3 + 4 {
          return false, buf;
        }
        if buf[5] != 0 || buf[6] != 0 || buf[7] != 0 {
          return false, buf;
        }
        if buf[8] != 0 || buf[9] != 0 || buf[10] != 0 {
          return false, buf;
        }
        if buf[11] == 0 || buf[11] >= METHOD_MAX {
          return false, buf;
        }
        if buf[11] == NAK {
          return false, buf;
        }
        // memmove, then realloc to the shorter length
        forall i | 0 <= i < len - 7 - EAP_HEADER_LEN {
          buf[EAP_HEADER_LEN + i] := buf[EAP_HEADER_LEN + 7 + i];
        }
        var p := new byte[len - 7];
        forall i | 0 <= i < len - 7 {
          p[i] := buf[i];
        }
        len := len - 7;
        p[2], p[3] := Net16(len)[0], Net16(len)[1];
        assert p[..] == Collapse(b);
        return true, p;
      }
      return false, buf;
    }
    if buf[4] == NOTIFICATION {
      return false, buf;
    }
    return true, buf;
  }

  /** Which EAP-Message lists are accepted, and as what packet, in terms of the bytes they carry. */
  function Reassembled(vps: seq<seq<byte>>): Option<seq<byte>> {
    var b := Flatten(vps);
    if vps != [] && |vps[0]| >= EAP_HEADER_LEN && ValidEap(b) && U16(b[2], b[3]) == |b| then
      Some(Collapse(b))
    else
      None
  }

  /** `eap_packet_from_vp`: length check over the list, copy, then validation in place. */
  method PacketFromVp(vps: seq<seq<byte>>) returns (r: Option<seq<byte>>)
    ensures r == Reassembled(vps)
  {
    if |vps| == 0 {
      return None;
    }
    assert Flatten(vps) == vps[0] + Flatten(vps[1..]);
    if |vps[0]| < 4 {
      return None;
    }
    var len := U16(vps[0][2], vps[0][3]);
    if len < 4 {
      return None;
    }
    var totalLen := 0;
    for i := 0 to |vps|
      invariant totalLen == |Flatten(vps[..i])| <= len
    {
      FlattenAt(vps, i);
      totalLen := totalLen + |vps[i]|;
      if totalLen > len {
        return None;
      }
    }
    assert vps[..|vps|] == vps;
    if totalLen < len {
      return None;
    }
    var packet := new byte[len];
    var ptr := 0;
    for i := 0 to |vps|
      invariant ptr == |Flatten(vps[..i])| <= len
      invariant packet[..ptr] == Flatten(vps[..i])
    {
      FlattenAt(vps, i);
      ghost var done := packet[..ptr];
      forall k | 0 <= k < |vps[i]| {
        packet[ptr + k] := vps[i][k];
      }
      assert packet[..ptr + |vps[i]|] == done + vps[i];
      ptr := ptr + |vps[i]|;
    }
    assert packet[..] == Flatten(vps);
    var ok, out := IsValid(packet);
    return if ok then Some(out[..]) else None;
  }

  /** The response half of the round that `eap_round_build` makes from a validated packet. */
  function RoundBuild(b: seq<byte>): Packet
    requires |b| > EAP_HEADER_LEN
    requires U16(b[2], b[3]) <= |b|
  {
    var len := U16(b[2], b[3]);
    Packet(b[0], b[1], len, b[4], if len - 5 > 0 then b[5..len] else [])
  }

  /** What arrives at the other end of a list of EAP-Message attributes. */
  function Received(vps: seq<seq<byte>>): (r: Option<Packet>)
    ensures r.Some? ==> r.value.length == EAP_HEADER_LEN + 1 + |r.value.data|
  {
    var r := Reassembled(vps);
    if r.Some? then Some(RoundBuild(r.value)) else None
  }

  /** A request or response that is ready to be sent. */
  predicate Sendable(p: Packet) {
    && (p.code == REQUEST || p.code == RESPONSE)
    && |p.data| <= MAX_TYPE_DATA
    && p.length == LengthOf(p.code, p.data)
  }

  /** The first EAP-Message of a split packet holds the whole EAP header. */
  lemma SplitHeader(bytes: seq<byte>, vps: seq<seq<byte>>)
    requires IsSplit(bytes, vps) && |bytes| >= EAP_HEADER_LEN
    ensures vps != [] && |vps[0]| >= EAP_HEADER_LEN
  {
    if |vps| == 1 {
      assert Flatten(vps) == vps[0] + Flatten(vps[1..]);
    }
  }

  /** The fields of a request or response can be read back off its octets. */
  lemma WireFields(p: Packet)
    requires Sendable(p)
    ensures var b := Wire(p);
      |b| == p.length && U16(b[2], b[3]) == |b| && b[..2] == [p.code, p.id] && b[4] == p.num && b[5..|b|] == p.data
  {
    var b := Wire(p);
    assert b == [p.code, p.id] + Net16(p.length) + [p.num] + p.data;
  }

  /** A legacy type that is accepted. */
  predicate Legacy(b: seq<byte>) { |b| >= 5 && 1 <= b[4] <= 55 && b[4] != 2 }

  /** An expanded type of vendor 0 that stands for a legacy one, with type data after it. */
  predicate Expanded(b: seq<byte>, len: nat) {
    len >= 13 && |b| >= 13 && b[4] == 254 && b[5..11] == [0, 0, 0, 0, 0, 0] && 1 <= b[11] <= 55 && b[11] != 3
  }

  /** What is accepted: a request or response of at least five octets, as long as stated or longer, of such a type. */
  lemma ValidExactly(b: seq<byte>)
    ensures ValidEap(b) <==>
      && |b| >= 5 && (b[0] == 1 || b[0] == 2) && 5 <= U16(b[2], b[3]) <= |b|
      && (Legacy(b) || Expanded(b, U16(b[2], b[3])))
  {
    hide U16;
    if |b| >= 13 {
      var v := b[5..11];
      assert v[0] == b[5] && v[1] == b[6] && v[2] == b[7] && v[3] == b[8] && v[4] == b[9] && v[5] == b[10];
    }
  }

  /** A list of attributes is accepted if and only if its octets are such a packet of exactly the stated length. */
  lemma ReassembledExactly(vps: seq<seq<byte>>)
    ensures Reassembled(vps).Some? <==>
      && vps != [] && |vps[0]| >= 4
      && var b := Flatten(vps);
         && |b| >= 5 && (b[0] == 1 || b[0] == 2) && U16(b[2], b[3]) == |b|
         && (Legacy(b) || Expanded(b, |b|))
  {
    ValidExactly(Flatten(vps));
    hide ValidEap, U16, Flatten;
  }

  /**
    Four-stage round trip: wire format, split, reassembly and parse give back the same packet,
    if and only if its type is a known one other than Notification.
   */
  lemma FourStageRoundTrip(p: Packet, vps: seq<seq<byte>>)
    requires Sendable(p)
    requires IsSplit(Wire(p), vps)
    ensures Received(vps) == Some(p) <==> 1 <= p.num <= 55 && p.num != 2
  {
    var b := Wire(p);
    SplitHeader(b, vps);
    WireFields(p);
    if ValidEap(b) && p.num == EXPANDED {
      assert Collapse(b)[4] == b[11];
    }
  }

  /** The same packet with its type written in the vendor-0 expanded form. */
  function Expand(p: Packet): Packet {
    p.(num := EXPANDED, data := [0, 0, 0, 0, 0, 0, p.num] + p.data, length := p.length + 7)
  }

  /**
    A vendor-0 expanded packet becomes exactly the octets of the legacy packet, if and only if its
    type is known, is not Nak, and some type data follows it.
   */
  lemma ExpandedCollapsesToLegacy(p: Packet, vps: seq<seq<byte>>)
    requires Sendable(p) && Sendable(Expand(p))
    requires IsSplit(Wire(Expand(p)), vps)
    ensures Reassembled(vps) == Some(Wire(p)) <==> 1 <= p.num <= 55 && p.num != 3 && p.data != []
  {
    var e := Wire(Expand(p));
    SplitHeader(e, vps);
    WireFields(Expand(p));
    ghost var d := Expand(p).data;
    assert forall i :: 0 <= i < |d| ==> e[5..|e|][i] == d[i];
    assert e[11..|e|] == d[6..] == [p.num] + p.data;
    if ValidEap(e) {
      assert Collapse(e) == e[..2] + Net16(p.length) + ([p.num] + p.data) == Wire(p);
    }
  }

  /** What is left of an accepted packet: its length is right, and only its type may still be refused. */
  lemma CollapseShape(b: seq<byte>)
    requires ValidEap(b) && U16(b[2], b[3]) == |b|
    ensures var c := Collapse(b);
      |c| > EAP_HEADER_LEN && U16(c[2], c[3]) == |c| && (ValidEap(c) <==> c[4] != NOTIFICATION) && c[4] != EXPANDED
  {
    hide U16, Net16;
    if b[4] == EXPANDED {
      var c := Collapse(b);
      var field := Net16(|b| - 7);
      assert |c| == |b| - 7 && c[2] == field[0] && c[3] == field[1] && c[4] == b[11];
    }
  }

  /**
    An accepted packet is accepted again unchanged, except that a collapsed Notification, which was
    let through in expanded form, is refused in the legacy form it was given.
   */
  lemma AcceptedAgain(vps: seq<seq<byte>>, again: seq<seq<byte>>)
    requires Reassembled(vps).Some?
    requires IsSplit(Reassembled(vps).value, again)
    ensures Reassembled(again) == Reassembled(vps) <==> Reassembled(vps).value[4] != NOTIFICATION
  {
    hide U16;
    SplitHeader(Reassembled(vps).value, again);
    CollapseShape(Flatten(vps));
    hide ValidEap;
  }
}
