/**
  The raw RADIUS attribute encoder of the attribute test harness (src/bin/unit_test_attribute.c): nested
  TLVs, vendor attributes, extended attributes and the in-place fragmentation of long extended attributes
  (sections 2.1 to 2.3 of RFC 6929). Dotted numbers are sequences of numbers, leaf data is given as octets.
 */
module RawAttribute {
  import opened Bytes

  /** The largest number `decode_attr` lets through; it does not fit an octet. */
  const MAX_ATTR := 256
  const MAX_VENDOR := 16777216
  const VSA := 26

  predicate AttrOk(a: nat) { 0 < a <= MAX_ATTR }
  predicate VendorOk(v: nat) { 0 < v <= MAX_VENDOR }

  function Octet(n: nat): byte { n % 256 }

  // ----- Long extended attributes -----

  /** The most payload one fragment carries after its four-octet header. */
  const FRAGMENT_DATA := 251

  /** The attributes that carry a payload: full ones with the More flag, then one without it. */
  function Fragments(t: byte, x: byte, payload: seq<byte>): (b: seq<byte>)
    ensures |b| >= 4 + |payload|
    decreases |payload|
  {
    if |payload| <= FRAGMENT_DATA then [t, 4 + |payload|, x, 0] + payload
    else [t, 255, x, 128] + payload[..FRAGMENT_DATA] + Fragments(t, x, payload[FRAGMENT_DATA..])
  }

  /** An independent reader: strip the headers while the More flag is set, and join what they carry. */
  function Join(t: byte, x: byte, b: seq<byte>): Option<seq<byte>>
    decreases |b|
  {
    if |b| < 4 || b[0] != t || b[2] != x || b[1] < 4 || b[1] > |b| then None
    else if b[3] == 128 then
      var rest := Join(t, x, b[b[1]..]);
      if b[1] != 255 || rest == None then None else Some(b[4..255] + rest.value)
    else if b[3] != 0 || b[1] != |b| then None
    else Some(b[4..])
  }

  /** Reading the fragments back gives the payload. */
  lemma {:induction false} FragmentsJoin(t: byte, x: byte, payload: seq<byte>)
    ensures Join(t, x, Fragments(t, x, payload)) == Some(payload)
    decreases |payload|
  {
    var b := Fragments(t, x, payload);
    if |payload| <= FRAGMENT_DATA {
      AppendParts([t, 4 + |payload|, x, 0], payload);
    } else {
      var head := [t, 255, x, 128];
      var rest := Fragments(t, x, payload[FRAGMENT_DATA..]);
      assert b == (head + payload[..FRAGMENT_DATA]) + rest;
      AppendParts(head + payload[..FRAGMENT_DATA], rest);
      AppendParts(head, payload[..FRAGMENT_DATA]);
      assert b[4..255] == b[..255][4..];
      assert payload == payload[..FRAGMENT_DATA] + payload[FRAGMENT_DATA..];
      FragmentsJoin(t, x, payload[FRAGMENT_DATA..]);
    }
  }

  /** How many fragments a payload takes. */
  function FragmentCount(n: nat): nat { if n == 0 then 1 else (n + FRAGMENT_DATA - 1) / FRAGMENT_DATA }

  lemma {:induction false} FragmentsLength(t: byte, x: byte, payload: seq<byte>)
    ensures |Fragments(t, x, payload)| == |payload| + 4 * FragmentCount(|payload|)
    decreases |payload|
  {
    if |payload| > FRAGMENT_DATA {
      FragmentsLength(t, x, payload[FRAGMENT_DATA..]);
    }
  }

  /**
    `encode_long_extended` only sees to it that one header and the data fit the `outlen` octets it is given. The
    fragments stay within them if and only if the repeated headers fit too, so that the check is enough by itself
    if and only if there is one fragment.
   */
  lemma CheckedRoomSuffices(t: byte, x: byte, payload: seq<byte>, outlen: nat)
    requires 4 + |payload| <= outlen
    ensures |Fragments(t, x, payload)| <= outlen <==> 4 * FragmentCount(|payload|) <= outlen - |payload|
    ensures |Fragments(t, x, payload)| <= 4 + |payload| <==> |payload| <= FRAGMENT_DATA
  {
    FragmentsLength(t, x, payload);
  }

  /**
    What one round of the loop of `encode_long_extended` does at `pos`: the `slen` octets that do not fit
    are moved up by four, the header is repeated in the gap, and the first 255 octets are a full fragment.
   */
  ghost predicate SplitAway(b: seq<byte>, c: seq<byte>, pos: nat, slen: nat)
    requires |b| == |c| && pos + 259 + slen <= |b|
  {
    && (forall i :: 0 <= i < pos || pos + 4 <= i < pos + 255 || pos + 259 + slen <= i < |b| ==> c[i] == b[i])
    && c[pos] == b[pos] && c[pos + 1] == 255 && c[pos + 2] == b[pos + 2] && c[pos + 3] == 128
    && c[pos + 255] == b[pos] && c[pos + 256] == 4 && c[pos + 257] == b[pos + 2] && c[pos + 258] == 0
    && (forall i :: pos + 259 <= i < pos + 259 + slen ==> c[i] == b[i - 4])
  }

  method SplitOff(out: array<byte>, pos: nat, slen: nat)
    requires pos + 259 + slen <= out.Length && out[pos + 3] == 0
    modifies out
    ensures SplitAway(old(out[..]), out[..], pos, slen)
  {
    forall i | 0 <= i < slen {
      out[pos + 259 + i] := out[pos + 255 + i];
    }
    forall i | 0 <= i < 4 {
      out[pos + 255 + i] := out[pos + i];
    }
    out[pos + 1] := 255;
    out[pos + 3] := out[pos + 3] + 128;
    out[pos + 256] := 4;
  }

  /** At `pos` there is a header whose length counts `h` octets of the payload that follows it. */
  predicate Pending(b: seq<byte>, pos: nat, t: byte, h: nat, x: byte, payload: seq<byte>) {
    && (h == 0 || h == 5)
    && pos + 4 + |payload| <= |b|
    && b[pos] == t && b[pos + 1] == 4 + h && b[pos + 2] == x && b[pos + 3] == 0
    && forall i :: 0 <= i < |payload| ==> b[pos + 4 + i] == payload[i]
  }

  /** At `pos` there are the octets `part`. */
  predicate At(b: seq<byte>, pos: nat, part: seq<byte>) {
    pos + |part| <= |b| && forall i :: 0 <= i < |part| ==> b[pos + i] == part[i]
  }

  /** A round makes one fragment, and leaves the rest of the payload behind a header of its own. */
  lemma SplitStep(b: seq<byte>, c: seq<byte>, pos: nat, slen: nat, t: byte, h: nat, x: byte,
                  rest: seq<byte>, done: seq<byte>)
    requires |b| == |c| && Pending(b, pos, t, h, x, rest) && At(b, 0, done) && pos == |done|
    requires |rest| == FRAGMENT_DATA + slen && slen > 0 && pos + 259 + slen <= |b|
    requires SplitAway(b, c, pos, slen)
    ensures Pending(c, pos + 255, t, 0, x, rest[FRAGMENT_DATA..])
    ensures At(c, 0, done + ([t, 255, x, 128] + rest[..FRAGMENT_DATA]))
  {
    var piece := [t, 255, x, 128] + rest[..FRAGMENT_DATA];
    forall i | 0 <= i < |piece|
      ensures c[pos + i] == piece[i]
    {
      if i >= 4 {
        assert piece[i] == rest[i - 4] == b[pos + 4 + (i - 4)];
      }
    }
    var left := rest[FRAGMENT_DATA..];
    forall i | 0 <= i < |left|
      ensures c[pos + 255 + 4 + i] == left[i]
    {
      assert c[pos + 259 + i] == b[pos + 259 + i - 4] == b[pos + 4 + (FRAGMENT_DATA + i)];
    }
  }

  /** The last round only completes the length. */
  lemma LastStep(b: seq<byte>, pos: nat, t: byte, h: nat, x: byte, rest: seq<byte>, done: seq<byte>)
    requires Pending(b, pos, t, h, x, rest) && At(b, 0, done) && pos == |done| && |rest| <= FRAGMENT_DATA
    ensures At(b[pos + 1 := 4 + |rest|], 0, done + Fragments(t, x, rest))
    ensures |Fragments(t, x, rest)| == 4 + |rest|
  {
    var c, piece := b[pos + 1 := 4 + |rest|], [t, 4 + |rest|, x, 0] + rest;
    assert Fragments(t, x, rest) == piece;
    forall i | 0 <= i < |piece|
      ensures c[pos + i] == piece[i]
    {
      if i >= 4 {
        assert piece[i] == rest[i - 4] == b[pos + 4 + (i - 4)];
      }
    }
  }

  /**
    `encode_long_extended` from the point where the header and the data are in the buffer. In place, header
    and data become the fragments of the payload; nothing after them is touched. The loop knows no end of the
    buffer: it stays within a given number of octets if and only if the total does.
   */
  method FragmentInPlace(out: array<byte>, len: nat, ghost t: byte, ghost x: byte, ghost h: nat,
                         ghost payload: seq<byte>)
    returns (total: nat)
    requires Pending(out[..], 0, t, h, x, payload) && len == |payload| - h > 0
    requires |Fragments(t, x, payload)| <= out.Length
    modifies out
    ensures total == |Fragments(t, x, payload)| && At(out[..], 0, Fragments(t, x, payload))
    ensures forall i :: total <= i < out.Length ==> out[i] == old(out[i])
  {
    hide Fragments, At;
    ghost var head, rest, done := h, payload, [];
    NothingAt(out[..]);
    assert [] + Fragments(t, x, payload) == Fragments(t, x, payload);
    var pos: nat, slen: nat := 0, len;
    total := 0;
    while true
      invariant pos == |done| == total && At(out[..], 0, done)
      invariant Pending(out[..], pos, t, head, x, rest) && slen == |rest| - head > 0
      invariant done + Fragments(t, x, rest) == Fragments(t, x, payload)
      invariant forall i :: |Fragments(t, x, payload)| <= i < out.Length ==> out[i] == old(out[i])
      decreases |rest|
    {
      var sublen := 255 - out[pos + 1];
      if slen <= sublen {
        LastStep(out[..], pos, t, head, x, rest, done);
        out[pos + 1] := out[pos + 1] + slen;
        total := total + out[pos + 1];
        break;
      }
      slen := slen - sublen;
      ghost var b := out[..];
      FragmentsUnfold(t, x, rest, done);
      SplitOff(out, pos, slen);
      SplitStep(b, out[..], pos, slen, t, head, x, rest, done);
      done := done + ([t, 255, x, 128] + rest[..FRAGMENT_DATA]);
      head, rest := 0, rest[FRAGMENT_DATA..];
      pos, total := pos + 255, total + 255;
    }
  }

  lemma AtAppend(b: seq<byte>, pos: nat, first: seq<byte>, second: seq<byte>)
    requires At(b, pos, first) && At(b, pos + |first|, second)
    ensures At(b, pos, first + second)
  {
    forall i | 0 <= i < |first + second|
      ensures b[pos + i] == (first + second)[i]
    {
      if i >= |first| {
        assert b[pos + |first| + (i - |first|)] == second[i - |first|];
      }
    }
  }

  /** What stands in a stretch of the buffer still stands there if that stretch was not written. */
  lemma AtKept(b: seq<byte>, c: seq<byte>, pos: nat, part: seq<byte>)
    requires At(b, pos, part) && |b| == |c| && forall i :: pos <= i < pos + |part| ==> c[i] == b[i]
    ensures At(c, pos, part)
  {
  }

  lemma AtOne(b: seq<byte>, pos: nat)
    requires pos < |b|
    ensures At(b, pos, [b[pos]])
  {
  }

  lemma AtTwo(b: seq<byte>, pos: nat)
    requires pos + 1 < |b|
    ensures At(b, pos, [b[pos], b[pos + 1]])
  {
  }

  lemma NothingAt(b: seq<byte>)
    ensures At(b, 0, [])
  {
  }

  lemma FragmentsUnfold(t: byte, x: byte, rest: seq<byte>, done: seq<byte>)
    requires |rest| > FRAGMENT_DATA
    ensures |Fragments(t, x, rest)| == 255 + |Fragments(t, x, rest[FRAGMENT_DATA..])|
    ensures done + Fragments(t, x, rest)
         == done + ([t, 255, x, 128] + rest[..FRAGMENT_DATA]) + Fragments(t, x, rest[FRAGMENT_DATA..])
  {
    var piece, more := [t, 255, x, 128] + rest[..FRAGMENT_DATA], Fragments(t, x, rest[FRAGMENT_DATA..]);
    assert Fragments(t, x, rest) == piece + more;
    Associate(done, piece, more);
  }

  // ----- Nested TLVs -----

  /** A dotted attribute as nested TLVs, outermost first; every length covers all that is inside. */
  function Nested(oid: seq<nat>, data: seq<byte>): (b: seq<byte>)
    requires 2 * |oid| + |data| <= 255
    ensures |b| == 2 * |oid| + |data|
  {
    if oid == [] then data else [Octet(oid[0]), 2 * |oid| + |data|] + Nested(oid[1..], data)
  }

  predicate NestedOk(oid: seq<nat>, data: seq<byte>) {
    (forall i :: 0 <= i < |oid| ==> AttrOk(oid[i])) && data != [] && 2 * |oid| + |data| <= 255
  }

  /** Nested TLVs are accepted with some data, numbers in range, and a length that fits its octet. */
  lemma NestedExactly(oid: seq<nat>, data: seq<byte>)
    ensures NestedOk(oid, data) <==>
      |data| >= 1 && 2 * |oid| + |data| < 256 && forall i :: 0 <= i < |oid| ==> 1 <= oid[i] <= 256
  {
  }

  /** An independent reader of `depth` levels, each of which must fill its parent. */
  function Unnest(b: seq<byte>, depth: nat): Option<(seq<nat>, seq<byte>)>
    decreases depth
  {
    if depth == 0 then Some(([], b))
    else if |b| < 2 || b[1] != |b| then None
    else
      var inner := Unnest(b[2..], depth - 1);
      if inner == None then None else Some(([b[0]] + inner.value.0, inner.value.1))
  }

  /** The numbers as they fit an octet each. */
  function Octets(oid: seq<nat>): (r: seq<nat>)
    ensures |r| == |oid|
  {
    if oid == [] then [] else [Octet(oid[0])] + Octets(oid[1..])
  }

  lemma {:induction false} OctetsExact(oid: seq<nat>)
    ensures Octets(oid) == oid <==> forall i :: 0 <= i < |oid| ==> oid[i] < 256
  {
    if oid != [] {
      OctetsExact(oid[1..]);
      assert oid == [oid[0]] + oid[1..];
      assert Octets(oid)[1..] == Octets(oid[1..]);
      assert (forall i :: 0 <= i < |oid| ==> oid[i] < 256)
        <==> oid[0] < 256 && forall i :: 0 <= i < |oid[1..]| ==> oid[1..][i] < 256;
    }
  }

  /** Reading back gives the data, and the numbers as far as they fit an octet. */
  lemma {:induction false} NestedReadsBack(oid: seq<nat>, data: seq<byte>)
    requires 2 * |oid| + |data| <= 255
    ensures Unnest(Nested(oid, data), |oid|) == Some((Octets(oid), data))
  {
    if oid != [] {
      AppendParts([Octet(oid[0]), 2 * |oid| + |data|], Nested(oid[1..], data));
      NestedReadsBack(oid[1..], data);
    }
  }

  /** The length octet of level `k` is that of the outermost level less two for each level between. */
  lemma {:induction false} LevelLength(oid: seq<nat>, data: seq<byte>, k: nat)
    requires 2 * |oid| + |data| <= 255 && k < |oid|
    ensures Nested(oid, data)[2 * k + 1] == Nested(oid, data)[1] - 2 * k == |Nested(oid, data)| - 2 * k
  {
    if k > 0 {
      LevelLength(oid[1..], data, k - 1);
    }
  }

  /** `encode_data`, for leaf data: refused when it would pass `end`, though the octets up to there are written. */
  method WriteData(out: array<byte>, off: nat, end: nat, data: seq<byte>) returns (n: nat)
    requires off <= end <= out.Length
    modifies out
    ensures n > 0 <==> data != [] && off + |data| <= end
    ensures n > 0 ==> n == |data| && At(out[..], off, data)
    ensures forall i :: 0 <= i < out.Length && (i < off || off + |data| <= i || end <= i) ==> out[i] == old(out[i])
  {
    for i := 0 to |data|
      invariant off + i <= end && At(out[..], off, data[..i])
      invariant forall k :: 0 <= k < out.Length && (k < off || off + i <= k) ==> out[k] == old(out[k])
    {
      if off + i >= end {
        return 0;
      }
      out[off + i] := data[i];
    }
    assert data[..|data|] == data;
    n := |data|;
  }

  /** `encode_tlv`: the length octet is completed after the inner levels are in place. */
  method EncodeTlv(out: array<byte>, off: nat, end: nat, oid: seq<nat>, data: seq<byte>) returns (n: nat)
    requires oid != [] && off + 2 * |oid| <= end <= out.Length
    modifies out
    ensures n > 0 <==> NestedOk(oid, data) && off + 2 * |oid| + |data| <= end
    ensures n > 0 ==> n == 2 * |oid| + |data| && At(out[..], off, Nested(oid, data)) && out[off + 1] == n
    ensures forall i :: 0 <= i < out.Length && (i < off || end <= i) ==> out[i] == old(out[i])
    decreases |oid|
  {
    if !AttrOk(oid[0]) {
      return 0;
    }
    out[off], out[off + 1] := Octet(oid[0]), 2;
    var slen: nat;
    if |oid| > 1 {
      slen := EncodeTlv(out, off + 2, end, oid[1..], data);
    } else {
      slen := WriteData(out, off + 2, end, data);
    }
    if slen == 0 {
      return 0;
    }
    if slen > 255 - 2 {
      return 0;
    }
    assert |oid| == 1 ==> Nested(oid[1..], data) == data;
    ghost var inner := out[..];
    out[off + 1] := out[off + 1] + slen;
    KeptBehind(inner, out[..], off, Nested(oid[1..], data));
    NestedStep(out[..], off, oid, data);
    return slen + 2;
  }

  lemma NestedStep(b: seq<byte>, off: nat, oid: seq<nat>, data: seq<byte>)
    requires oid != [] && 2 * |oid| + |data| <= 255 && off + 2 <= |b|
    requires b[off] == Octet(oid[0]) && b[off + 1] == 2 * |oid| + |data|
    requires At(b, off + 2, Nested(oid[1..], data))
    ensures At(b, off, Nested(oid, data))
  {
    NestedUnfold(oid, data);
    hide Octet, At, Nested;
    var head: seq<byte> := [b[off], b[off + 1]];
    AtTwo(b, off);
    AtAppend(b, off, head, Nested(oid[1..], data));
  }

  lemma NestedUnfold(oid: seq<nat>, data: seq<byte>)
    requires oid != [] && 2 * |oid| + |data| <= 255
    ensures Nested(oid, data) == [Octet(oid[0]), 2 * |oid| + |data|] + Nested(oid[1..], data)
  {
  }

  lemma KeptBehind(inner: seq<byte>, b: seq<byte>, off: nat, rest: seq<byte>)
    requires |inner| == |b| && At(inner, off + 2, rest)
    requires forall i :: 0 <= i < |b| && i != off + 1 ==> b[i] == inner[i]
    ensures At(b, off + 2, rest)
  {
    AtKept(inner, b, off + 2, rest);
  }

  // ----- Vendor and extended attributes -----

  /** A vendor number in three octets after a zero octet. */
  function VendorOctets(v: nat): (b: seq<byte>)
    ensures |b| == 4
  {
    [0, v / 65536 % 256] + Net16(v)
  }

  function VendorFrom(b: seq<byte>): nat
    requires |b| >= 4
  {
    var high: nat := b[1];
    high * 65536 + U16(b[2], b[3])
  }

  lemma VendorExact(v: nat)
    requires VendorOk(v)
    ensures VendorFrom(VendorOctets(v)) == v <==> v < MAX_VENDOR
  {
    hide U16, Net16;
    var b, low := VendorOctets(v), Net16(v);
    assert b[2] == low[0] && b[3] == low[1];
    assert VendorFrom(b) == v / 65536 % 256 * 65536 + v % 65536;
    if v < MAX_VENDOR {
      assert v / 65536 < 256;
    }
  }

  /** The value of a Vendor-Specific attribute: the vendor, then its attribute as nested TLVs. */
  function VsaValue(oid: seq<nat>, data: seq<byte>): (r: Option<seq<byte>>)
    ensures r.Some? ==> 4 < |r.value| <= 255 - 2
  {
    if |oid| < 2 || !VendorOk(oid[0]) || !NestedOk(oid[1..], data) || 2 * |oid[1..]| + |data| > 255 - 6 then None
    else Some(VendorOctets(oid[0]) + Nested(oid[1..], data))
  }

  /** The value of an extended Vendor-Specific attribute: the vendor, its attribute number, the data. */
  function EvsValue(oid: seq<nat>, data: seq<byte>): Option<seq<byte>> {
    if |oid| != 2 || !VendorOk(oid[0]) || !AttrOk(oid[1]) || data == [] then None
    else Some(VendorOctets(oid[0]) + [Octet(oid[1])] + data)
  }

  /** What follows the extended type: plain data, or a vendor attribute for type 26. */
  function ExtendedData(oid: seq<nat>, data: seq<byte>): Option<seq<byte>> {
    if |oid| < 1 || !AttrOk(oid[0]) then None
    else if oid[0] == VSA then EvsValue(oid[1..], data)
    else if |oid| != 1 || data == [] then None
    else Some(data)
  }

  /** The octets of an attribute given by its dotted number and its data, or nothing when it is refused. */
  function Encoded(oid: seq<nat>, data: seq<byte>): Option<seq<byte>> {
    if |oid| < 1 || !AttrOk(oid[0]) then None
    else
      var t := Octet(oid[0]);
      if oid[0] == VSA then
        var v := VsaValue(oid[1..], data);
        if v == None then None else Some([t, 2 + |v.value|] + v.value)
      else if oid[0] < 241 || oid[0] > 246 then
        if |oid| != 1 || data == [] || |data| > 255 - 2 then None else Some([t, 2 + |data|] + data)
      else
        var d := ExtendedData(oid[1..], data);
        if d == None then None
        else if oid[0] < 245 then
          if |d.value| > 255 - 3 then None else Some([t, 3 + |d.value|, Octet(oid[1])] + d.value)
        else
          Some(Fragments(t, Octet(oid[1]), d.value))
  }

  /** An independent reader of one encoded attribute with a dotted number of `depth` parts. */
  function Read(b: seq<byte>, depth: nat): Option<(seq<nat>, seq<byte>)> {
    if |b| < 3 || depth < 1 then None
    else if b[0] == VSA then
      if |b| < 6 || depth < 2 || b[1] != |b| then None
      else
        var inner := Unnest(b[6..], depth - 2);
        if inner == None then None else Some(([b[0], VendorFrom(b[2..])] + inner.value.0, inner.value.1))
    else if b[0] < 241 || b[0] > 246 then
      if b[1] != |b| then None else Some(([b[0]], b[2..]))
    else
      var d := if b[0] >= 245 then Join(b[0], b[2], b) else if b[1] == |b| then Some(b[3..]) else None;
      if d == None then None
      else if b[2] == VSA then
        if |d.value| < 5 then None else Some(([b[0], b[2], VendorFrom(d.value), d.value[4]], d.value[5..]))
      else
        Some(([b[0], b[2]], d.value))
  }

  /** Every number of the dotted number fits the octets it is written to. */
  predicate Fits(oid: seq<nat>)
    requires |oid| >= 1
  {
    if oid[0] == VSA then |oid| > 1 ==> oid[1] < MAX_VENDOR && forall i :: 2 <= i < |oid| ==> oid[i] < 256
    else if oid[0] < 241 || oid[0] > 246 || |oid| < 2 then oid[0] < 256
    else if oid[1] == VSA && |oid| == 4 then oid[2] < MAX_VENDOR && oid[3] < 256
    else oid[1] < 256
  }

  lemma VsaReadsBack(oid: seq<nat>, data: seq<byte>)
    requires VsaValue(oid, data).Some?
    ensures var v := VsaValue(oid, data).value;
      Unnest(v[4..], |oid| - 1) == Some((Octets(oid[1..]), data)) && VendorFrom(v) == VendorFrom(VendorOctets(oid[0]))
  {
    AppendParts(VendorOctets(oid[0]), Nested(oid[1..], data));
    NestedReadsBack(oid[1..], data);
  }

  lemma EvsReadsBack(oid: seq<nat>, data: seq<byte>)
    requires EvsValue(oid, data).Some?
    ensures var v := EvsValue(oid, data).value;
      |v| > 5 && VendorFrom(v) == VendorFrom(VendorOctets(oid[0])) && v[4] == Octet(oid[1]) && v[5..] == data
  {
    AppendParts(VendorOctets(oid[0]) + [Octet(oid[1])], data);
  }

  /** A Vendor-Specific attribute reads back as it was given if and only if its numbers fit. */
  lemma VsaRoundTrip(oid: seq<nat>, data: seq<byte>)
    requires |oid| > 1 && oid[0] == VSA && Encoded(oid, data).Some?
    ensures Read(Encoded(oid, data).value, |oid|) == Some((oid, data)) <==> Fits(oid)
  {
    hide Unnest, Nested, VendorFrom, VendorOctets;
    var b, v, sub := Encoded(oid, data).value, VsaValue(oid[1..], data).value, oid[1..][1..];
    assert b == [VSA as byte, 2 + |v|] + v;
    AppendParts([VSA as byte, 2 + |v|], v);
    VsaReadsBack(oid[1..], data);
    assert b[6..] == b[2..][4..];
    VendorExact(oid[1]);
    OctetsExact(sub);
    assert oid == [oid[0], oid[1]] + sub;
    var read := [VSA, VendorFrom(b[2..])] + Octets(sub);
    assert read[2..] == Octets(sub) && oid[2..] == sub;
    assert (forall i :: 2 <= i < |oid| ==> oid[i] < 256) <==> (forall i :: 0 <= i < |sub| ==> sub[i] < 256);
  }

  /** An extended or long extended attribute reads back as it was given if and only if its numbers fit. */
  lemma ExtendedRoundTrip(oid: seq<nat>, data: seq<byte>)
    requires |oid| > 1 && 241 <= oid[0] <= 246 && Encoded(oid, data).Some?
    ensures Read(Encoded(oid, data).value, |oid|) == Some((oid, data)) <==> Fits(oid)
  {
    hide VendorFrom, VendorOctets, Join, Fragments;
    var b, d := Encoded(oid, data).value, ExtendedData(oid[1..], data).value;
    var t, x := Octet(oid[0]), Octet(oid[1]);
    if oid[0] >= 245 {
      FragmentsJoin(t, x, d);
      FragmentsHead(t, x, d);
    } else {
      AppendParts([t, 3 + |d|, x], d);
    }
    if oid[1] == VSA {
      EvsReadsBack(oid[2..], data);
      VendorExact(oid[2]);
      assert oid[1..][1..] == oid[2..];
      assert oid == [oid[0], oid[1], oid[2], oid[3]];
    } else {
      assert oid == [oid[0], oid[1]];
    }
  }

  lemma FragmentsHead(t: byte, x: byte, payload: seq<byte>)
    ensures Fragments(t, x, payload)[0] == t && Fragments(t, x, payload)[2] == x
  {
  }

  /**
    An attribute reads back as it was given, data and every part of its number, if and only if each part
    fits its octets: the checks of `decode_attr` and `decode_vendor` let one number too many through.
   */
  lemma EncodedRoundTrip(oid: seq<nat>, data: seq<byte>)
    requires Encoded(oid, data).Some?
    ensures |oid| >= 1 && (Read(Encoded(oid, data).value, |oid|) == Some((oid, data)) <==> Fits(oid))
  {
    if oid[0] == VSA {
      VsaRoundTrip(oid, data);
    } else if 241 <= oid[0] <= 246 {
      ExtendedRoundTrip(oid, data);
    } else {
      AppendParts([Octet(oid[0]), 2 + |data|], data);
      assert oid == [oid[0]];
    }
  }

  predicate Number(n: nat) { 1 <= n <= 256 }

  predicate Vendor(n: nat) { 1 <= n <= 16777216 }

  /** The octets that an accepted attribute takes behind its two octets of type and length, with one header. */
  function Taken(oid: seq<nat>, data: seq<byte>): nat
    requires |oid| >= 1
  {
    if oid[0] == 26 then 4 + 2 * (if |oid| >= 2 then |oid| - 2 else 0) + |data|
    else if oid[0] < 241 || oid[0] > 246 then |data|
    else (if oid[0] < 245 then 1 else 2) + (if |oid| >= 2 && oid[1] == 26 then 5 else 0) + |data|
  }

  /** What is accepted: a dotted number of the right shape and range, with data, that fits one attribute unless long. */
  predicate Acceptable(oid: seq<nat>, data: seq<byte>) {
    && |oid| >= 1 && Number(oid[0]) && data != []
    && (oid[0] < 245 || oid[0] > 246 ==> Taken(oid, data) <= 253)
    && if oid[0] == 26 then |oid| >= 3 && Vendor(oid[1]) && forall i :: 2 <= i < |oid| ==> Number(oid[i])
       else if oid[0] < 241 || oid[0] > 246 then |oid| == 1
       else
         && |oid| >= 2 && Number(oid[1])
         && if oid[1] == 26 then |oid| == 4 && Vendor(oid[2]) && Number(oid[3]) else |oid| == 2
  }

  lemma VsaAcceptable(oid: seq<nat>, data: seq<byte>)
    requires |oid| >= 1 && oid[0] == VSA
    ensures VsaValue(oid[1..], data).Some? <==> Acceptable(oid, data)
    ensures VsaValue(oid[1..], data).Some? ==> |VsaValue(oid[1..], data).value| == Taken(oid, data)
  {
    if |oid| >= 2 {
      var sub := oid[1..][1..];
      assert |sub| == |oid| - 2 && forall i :: 0 <= i < |sub| ==> sub[i] == oid[i + 2];
      assert (forall i :: 0 <= i < |sub| ==> AttrOk(sub[i])) <==> forall i :: 2 <= i < |oid| ==> Number(oid[i]) by {
        assert forall i :: 2 <= i < |oid| ==> oid[i] == sub[i - 2];
      }
    }
  }

  lemma ExtendedAcceptable(oid: seq<nat>, data: seq<byte>)
    requires |oid| >= 1 && 241 <= oid[0] <= 246
    ensures var d := ExtendedData(oid[1..], data);
      && (Acceptable(oid, data) <==> d.Some? && (oid[0] < 245 ==> |d.value| <= 252))
      && (d.Some? ==> Taken(oid, data) == |d.value| + if oid[0] < 245 then 1 else 2)
  {
    if |oid| >= 2 {
      assert oid[1..][1..] == oid[2..];
    }
  }

  /** An attribute is encoded if and only if it is acceptable. */
  lemma EncodedExactly(oid: seq<nat>, data: seq<byte>)
    ensures Encoded(oid, data).Some? <==> Acceptable(oid, data)
  {
    hide VsaValue, ExtendedData, Fragments;
    if |oid| >= 1 {
      if oid[0] == VSA {
        VsaAcceptable(oid, data);
      } else if 241 <= oid[0] <= 246 {
        ExtendedAcceptable(oid, data);
      }
    }
  }

  /** What is returned for an attribute that is not long extended is its own length octet. */
  lemma ReturnIsLengthOctet(oid: seq<nat>, data: seq<byte>)
    requires Encoded(oid, data).Some? && oid[0] != 245 && oid[0] != 246
    ensures var b := Encoded(oid, data).value; |b| == b[1] <= 255
  {
  }

  // ----- The encoders -----

  /** The octets of headers that are written without a look at the room there is. */
  function VsaHeaders(oid: seq<nat>): nat { if |oid| < 2 then 0 else 4 + 2 * (|oid| - 1) }

  function EvsHeaders(oid: seq<nat>): nat { if |oid| != 2 then 0 else 5 }

  function ExtendedHeaders(oid: seq<nat>): nat {
    if |oid| >= 1 && oid[0] == VSA then EvsHeaders(oid[1..]) else 0
  }

  function Headers(oid: seq<nat>): nat {
    if |oid| < 1 then 0
    else if oid[0] == VSA then 2 + VsaHeaders(oid[1..])
    else if oid[0] < 241 || oid[0] > 246 then 2
    else if oid[0] < 245 then 3 + ExtendedHeaders(oid[1..])
    else 4 + ExtendedHeaders(oid[1..])
  }

  /** An attribute that is accepted and passes the checks on the room: a long one needs only its first header. */
  predicate Fitting(oid: seq<nat>, data: seq<byte>, outlen: nat) {
    && Encoded(oid, data).Some?
    && if 245 <= oid[0] <= 246 then 4 + |ExtendedData(oid[1..], data).value| <= outlen
       else |Encoded(oid, data).value| <= outlen
  }

  /** It passes the checks on the room if and only if, beside, type, length and the rest fit the octets given. */
  lemma FittingExactly(oid: seq<nat>, data: seq<byte>, outlen: nat)
    ensures Fitting(oid, data, outlen) <==> Acceptable(oid, data) && 2 + Taken(oid, data) <= outlen
  {
    EncodedExactly(oid, data);
    hide VsaValue, ExtendedData, Fragments;
    if Encoded(oid, data).Some? {
      if oid[0] == VSA {
        VsaAcceptable(oid, data);
      } else if 241 <= oid[0] <= 246 {
        ExtendedAcceptable(oid, data);
      }
    }
  }

  /** Only the octets from `off` to `end` may have changed. */
  twostate predicate KeepsOutside(out: array<byte>, off: nat, end: nat)
    reads out
  {
    forall i :: 0 <= i < out.Length && (i < off || end <= i) ==> out[i] == old(out[i])
  }

  method WriteVendor(out: array<byte>, off: nat, v: nat)
    requires off + 4 <= out.Length
    modifies out
    ensures At(out[..], off, VendorOctets(v))
    ensures forall i :: 0 <= i < out.Length && (i < off || off + 4 <= i) ==> out[i] == old(out[i])
  {
    var low := Net16(v);
    out[off], out[off + 1], out[off + 2], out[off + 3] := 0, v / 65536 % 256, low[0], low[1];
  }

  /** `encode_vsa` */
  method EncodeVsa(out: array<byte>, off: nat, end: nat, oid: seq<nat>, data: seq<byte>) returns (n: nat)
    requires off + VsaHeaders(oid) <= end <= out.Length
    modifies out
    ensures n > 0 <==> VsaValue(oid, data).Some? && off + |VsaValue(oid, data).value| <= end
    ensures n > 0 ==> n == |VsaValue(oid, data).value| && At(out[..], off, VsaValue(oid, data).value)
    ensures KeepsOutside(out, off, end)
  {
    if |oid| < 2 || !VendorOk(oid[0]) {
      return 0;
    }
    hide At, VendorOctets, Nested;
    WriteVendor(out, off, oid[0]);
    ghost var b := out[..];
    var slen := EncodeTlv(out, off + 4, end, oid[1..], data);
    if slen == 0 || slen > 255 - 6 {
      return 0;
    }
    AtKept(b, out[..], off, VendorOctets(oid[0]));
    AtAppend(out[..], off, VendorOctets(oid[0]), Nested(oid[1..], data));
    return slen + 4;
  }

  /** `encode_evs` */
  method EncodeEvs(out: array<byte>, off: nat, end: nat, oid: seq<nat>, data: seq<byte>) returns (n: nat)
    requires off + EvsHeaders(oid) <= end <= out.Length
    modifies out
    ensures n > 0 <==> EvsValue(oid, data).Some? && off + |EvsValue(oid, data).value| <= end
    ensures n > 0 ==> n == |EvsValue(oid, data).value| && At(out[..], off, EvsValue(oid, data).value)
    ensures KeepsOutside(out, off, end)
  {
    if |oid| != 2 || !VendorOk(oid[0]) || !AttrOk(oid[1]) {
      return 0;
    }
    hide At, VendorOctets, Octet;
    WriteVendor(out, off, oid[0]);
    ghost var b := out[..];
    out[off + 4] := Octet(oid[1]);
    var slen := WriteData(out, off + 5, end, data);
    if slen == 0 {
      return 0;
    }
    AtKept(b, out[..], off, VendorOctets(oid[0]));
    AtOne(out[..], off + 4);
    AtAppend(out[..], off, VendorOctets(oid[0]), [Octet(oid[1])]);
    AtAppend(out[..], off, VendorOctets(oid[0]) + [Octet(oid[1])], data);
    return slen + 5;
  }

  /** `encode_extended`, without its type octet: what `encode_evs` or `encode_data` writes. */
  method EncodeExtendedData(out: array<byte>, off: nat, end: nat, oid: seq<nat>, data: seq<byte>) returns (n: nat)
    requires off + ExtendedHeaders(oid) <= end <= out.Length
    requires |oid| >= 1 && AttrOk(oid[0])
    modifies out
    ensures n > 0 <==> ExtendedData(oid, data).Some? && off + |ExtendedData(oid, data).value| <= end
    ensures n > 0 ==> n == |ExtendedData(oid, data).value| && At(out[..], off, ExtendedData(oid, data).value)
    ensures KeepsOutside(out, off, end)
  {
    if oid[0] == VSA {
      n := EncodeEvs(out, off, end, oid[1..], data);
    } else if |oid| > 1 {
      n := 0;
    } else {
      n := WriteData(out, off, end, data);
    }
  }

  /** `encode_extended` */
  method EncodeExtended(out: array<byte>, off: nat, end: nat, oid: seq<nat>, data: seq<byte>) returns (n: nat)
    requires off + 1 + ExtendedHeaders(oid) <= end <= out.Length
    modifies out
    ensures n > 0 <==> ExtendedData(oid, data).Some? && |ExtendedData(oid, data).value| <= 255 - 3
                       && off + 1 + |ExtendedData(oid, data).value| <= end
    ensures n > 0 ==> n == 1 + |ExtendedData(oid, data).value|
    ensures n > 0 ==> At(out[..], off, [Octet(oid[0])] + ExtendedData(oid, data).value)
    ensures KeepsOutside(out, off, end)
  {
    hide At, Octet;
    if |oid| < 1 || !AttrOk(oid[0]) {
      return 0;
    }
    out[off] := Octet(oid[0]);
    var slen := EncodeExtendedData(out, off + 1, end, oid, data);
    if slen == 0 || slen > 255 - 3 {
      return 0;
    }
    AtOne(out[..], off);
    AtAppend(out[..], off, [Octet(oid[0])], ExtendedData(oid, data).value);
    return slen + 1;
  }

  /**
    `encode_long_extended` at the start of the buffer, whose first octet is the attribute type. It is given
    `outlen` octets and checks the first header and the data against them; the fragments may need more of `out`.
   */
  method EncodeLongExtended(out: array<byte>, outlen: nat, oid: seq<nat>, data: seq<byte>) returns (n: nat)
    requires 4 + ExtendedHeaders(oid) <= outlen <= out.Length
    requires ExtendedData(oid, data).Some? && 4 + |ExtendedData(oid, data).value| <= outlen ==>
      |Fragments(out[0], Octet(oid[0]), ExtendedData(oid, data).value)| <= out.Length
    modifies out
    ensures n > 0 <==> ExtendedData(oid, data).Some? && 4 + |ExtendedData(oid, data).value| <= outlen
    ensures n > 0 ==> n == |Fragments(old(out[0]), Octet(oid[0]), ExtendedData(oid, data).value)|
    ensures n > 0 ==> At(out[..], 0, Fragments(old(out[0]), Octet(oid[0]), ExtendedData(oid, data).value))
    ensures forall i :: outlen <= i < out.Length && n <= i ==> out[i] == old(out[i])
  {
    if |oid| < 1 || !AttrOk(oid[0]) {
      return 0;
    }
    hide At, Pending, Fragments, Octet;
    ghost var t := out[0];
    out[1], out[2], out[3] := 4, Octet(oid[0]), 0;
    var slen := EncodeExtendedData(out, 4, outlen, oid, data);
    if slen == 0 {
      return 0;
    }
    ghost var payload, h, b := ExtendedData(oid, data).value, 0, out[..];
    if oid[0] == VSA {
      out[1] := out[1] + 5;
      slen := slen - 5;
      h := 5;
    }
    AtKept(b, out[..], 4, payload);
    MakePending(out[..], h, payload);
    n := FragmentInPlace(out, slen, t, Octet(oid[0]), h, payload);
  }

  lemma MakePending(b: seq<byte>, h: nat, payload: seq<byte>)
    requires |b| >= 4 && At(b, 4, payload) && (h == 0 || h == 5) && b[1] == 4 + h && b[3] == 0
    ensures Pending(b, 0, b[0], h, b[2], payload)
  {
  }

  lemma HeaderStep(b: seq<byte>, value: seq<byte>)
    requires At(b, 2, value) && |value| <= 255 - 2
    ensures At(b[1 := 2 + |value|], 0, [b[0], 2 + |value|] + value)
  {
    var c := b[1 := 2 + |value|];
    assert At(c, 0, [b[0], 2 + |value|]);
    AtKept(b, c, 2, value);
    AtAppend(c, 0, [b[0], 2 + |value|], value);
  }

  /** `encode_rfc`, given `outlen` octets; only a long extended attribute may go beyond them, by its fragments. */
  method EncodeRfc(out: array<byte>, outlen: nat, oid: seq<nat>, data: seq<byte>) returns (n: nat)
    requires Headers(oid) <= outlen <= out.Length
    requires Fitting(oid, data, outlen) ==> |Encoded(oid, data).value| <= out.Length
    modifies out
    ensures n > 0 <==> Fitting(oid, data, outlen)
    ensures n > 0 ==> n == |Encoded(oid, data).value| && At(out[..], 0, Encoded(oid, data).value)
    ensures forall i :: outlen <= i < out.Length && n <= i ==> out[i] == old(out[i])
  {
    hide At, Octet, Fragments, VsaValue, EvsValue;
    if |oid| < 1 || !AttrOk(oid[0]) {
      return 0;
    }
    out[0], out[1] := Octet(oid[0]), 2;
    var sublen: nat;
    ghost var value := data;
    if oid[0] == VSA {
      sublen := EncodeVsa(out, 2, outlen, oid[1..], data);
      if sublen > 0 {
        value := VsaValue(oid[1..], data).value;
      }
    } else if oid[0] < 241 || oid[0] > 246 {
      if |oid| > 1 {
        return 0;
      }
      sublen := WriteData(out, 2, outlen, data);
    } else {
      if |oid| < 2 {
        return 0;
      }
      if oid[0] < 245 {
        sublen := EncodeExtended(out, 2, outlen, oid[1..], data);
        if sublen > 0 {
          value := [Octet(oid[1])] + ExtendedData(oid[1..], data).value;
        }
      } else {
        n := EncodeLongExtended(out, outlen, oid[1..], data);
        return;
      }
    }
    if sublen == 0 || sublen > 255 - 2 {
      return 0;
    }
    ghost var b := out[..];
    out[1] := out[1] + sublen;
    HeaderStep(b, value);
    assert Encoded(oid, data).value == [Octet(oid[0]), 2 + |value|] + value;
    return 2 + sublen;
  }
}
