/**
  The EAP-SIM/AKA/AKA' attribute decoder (src/lib/eap_aka_sim/decode.c; sections 8.1, 8.2 and 10.12 of
  RFC 4187): a recursive, decrypting parser that may have to look ahead for the initialisation vector.
  The dictionary and the block cipher are parameters.
 */
module AkaDecode {
  import opened Bytes

  const AT_RES: byte := 3
  const AT_PADDING: byte := 6
  const AT_IV: byte := 129
  const AT_CHECKCODE: byte := 134
  const AT_SUBTYPE := 260   // not on the wire
  const SKIPPABLE_MAX: byte := 127
  const IV_SIZE := 16
  const BLOCK := 16

  // ----- Dictionary, context and results -----

  datatype Kind = Octets | Str | Bool | Uint8 | Uint16 | Uint32 | Uint64 | Tlv | Other

  /** A dictionary attribute; `length` is the fixed value length, or 0. */
  datatype Attr = Attr(num: byte, kind: Kind, isArray: bool, length: nat, encrypted: bool, unknown: bool,
                       children: seq<Attr>)

  function Unknown(num: byte): Attr { Attr(num, Octets, false, 0, false, true, []) }

  /** `fr_dict_attr_child_by_num`, and the rule that an unknown attribute may only be skipped above 127. */
  function Lookup(attrs: seq<Attr>, num: byte): (r: Option<Attr>)
    ensures r.None? <==> num <= 127 && forall a :: a in attrs ==> a.num != num
    ensures r.Some? ==> if exists a :: a in attrs && a.num == num then r.value in attrs && r.value.num == num
                        else r.value == Unknown(num)
  {
    if attrs == [] then if num <= SKIPPABLE_MAX then None else Some(Unknown(num))
    else if attrs[0].num == num then Some(attrs[0])
    else Lookup(attrs[1..], num)
  }

  datatype Value = Raw(bytes: seq<byte>) | Data(bytes: seq<byte>) | Flag | Number(n: nat)

  datatype Pair = Pair(num: nat, value: Value)

  /** One decryption: the vector and the ciphertext it was given. */
  datatype Use = Use(iv: seq<byte>, cipher: seq<byte>)

  /** `fr_aka_sim_ctx_t`, with the decryptions done so far. */
  datatype Ctx = Ctx(haveIv: bool, iv: seq<byte>, haveKey: bool, uses: seq<Use>)

  datatype Result = Err | Ok(consumed: nat, ctx: Ctx, pairs: seq<Pair>)

  /** The block cipher with the session key: vector and ciphertext in, plaintext out. */
  type Cipher = (seq<byte>, seq<byte>) -> Option<seq<byte>>

  function AttrSize(k: Kind): nat {
    match k
    case Bool => 2 case Uint8 => 1 case Uint16 => 2 case Uint32 => 4 case Uint64 => 8 case Tlv => 2
    case _ => 0
  }

  /** `fr_aka_sim_octets_prefix_len` */
  function PrefixLen(a: Attr): nat {
    if a.isArray then 0 else if a.length == 0 || a.length % 4 == 0 then 2 else 0
  }

  function ReadNumber(b: seq<byte>): nat {
    if b == [] then 0 else ReadNumber(b[..|b| - 1]) * 256 + b[|b| - 1]
  }

  // ----- The initialisation vector -----

  /** `sim_iv_extract` */
  function IvOf(value: seq<byte>): Option<seq<byte>> {
    if |value| != IV_SIZE + 2 || value[0] != 0 || value[1] != 0 then None else Some(value[2..])
  }

  /** The length in octets that the Length field of an attribute states. */
  function Length(data: seq<byte>): nat
    requires |data| >= 2
  {
    var words: nat := data[1];
    words * 4
  }

  /** An attribute whose length is not zero and that fits in what remains. */
  predicate Framed(data: seq<byte>) {
    |data| >= 2 && 0 < Length(data) <= |data|
  }

  /** The look-ahead of `sim_value_decrypt` over the attributes that follow. */
  function FindIv(data: seq<byte>): Option<seq<byte>>
    decreases |data|
  {
    if |data| < 4 || !Framed(data) then None
    else if data[0] == AT_IV then IvOf(data[2..Length(data)])
    else FindIv(data[Length(data)..])
  }

  method SearchIv(data: seq<byte>) returns (iv: Option<seq<byte>>)
    ensures iv == FindIv(data)
  {
    var p := 0;
    while |data| - p >= 4
      invariant p <= |data| && FindIv(data) == FindIv(data[p..])
      decreases |data| - p
    {
      var at, len := data[p], Length(data[p..]);
      if len == 0 {
        return None;
      }
      if p + len > |data| {
        return None;
      }
      if at == AT_IV {
        assert data[p..][2..len] == data[p + 2..p + len];
        return IvOf(data[p + 2..p + len]);
      }
      assert data[p..][len..] == data[p + len..];
      p := p + len;
    }
    return None;
  }

  /** `sim_value_decrypt`: the plaintext and the context with its vector, or nothing. */
  function Decrypt(dec: Cipher, cipher: seq<byte>, after: seq<byte>, ctx: Ctx): (r: Option<(seq<byte>, Ctx)>)
    ensures r.Some? ==> |r.value.0| == |cipher|
  {
    if |cipher| % BLOCK != 0 then None
    else
      var iv := if ctx.haveIv then Some(ctx.iv) else FindIv(after);
      if iv == None || !ctx.haveKey then None
      else
        var plain := dec(iv.value, cipher);
        if plain == None || |plain.value| != |cipher| then None
        else Some((plain.value, Ctx(true, iv.value, true, ctx.uses + [Use(iv.value, cipher)])))
  }

  // ----- Attribute values -----

  /** An attribute that does not have the form its dictionary entry asks for. */
  function Malformed(a: Attr, value: seq<byte>, ctx: Ctx): Result {
    if a.num <= SKIPPABLE_MAX then Err else Ok(|value|, ctx, [Pair(a.num, Raw(value))])
  }

  function Decoded(a: Attr, value: seq<byte>, ctx: Ctx, v: Value): Result {
    Ok(|value|, ctx, [Pair(a.num, v)])
  }

  /** The values that hold no attributes of their own. */
  function LeafValue(a: Attr, value: seq<byte>, ctx: Ctx): (r: Result)
    requires !a.kind.Tlv?
    ensures r.Ok? ==> r.consumed == |value| && r.ctx == ctx
  {
    match a.kind
    case Str =>
      if |value| < 2 || (a.length > 0 && |value| != a.length) then Malformed(a, value, ctx)
      else if U16(value[0], value[1]) > |value| - 2 then Err
      else Decoded(a, value, ctx, Data(value[2..2 + U16(value[0], value[1])]))
    case Octets =>
      var prefix := PrefixLen(a);
      if |value| < prefix || (a.length > 0 && |value| != a.length + prefix) then Malformed(a, value, ctx)
      else if a.unknown then Decoded(a, value, ctx, Raw(value))
      else if a.length > 0 then Decoded(a, value, ctx, Data(value[prefix..]))
      else if |value| < 2 then Err
      else if U16(value[0], value[1]) > |value| - prefix then Err
      else Decoded(a, value, ctx, Data(value[prefix..prefix + U16(value[0], value[1])]))
    case Bool => if |value| != 2 then Malformed(a, value, ctx) else Decoded(a, value, ctx, Flag)
    case Uint8 | Uint16 | Uint32 | Uint64 =>
      if |value| != AttrSize(a.kind) then Malformed(a, value, ctx)
      else Decoded(a, value, ctx, Number(ReadNumber(value)))
    case Other => Malformed(a, value, ctx)
  }

  predicate AllZero(b: seq<byte>) { forall i :: 0 <= i < |b| ==> b[i] == 0 }

  /** `sim_decode_pair_value`: `value` is the attribute's value, `after` what follows it in its container. */
  function DecodeValue(dec: Cipher, a: Attr, value: seq<byte>, after: seq<byte>, ctx: Ctx): (r: Result)
    ensures r.Ok? ==> r.consumed == |value|
    decreases |value|, 1
  {
    if a.num == AT_RES then
      if |value| < 2 then Err
      else
        var bits := U16(value[0], value[1]);
        if bits % 8 != 0 || bits / 8 > |value| - 2 || bits / 8 < 4 || bits / 8 > 16 then Err
        else Decoded(a, value, ctx, Data(value[2..2 + bits / 8]))
    else if a.num == AT_CHECKCODE then
      if |value| < 2 then Malformed(a, value, ctx) else Decoded(a, value, ctx, Data(value[2..]))
    else if a.num == AT_IV && IvOf(value) == None then Err
    else
      var ctx' := if a.num == AT_IV then ctx.(haveIv := true, iv := IvOf(value).value) else ctx;
      if !a.kind.Tlv? then LeafValue(a, value, ctx')
      else if |value| < 2 then Malformed(a, value, ctx')
      else DecodeTlv(dec, a, value, after, ctx')
  }

  /** `sim_decode_tlv`: decrypt if needed, then decode the attributes inside. */
  function DecodeTlv(dec: Cipher, a: Attr, value: seq<byte>, after: seq<byte>, ctx: Ctx): (r: Result)
    requires |value| >= 2
    ensures r.Ok? ==> r.consumed == |value|
    decreases |value|, 0
  {
    var body := if a.encrypted then Decrypt(dec, value[2..], after, ctx) else Some((value[2..], ctx));
    if body == None then Err
    else
      var inner := DecodeChildren(dec, a, body.value.0, |value| + |after|, body.value.1);
      if inner.Err? then Err else Ok(|value|, inner.ctx, inner.pairs)
  }

  /** One attribute inside a container, and the padding at the end of an encrypted one. */
  function DecodeChild(dec: Cipher, a: Attr, data: seq<byte>, dataLen: nat, ctx: Ctx): (r: Result)
    requires |data| >= 4
    ensures r.Ok? ==> Framed(data) && r.consumed == Length(data)
    decreases |data|, 0
  {
    if !Framed(data) then Err
    else
      var len := Length(data);
      if data[0] == AT_PADDING then
        if a.encrypted && dataLen % 4 != 0 && len <= 12 && AllZero(data[2..len]) then Ok(len, ctx, []) else Err
      else
        var child := Lookup(a.children, data[0]);
        if child == None then Err
        else
          var r := DecodeValue(dec, child.value, data[2..len], data[len..], ctx);
          if r.Err? then Err else Ok(len, r.ctx, r.pairs)
  }

  /** The loop of `sim_decode_tlv`; fewer than four octets at the end are ignored. */
  function DecodeChildren(dec: Cipher, a: Attr, data: seq<byte>, dataLen: nat, ctx: Ctx): (r: Result)
    ensures r.Ok? ==> r.consumed <= |data| < r.consumed + 4
    decreases |data|, 1
  {
    if |data| < 4 then Ok(0, ctx, [])
    else
      var first := DecodeChild(dec, a, data, dataLen, ctx);
      if first.Err? then Err
      else Prefixed(first.consumed, first.pairs, DecodeChildren(dec, a, data[first.consumed..], dataLen, first.ctx))
  }

  /** A result with what was decoded before it. */
  function Prefixed(consumed: nat, pairs: seq<Pair>, r: Result): Result {
    if r.Err? then Err else Ok(consumed + r.consumed, r.ctx, pairs + r.pairs)
  }

  lemma PrefixedTwice(n: nat, p: seq<Pair>, m: nat, q: seq<Pair>, r: Result)
    ensures Prefixed(n, p, Prefixed(m, q, r)) == Prefixed(n + m, p + q, r)
  {
    if r.Ok? {
      Associate(p, q, r.pairs);
    }
  }

  lemma TailOfTail(data: seq<byte>, p: nat, n: nat)
    requires p + n <= |data|
    ensures data[p..][n..] == data[p + n..]
  {
  }

  method ChildrenLoop(dec: Cipher, a: Attr, data: seq<byte>, dataLen: nat, ctx: Ctx) returns (r: Result)
    ensures r == DecodeChildren(dec, a, data, dataLen, ctx)
  {
    hide DecodeChild, Framed, Length;
    var p, c, pairs := 0, ctx, [];
    assert data[0..] == data;
    while |data| - p >= 4
      invariant p <= |data|
      invariant DecodeChildren(dec, a, data, dataLen, ctx)
             == Prefixed(p, pairs, DecodeChildren(dec, a, data[p..], dataLen, c))
      decreases |data| - p
    {
      var ret := DecodeChild(dec, a, data[p..], dataLen, c);
      if ret.Err? {
        return Err;
      }
      assert 0 < ret.consumed <= |data[p..]| by { ChildProgress(dec, a, data[p..], dataLen, c); }
      TailOfTail(data, p, ret.consumed);
      PrefixedTwice(p, pairs, ret.consumed, ret.pairs,
                    DecodeChildren(dec, a, data[p + ret.consumed..], dataLen, ret.ctx));
      c, pairs, p := ret.ctx, pairs + ret.pairs, p + ret.consumed;
    }
    return Ok(p, c, pairs);
  }

  lemma ChildProgress(dec: Cipher, a: Attr, data: seq<byte>, dataLen: nat, ctx: Ctx)
    requires |data| >= 4
    ensures var r := DecodeChild(dec, a, data, dataLen, ctx); r.Ok? ==> 4 <= r.consumed <= |data|
  {
  }

  // ----- Arrays -----

  /** The octets that `count` elements take. */
  function Span(size: nat, count: nat): nat {
    if count == 0 then 0 else size + Span(size, count - 1)
  }

  lemma {:induction false} SpanIsProduct(size: nat, count: nat)
    ensures Span(size, count) == size * count
  {
    if count > 0 {
      SpanIsProduct(size, count - 1);
    }
  }

  /** `sim_array_members`: the length of an element and the number of elements. */
  function ArrayMembers(a: Attr, len: nat): Option<(nat, nat)> {
    var size := if a.kind.Octets? then a.length else AttrSize(a.kind);
    if size == 1 then Some((1, 1))
    else if size == 0 || size > len || len % size != 0 then None
    else Some((size, len / size))
  }

  /** The elements fill the array, except that only one is read of an array of single octets. */
  lemma MembersFill(a: Attr, len: nat)
    requires ArrayMembers(a, len).Some?
    ensures var m := ArrayMembers(a, len).value; Span(m.0, m.1) == if m.0 == 1 then 1 else len
  {
    var m := ArrayMembers(a, len).value;
    SpanIsProduct(m.0, m.1);
  }

  /** The number of octets of an array that are used, or nothing when it does not fit. */
  function ActualLen(a: Attr, value: seq<byte>): (r: Option<nat>)
    requires |value| >= 2
    ensures r.Some? ==> r.value <= |value| - 2
  {
    if a.length == 0 || a.length % 4 != 0 then
      if U16(value[0], value[1]) > |value| - 2 then None else Some(U16(value[0], value[1]))
    else Some(|value| - 2)
  }

  function DecodeElements(dec: Cipher, a: Attr, data: seq<byte>, size: nat, count: nat, ctx: Ctx): (r: Result)
    requires Span(size, count) <= |data|
    ensures r.Ok? ==> r.consumed == Span(size, count)
    decreases count
  {
    if count == 0 then Ok(0, ctx, [])
    else
      var first := DecodeValue(dec, a, data[..size], data[size..], ctx);
      if first.Err? then Err
      else Prefixed(first.consumed, first.pairs, DecodeElements(dec, a, data[size..], size, count - 1, first.ctx))
  }

  /** `sim_decode_array`; an array with no actual content consumes only its two octets of length. */
  function DecodeArray(dec: Cipher, a: Attr, value: seq<byte>, ctx: Ctx): (r: Result)
    requires |value| >= 2
    ensures r.Ok? ==> 2 <= r.consumed <= |value|
  {
    var actual := ActualLen(a, value);
    if actual == None then Err
    else if actual.value == 0 then Ok(2, ctx, [])
    else
      var m := ArrayMembers(a, actual.value);
      if m == None then Err
      else
        MembersFill(a, actual.value);
        var r := DecodeElements(dec, a, value[2..], m.value.0, m.value.1, ctx);
        if r.Err? then Err else Ok(|value|, r.ctx, r.pairs)
  }

  /** The loop of `sim_decode_array`, as it runs; its assertion on the position holds. */
  method ElementsLoop(dec: Cipher, a: Attr, data: seq<byte>, size: nat, count: nat, ctx: Ctx) returns (r: Result)
    requires Span(size, count) <= |data|
    ensures r == DecodeElements(dec, a, data, size, count, ctx)
  {
    hide DecodeValue;
    var p: nat := 0;
    var c, pairs, left := ctx, [], count;
    assert data[0..] == data;
    while left > 0
      invariant 0 <= left <= count && p + Span(size, left) == Span(size, count)
      invariant DecodeElements(dec, a, data, size, count, ctx)
             == Prefixed(p, pairs, DecodeElements(dec, a, data[p..], size, left, c))
    {
      TailOfTail(data, p, size);
      assert data[p..][..size] == data[p..p + size];
      var ret := DecodeValue(dec, a, data[p..p + size], data[p + size..], c);
      if ret.Err? {
        return Err;
      }
      assert p + ret.consumed <= |data|;
      PrefixedTwice(p, pairs, ret.consumed, ret.pairs,
                    DecodeElements(dec, a, data[p + size..], size, left - 1, ret.ctx));
      c, pairs, p, left := ret.ctx, pairs + ret.pairs, p + ret.consumed, left - 1;
    }
    return Ok(p, c, pairs);
  }

  // ----- Packets -----

  /** `sim_decode_pair_internal` */
  function DecodePair(dec: Cipher, dict: seq<Attr>, data: seq<byte>, ctx: Ctx): (r: Result)
    ensures r.Ok? ==> Framed(data) && 4 <= r.consumed <= Length(data)
  {
    if !Framed(data) then Err
    else
      var a := Lookup(dict, data[0]);
      if a == None then Err
      else
        var value := data[2..Length(data)];
        var r := if a.value.isArray then DecodeArray(dec, a.value, value, ctx)
                 else DecodeValue(dec, a.value, value, data[Length(data)..], ctx);
        if r.Err? then Err else Ok(2 + r.consumed, r.ctx, r.pairs)
  }

  /** The attributes of a packet, one after the other. */
  function DecodeAll(dec: Cipher, dict: seq<Attr>, data: seq<byte>, ctx: Ctx): (r: Result)
    ensures r.Ok? ==> r.consumed == |data|
    decreases |data|
  {
    if data == [] then Ok(0, ctx, [])
    else
      var first := DecodePair(dec, dict, data, ctx);
      if first.Err? then Err
      else Prefixed(first.consumed, first.pairs, DecodeAll(dec, dict, data[first.consumed..], first.ctx))
  }

  /** The loop of `fr_aka_sim_decode`, as it runs; the position never passes the end. */
  method AttributesLoop(dec: Cipher, dict: seq<Attr>, data: seq<byte>, ctx: Ctx) returns (r: Result)
    ensures r == DecodeAll(dec, dict, data, ctx)
  {
    hide DecodePair, Framed, Length;
    var p, c, pairs := 0, ctx, [];
    assert data[0..] == data;
    while p < |data|
      invariant p <= |data|
      invariant DecodeAll(dec, dict, data, ctx) == Prefixed(p, pairs, DecodeAll(dec, dict, data[p..], c))
      decreases |data| - p
    {
      var ret := DecodePair(dec, dict, data[p..], c);
      if ret.Err? {
        return Err;
      }
      PairProgress(dec, dict, data[p..], c);
      TailOfTail(data, p, ret.consumed);
      PrefixedTwice(p, pairs, ret.consumed, ret.pairs, DecodeAll(dec, dict, data[p + ret.consumed..], ret.ctx));
      c, pairs, p := ret.ctx, pairs + ret.pairs, p + ret.consumed;
    }
    return Ok(p, c, pairs);
  }

  /** `fr_aka_sim_decode`: subtype and reserved octets, then the attributes up to the last octet. */
  method DecodePacket(dec: Cipher, dict: seq<Attr>, data: seq<byte>, ctx: Ctx) returns (r: Result)
    ensures r.Ok? <==> |data| >= 3 && DecodeAll(dec, dict, data[3..], ctx).Ok?
    ensures r.Ok? ==> r == Ok(|data|, DecodeAll(dec, dict, data[3..], ctx).ctx,
                              DecodeAll(dec, dict, data[3..], ctx).pairs + [Pair(AT_SUBTYPE, Number(data[0]))])
  {
    if |data| < 3 {
      return Err;
    }
    var all := AttributesLoop(dec, dict, data[3..], ctx);
    if all.Err? {
      return Err;
    }
    return Ok(3 + all.consumed, all.ctx, all.pairs + [Pair(AT_SUBTYPE, Number(data[0]))]);
  }

  /** Every attribute makes progress and stays within its own Length. */
  lemma PairProgress(dec: Cipher, dict: seq<Attr>, data: seq<byte>, ctx: Ctx)
    ensures var r := DecodePair(dec, dict, data, ctx); r.Ok? ==> 4 <= r.consumed <= Length(data) <= |data|
  {
  }

  /** An array that announces no content but is longer than its header. */
  predicate ShortArray(dict: seq<Attr>, data: seq<byte>)
    requires Framed(data)
  {
    var a := Lookup(dict, data[0]);
    a.Some? && a.value.isArray && Length(data) > 4 && ActualLen(a.value, data[2..Length(data)]) == Some(0)
  }

  /** An attribute is consumed whole, except exactly a short array: then the next one is looked for inside it. */
  lemma WholeUnlessShort(dec: Cipher, dict: seq<Attr>, data: seq<byte>, ctx: Ctx)
    requires DecodePair(dec, dict, data, ctx).Ok?
    ensures var r := DecodePair(dec, dict, data, ctx);
            r.consumed == if ShortArray(dict, data) then 4 else Length(data)
  {
  }
}
