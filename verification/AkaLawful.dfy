/**
  What the AKA decoder (src/lib/eap_aka_sim/decode.c) refuses: a packet that is decoded has no attribute that is
  unknown and may not be skipped (section 8.1 of RFC 4187), at the top or inside a container, its padding and its
  encrypted containers are as they should be, and every value is what its octets say.
 */
module AkaLawful {
  import opened Bytes
  import opened AkaDecode
  import opened AkaVector
  import opened AkaWire

  // ----- Numbers -----

  /** An attribute of the dictionary, or one that may be skipped. */
  ghost predicate Known(attrs: seq<Attr>, num: byte) { num > 127 || exists a :: a in attrs && a.num == num }

  /** Walking by the Length fields, an unknown attribute that may not be skipped comes before any short array. */
  ghost predicate UnknownAhead(dict: seq<Attr>, data: seq<byte>)
    decreases |data|
  {
    Framed(data) && (!Known(dict, data[0]) || (!ShortArray(dict, data) && UnknownAhead(dict, data[Length(data)..])))
  }

  /** Such a packet is refused, whatever the dictionary, the key and the rest of it. */
  lemma {:induction false} UnknownRefused(dec: Cipher, dict: seq<Attr>, data: seq<byte>, c: Ctx)
    requires UnknownAhead(dict, data)
    ensures DecodeAll(dec, dict, data, c).Err?
    decreases |data|
  {
    var r := DecodePair(dec, dict, data, c);
    if r.Ok? {
      WholeUnlessShort(dec, dict, data, c);
      hide DecodePair, ShortArray;
      UnknownRefused(dec, dict, data[Length(data)..], r.ctx);
    }
  }

  /** An unknown attribute that may be skipped is kept as it is, whatever it holds. */
  lemma UnknownSkipped(dec: Cipher, dict: seq<Attr>, data: seq<byte>, c: Ctx)
    requires Framed(data) && data[0] > 127 && data[0] != AT_IV && data[0] != AT_CHECKCODE
    requires forall a :: a in dict ==> a.num != data[0]
    ensures DecodePair(dec, dict, data, c) == Ok(Length(data), c, [Pair(data[0], Raw(data[2..Length(data)]))])
  {
  }

  // ----- Inside a container -----

  /** Known attributes one after the other, and zeros for padding, at most three words of it and only when encrypted. */
  ghost predicate InsideLawful(a: Attr, data: seq<byte>, dataLen: nat)
    decreases |data|
  {
    |data| >= 4 ==>
      && Framed(data)
      && (if data[0] == 6 then
            a.encrypted && dataLen % 4 != 0 && Length(data) <= 12 && forall i :: 2 <= i < Length(data) ==> data[i] == 0
          else Known(a.children, data[0]))
      && InsideLawful(a, data[Length(data)..], dataLen)
  }

  lemma {:induction false} DecodedInsideLawful(dec: Cipher, a: Attr, data: seq<byte>, n: nat, c: Ctx)
    requires DecodeChildren(dec, a, data, n, c).Ok?
    ensures InsideLawful(a, data, n)
    decreases |data|
  {
    hide DecodeValue;
    if |data| >= 4 {
      var r := DecodeChild(dec, a, data, n, c);
      assert forall i :: 2 <= i < Length(data) ==> data[i] == data[2..Length(data)][i - 2];
      DecodedInsideLawful(dec, a, data[r.consumed..], n, r.ctx);
    }
  }

  // ----- Whole packets -----

  /** The value of `a`, with the decryptions made for it, holds nothing unlawful. */
  ghost predicate BodyLawful(dec: Cipher, a: Attr, value: seq<byte>, n: nat, used: seq<Use>)
    requires |value| >= 2
  {
    if !a.kind.Tlv? then used == []
    else if !a.encrypted then used == [] && InsideLawful(a, value[2..], n)
    else
      && |used| == 1 && used[0].cipher == value[2..] && |value[2..]| % 16 == 0
      && var plain := dec(used[0].iv, value[2..]);
         plain.Some? && |plain.value| == |value[2..]| && InsideLawful(a, plain.value, n)
  }

  /** The first attribute of `data`, with its share of the decryptions. */
  ghost predicate HeadLawful(dec: Cipher, dict: seq<Attr>, data: seq<byte>, used: seq<Use>)
    requires Framed(data)
  {
    var value := data[2..Length(data)];
    if forall a :: a in dict ==> a.num != data[0] then data[0] > 127 && used == []
    else exists a :: a in dict && a.num == data[0] && BodyLawful(dec, a, value, |data| - 2, used)
  }

  /** All attributes, up to a short array behind which the decoder is out of step. */
  ghost predicate Lawful(dec: Cipher, dict: seq<Attr>, data: seq<byte>, uses: seq<Use>)
    decreases |data|
  {
    if data == [] then uses == []
    else
      && Framed(data)
      && exists j: nat :: j <= |uses| && HeadLawful(dec, dict, data, uses[..j])
           && (ShortArray(dict, data) || Lawful(dec, dict, data[Length(data)..], uses[j..]))
  }

  lemma {:induction false} ChildrenUseNone(dec: Cipher, a: Attr, data: seq<byte>, n: nat, c: Ctx)
    requires Flat(a.children)
    ensures var r := DecodeChildren(dec, a, data, n, c); r.Ok? ==> r.ctx.uses == c.uses
    decreases |data|
  {
    if |data| >= 4 {
      ChildUsesNone(dec, a, data, n, c);
      hide DecodeChild;
      var r := DecodeChild(dec, a, data, n, c);
      if r.Ok? {
        ChildrenUseNone(dec, a, data[r.consumed..], n, r.ctx);
      }
    }
  }

  lemma ChildUsesNone(dec: Cipher, a: Attr, data: seq<byte>, n: nat, c: Ctx)
    requires |data| >= 4 && Flat(a.children)
    ensures var r := DecodeChild(dec, a, data, n, c); r.Ok? ==> r.ctx.uses == c.uses
  {
    hide DecodeValue;
    if Framed(data) {
      var child := Lookup(a.children, data[0]);
      if child.Some? {
        LeafUsesNone(dec, child.value, data[2..Length(data)], data[Length(data)..], c);
      }
    }
  }

  lemma LeafUsesNone(dec: Cipher, a: Attr, value: seq<byte>, after: seq<byte>, c: Ctx)
    requires !a.kind.Tlv?
    ensures var r := DecodeValue(dec, a, value, after, c); r.Ok? ==> r.ctx.uses == c.uses
  {
    hide LeafValue, U16;
  }

  lemma {:induction false} ElementsUseNone(dec: Cipher, a: Attr, data: seq<byte>, size: nat, count: nat, c: Ctx)
    requires Span(size, count) <= |data| && !a.kind.Tlv?
    ensures var r := DecodeElements(dec, a, data, size, count, c); r.Ok? ==> r.ctx.uses == c.uses
    decreases count
  {
    hide DecodeValue;
    if count > 0 {
      LeafUsesNone(dec, a, data[..size], data[size..], c);
      var r := DecodeValue(dec, a, data[..size], data[size..], c);
      if r.Ok? {
        ElementsUseNone(dec, a, data[size..], size, count - 1, r.ctx);
      }
    }
  }

  lemma ArrayUsesNone(dec: Cipher, a: Attr, value: seq<byte>, c: Ctx)
    requires |value| >= 2 && !a.kind.Tlv?
    ensures var r := DecodeArray(dec, a, value, c); r.Ok? ==> r.ctx.uses == c.uses
  {
    hide DecodeElements;
    var actual := ActualLen(a, value);
    if actual.Some? && actual.value > 0 {
      var m := ArrayMembers(a, actual.value);
      if m.Some? {
        MembersFill(a, actual.value);
        ElementsUseNone(dec, a, value[2..], m.value.0, m.value.1, c);
      }
    }
  }

  /** A container that is decoded was decrypted if it had to be, and holds nothing unlawful. */
  lemma TlvLawful(dec: Cipher, a: Attr, value: seq<byte>, after: seq<byte>, c: Ctx) returns (used: seq<Use>)
    requires |value| >= 2 && a.kind.Tlv? && Flat(a.children) && DecodeTlv(dec, a, value, after, c).Ok?
    ensures DecodeTlv(dec, a, value, after, c).ctx.uses == c.uses + used
    ensures BodyLawful(dec, a, value, |value| + |after|, used)
  {
    hide DecodeChildren, InsideLawful, FindIv;
    var body := if a.encrypted then Decrypt(dec, value[2..], after, c) else Some((value[2..], c));
    DecodedInsideLawful(dec, a, body.value.0, |value| + |after|, body.value.1);
    ChildrenUseNone(dec, a, body.value.0, |value| + |after|, body.value.1);
    used := if a.encrypted then [body.value.1.uses[|c.uses|]] else [];
    assert c.uses + [] == c.uses;
  }

  /** One attribute that is decoded. */
  lemma PairLawful(dec: Cipher, dict: seq<Attr>, data: seq<byte>, c: Ctx) returns (used: seq<Use>)
    requires Plain(dict) && DecodePair(dec, dict, data, c).Ok?
    ensures DecodePair(dec, dict, data, c).ctx.uses == c.uses + used
    ensures HeadLawful(dec, dict, data, used)
  {
    hide DecodeArray, DecodeTlv, LeafValue, InsideLawful, U16;
    var a, value, after := Lookup(dict, data[0]).value, data[2..Length(data)], data[Length(data)..];
    used := [];
    assert c.uses + [] == c.uses;
    if a.isArray {
      ArrayUsesNone(dec, a, value, c);
    } else if a.kind.Tlv? {
      used := TlvLawful(dec, a, value, after, c);
    } else {
      LeafUsesNone(dec, a, value, after, c);
    }
    if exists b :: b in dict && b.num == data[0] {
      assert a in dict && BodyLawful(dec, a, value, |data| - 2, used);
    }
  }

  /** A packet that is decoded holds nothing unlawful, at any level. */
  lemma {:induction false} DecodedIsLawful(dec: Cipher, dict: seq<Attr>, data: seq<byte>, c: Ctx)
    returns (uses: seq<Use>)
    requires Plain(dict) && DecodeAll(dec, dict, data, c).Ok?
    ensures DecodeAll(dec, dict, data, c).ctx.uses == c.uses + uses
    ensures Lawful(dec, dict, data, uses)
    decreases |data|
  {
    uses := [];
    assert c.uses + [] == c.uses;
    if data != [] {
      var r := DecodePair(dec, dict, data, c);
      var used := PairLawful(dec, dict, data, c);
      WholeUnlessShort(dec, dict, data, c);
      hide DecodePair, HeadLawful, ShortArray, Plain;
      var more := DecodedIsLawful(dec, dict, data[r.consumed..], r.ctx);
      uses := used + more;
      Associate(c.uses, used, more);
      AppendParts(used, more);
    }
  }

  // ----- Values -----

  /** The octets of a length that holds what follows it. */
  predicate HoldsCount(value: seq<byte>) { |value| >= 2 && U16(value[0], value[1]) <= |value| - 2 }

  /** The form that the dictionary asks of a single value. */
  predicate Formed(a: Attr, value: seq<byte>) {
    match a.kind
    case Octets => if a.length == 0 then |value| >= 2 else |value| == a.length + if a.length % 4 == 0 then 2 else 0
    case Str => |value| >= 2 && (a.length == 0 || |value| == a.length)
    case Bool => |value| == 2
    case Uint8 => |value| == 1
    case Uint16 => |value| == 2
    case Uint32 => |value| == 4
    case Uint64 => |value| == 8
    case _ => false
  }

  /** What a value of the right form says. */
  predicate Says(a: Attr, value: seq<byte>, v: Value)
    requires Formed(a, value)
  {
    match a.kind
    case Octets =>
      if a.unknown then v == Raw(value)
      else if a.length == 0 then HoldsCount(value) && v == Data(value[2..2 + U16(value[0], value[1])])
      else v == Data(value[|value| - a.length..])
    case Str => HoldsCount(value) && v == Data(value[2..2 + U16(value[0], value[1])])
    case Bool => v == Flag
    case Uint8 | Uint16 | Uint32 | Uint64 => v.Number? && FitsIn(v.n, |value|) && value == Big(v.n, |value|)
    case _ => false
  }

  /** What the octets of an attribute that is no array and no container mean; a wrong form may only be skipped. */
  predicate Means(a: Attr, value: seq<byte>, v: Value) {
    if a.num == 3 then
      && v.Data? && 4 <= |v.bytes| <= 16 && |value| >= 2 + |v.bytes|
      && U16(value[0], value[1]) == 8 * |v.bytes| && v.bytes == value[2..2 + |v.bytes|]
    else if a.num == 134 then v == if |value| < 2 then Raw(value) else Data(value[2..])
    else
      && (a.num == 129 ==> |value| == 18 && value[0] == 0 && value[1] == 0)
      && LeafMeans(a, value, v)
  }

  lemma {:induction false} ReadBig(b: seq<byte>)
    ensures FitsIn(ReadNumber(b), |b|) && Big(ReadNumber(b), |b|) == b
  {
    if b != [] {
      var front, n := b[..|b| - 1], ReadNumber(b);
      ReadBig(front);
      assert n / 256 == ReadNumber(front) && n % 256 == b[|b| - 1];
    }
  }

  lemma NumberExactly(value: seq<byte>, n: nat)
    ensures n == ReadNumber(value) <==> FitsIn(n, |value|) && value == Big(n, |value|)
  {
    ReadBig(value);
    if FitsIn(n, |value|) {
      BigReads(n, |value|);
    }
  }

  /** The outcome of a leaf, by its form. */
  predicate LeafMeans(a: Attr, value: seq<byte>, v: Value) {
    if Formed(a, value) then Says(a, value, v) else a.num > 127 && v == Raw(value)
  }

  predicate Yields(r: Result, num: byte, v: Value) { r.Ok? && r.pairs == [Pair(num, v)] }

  lemma OctetsExactly(a: Attr, value: seq<byte>, c: Ctx, v: Value)
    requires !a.isArray && (a.kind.Octets? || a.kind.Str?)
    ensures Yields(LeafValue(a, value, c), a.num, v) <==> LeafMeans(a, value, v)
  {
    hide U16;
    assert a.length > 0 && a.kind.Octets? && Formed(a, value) ==> PrefixLen(a) == |value| - a.length;
  }

  lemma NumbersExactly(a: Attr, value: seq<byte>, c: Ctx, v: Value)
    requires a.kind.Uint8? || a.kind.Uint16? || a.kind.Uint32? || a.kind.Uint64?
    ensures Yields(LeafValue(a, value, c), a.num, v) <==> LeafMeans(a, value, v)
  {
    hide ReadNumber, Big, FitsIn;
    if v.Number? {
      NumberExactly(value, v.n);
    }
  }

  lemma LeafExactly(a: Attr, value: seq<byte>, c: Ctx, v: Value)
    requires !a.isArray && !a.kind.Tlv?
    ensures Yields(LeafValue(a, value, c), a.num, v) <==> LeafMeans(a, value, v)
  {
    hide U16, ReadNumber, Big, FitsIn;
    match a.kind {
      case Octets => OctetsExactly(a, value, c, v);
      case Str => OctetsExactly(a, value, c, v);
      case Bool =>
      case Other =>
      case _ => NumbersExactly(a, value, c, v);
    }
  }

  /** A single attribute is decoded to a value if and only if that is what its octets mean. */
  lemma ValueExactly(dec: Cipher, a: Attr, value: seq<byte>, after: seq<byte>, c: Ctx, v: Value)
    requires !a.isArray && !a.kind.Tlv?
    ensures var r := DecodeValue(dec, a, value, after, c);
      && (Yields(r, a.num, v) <==> Means(a, value, v))
      && (r.Ok? ==> |r.pairs| == 1 && r.pairs[0].num == a.num)
  {
    hide LeafValue, LeafMeans, U16;
    var c' := if a.num == AT_IV && IvOf(value).Some? then c.(haveIv := true, iv := IvOf(value).value) else c;
    LeafExactly(a, value, c', v);
    OnePair(a, value, c');
  }

  lemma OnePair(a: Attr, value: seq<byte>, c: Ctx)
    requires !a.kind.Tlv?
    ensures var r := LeafValue(a, value, c); r.Ok? ==> |r.pairs| == 1 && r.pairs[0].num == a.num
  {
    hide U16, ReadNumber;
  }
}
