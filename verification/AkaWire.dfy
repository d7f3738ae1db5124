/**
  The EAP-SIM/AKA attributes as they are written (sections 8.1, 10.8 and 10.12 of RFC 4187), and that the decoder
  (src/lib/eap_aka_sim/decode.c) gives every packet written so back as the attributes it was written from.
 */
module AkaWire {
  import opened Bytes
  import opened AkaDecode
  import opened AkaVector

  // ----- Values -----

  function Zeros(n: nat): (z: seq<byte>)
    ensures |z| == n && AllZero(z)
  {
    seq(n, _ => 0)
  }

  /** Zeros that bring a value of `n` octets to a whole number of words with the two octets before it. */
  function Padding(n: nat): (z: seq<byte>)
    ensures (2 + n + |z|) % 4 == 0
    ensures n % 4 == 2 ==> z == []
  {
    Zeros((6 - n % 4) % 4)
  }

  function Big(n: nat, k: nat): (b: seq<byte>)
    ensures |b| == k
  {
    if k == 0 then [] else Big(n / 256, k - 1) + [n % 256]
  }

  predicate FitsIn(n: nat, k: nat) { if k == 0 then n == 0 else FitsIn(n / 256, k - 1) }

  lemma {:induction false} BigReads(n: nat, k: nat)
    requires FitsIn(n, k)
    ensures ReadNumber(Big(n, k)) == n
  {
    if k > 0 {
      BigReads(n / 256, k - 1);
      var b := Big(n, k);
      assert b[..|b| - 1] == Big(n / 256, k - 1);
    }
  }

  /** A value with its own length before it. */
  function Counted(count: nat, b: seq<byte>): (w: seq<byte>)
    ensures |w| >= 2 + |b| && (2 + |w|) % 4 == 0
  {
    Net16(count) + b + Padding(2 + |b|)
  }

  /** What a single attribute can hold, by its dictionary entry. */
  predicate Holds(a: Attr, v: Value) {
    if a.num == AT_RES then v.Data? && 4 <= |v.bytes| <= 16
    else if a.num == AT_CHECKCODE then v.Data?
    else if a.num == AT_IV then v.Data? && a.kind.Octets? && !a.unknown && a.length == IV_SIZE && |v.bytes| == IV_SIZE
    else match a.kind
      case Octets =>
        if a.unknown then v.Raw? && a.length == 0 && |v.bytes| >= 2
        else v.Data? && (a.length > 0 ==> |v.bytes| == a.length)
      case Str => v.Data? && a.length == 0
      case Bool => v.Flag?
      case Uint8 | Uint16 | Uint32 | Uint64 => v.Number? && FitsIn(v.n, AttrSize(a.kind))
      case _ => false
  }

  function Written(a: Attr, v: Value): seq<byte>
    requires Holds(a, v)
  {
    if a.num == AT_RES then Counted(8 * |v.bytes|, v.bytes)
    else if a.num == AT_CHECKCODE then [0, 0] + v.bytes
    else match a.kind
      case Octets =>
        if a.unknown then v.bytes
        else if a.length > 0 then Zeros(PrefixLen(a)) + v.bytes
        else Counted(|v.bytes|, v.bytes)
      case Str => Counted(|v.bytes|, v.bytes)
      case Bool => [0, 0]
      case Uint8 | Uint16 | Uint32 | Uint64 => Big(v.n, AttrSize(a.kind))
  }

  /** What an attribute leaves of the context. */
  function Noted(a: Attr, v: Value, c: Ctx): Ctx
    requires Holds(a, v)
  {
    if a.num == AT_IV then c.(haveIv := true, iv := v.bytes) else c
  }

  lemma CountedParts(count: nat, b: seq<byte>)
    requires count < 65536
    ensures var w := Counted(count, b);
            |w| >= 2 + |b| && U16(w[0], w[1]) == count && w[2..2 + |b|] == b
  {
    var w := Counted(count, b);
    assert w == Net16(count) + (b + Padding(2 + |b|));
    assert w[0] == Net16(count)[0] && w[1] == Net16(count)[1];
    assert w[2..] == b + Padding(2 + |b|);
  }

  lemma NumberedDecodes(dec: Cipher, a: Attr, v: Value, after: seq<byte>, c: Ctx)
    requires Holds(a, v) && !a.isArray && (a.num == AT_RES || a.num == AT_CHECKCODE || a.num == AT_IV)
    ensures DecodeValue(dec, a, Written(a, v), after, c) == Ok(|Written(a, v)|, Noted(a, v, c), [Pair(a.num, v)])
  {
    hide Counted;
    if a.num == AT_RES {
      CountedParts(8 * |v.bytes|, v.bytes);
    } else {
      assert Written(a, v)[2..] == v.bytes;
    }
  }

  lemma OctetsDecode(a: Attr, v: Value, c: Ctx)
    requires Holds(a, v) && !a.isArray && a.num != AT_RES && a.num != AT_CHECKCODE && a.num != AT_IV
    requires (a.kind.Octets? || a.kind.Str?) && |Written(a, v)| < 65536
    ensures LeafValue(a, Written(a, v), c) == Ok(|Written(a, v)|, c, [Pair(a.num, v)])
  {
    hide Counted, U16;
    if a.length == 0 {
      if v.Data? {
        CountedParts(|v.bytes|, v.bytes);
      }
    } else {
      assert Written(a, v)[PrefixLen(a)..] == v.bytes;
    }
  }

  lemma LeafDecodes(a: Attr, v: Value, c: Ctx)
    requires Holds(a, v) && !a.isArray && a.num != AT_RES && a.num != AT_CHECKCODE && a.num != AT_IV
    requires |Written(a, v)| < 65536
    ensures !a.kind.Tlv? && LeafValue(a, Written(a, v), c) == Ok(|Written(a, v)|, c, [Pair(a.num, v)])
  {
    hide Counted, U16, PrefixLen, Big, ReadNumber;
    if a.kind.Octets? || a.kind.Str? {
      OctetsDecode(a, v, c);
    } else if v.Number? {
      BigReads(v.n, AttrSize(a.kind));
    }
  }

  /** A value is decoded to what was written. */
  lemma ValueDecodes(dec: Cipher, a: Attr, v: Value, after: seq<byte>, c: Ctx)
    requires Holds(a, v) && !a.isArray && |Written(a, v)| < 65536
    ensures DecodeValue(dec, a, Written(a, v), after, c) == Ok(|Written(a, v)|, Noted(a, v, c), [Pair(a.num, v)])
  {
    if a.num == AT_RES || a.num == AT_CHECKCODE || a.num == AT_IV {
      NumberedDecodes(dec, a, v, after, c);
    } else {
      LeafDecodes(a, v, c);
      hide Holds, Written, LeafValue;
    }
  }

  // ----- Arrays -----

  function ElementSize(a: Attr): nat { if a.kind.Octets? then a.length else AttrSize(a.kind) }

  /** What an array can hold. */
  predicate HoldsAll(a: Attr, vs: seq<Value>) {
    && a.isArray && a.num != AT_RES && a.num != AT_CHECKCODE && a.num != AT_IV && !a.unknown && ElementSize(a) > 0
    && forall i :: 0 <= i < |vs| ==> Holds(a, vs[i])
  }

  /** What is read of it: only the first of elements of a single octet. */
  function FirstRead(a: Attr, vs: seq<Value>): seq<Value> {
    if ElementSize(a) == 1 && |vs| > 1 then vs[..1] else vs
  }

  function Elements(a: Attr, vs: seq<Value>): (b: seq<byte>)
    requires HoldsAll(a, vs)
    ensures |b| == Span(ElementSize(a), |vs|)
  {
    if vs == [] then [] else Written(a, vs[0]) + Elements(a, vs[1..])
  }

  function WrittenAll(a: Attr, vs: seq<Value>): seq<byte>
    requires HoldsAll(a, vs)
  {
    var b := Elements(a, vs);
    if a.length == 0 || a.length % 4 != 0 then Counted(|b|, b) else [0, 0] + b
  }

  function Listed(a: Attr, vs: seq<Value>): seq<Pair> { seq(|vs|, i requires 0 <= i < |vs| => Pair(a.num, vs[i])) }

  lemma ElementDecodes(dec: Cipher, a: Attr, vs: seq<Value>, after: seq<byte>, c: Ctx)
    requires HoldsAll(a, vs) && vs != []
    ensures |Written(a, vs[0])| == ElementSize(a)
    ensures DecodeValue(dec, a, Written(a, vs[0]), after, c) == Ok(ElementSize(a), c, [Pair(a.num, vs[0])])
  {
    var v := vs[0];
    if v.Number? {
      BigReads(v.n, AttrSize(a.kind));
    } else if v.Data? {
      assert Zeros(0) + v.bytes == v.bytes;
    }
  }

  lemma {:induction false} ElementsDecode(dec: Cipher, a: Attr, vs: seq<Value>, rest: seq<byte>, c: Ctx)
    requires HoldsAll(a, vs)
    ensures DecodeElements(dec, a, Elements(a, vs) + rest, ElementSize(a), |vs|, c)
         == Ok(Span(ElementSize(a), |vs|), c, Listed(a, vs))
    decreases |vs|
  {
    hide DecodeValue, Holds, Written;
    if vs != [] {
      var size, w, tail := ElementSize(a), Written(a, vs[0]), Elements(a, vs[1..]) + rest;
      var data := Elements(a, vs) + rest;
      assert data == w + tail;
      ElementDecodes(dec, a, vs, tail, c);
      assert data[..size] == w && data[size..] == tail;
      ElementsDecode(dec, a, vs[1..], rest, c);
      assert Listed(a, vs) == [Pair(a.num, vs[0])] + Listed(a, vs[1..]);
    }
  }

  lemma MembersOf(a: Attr, count: nat)
    requires ElementSize(a) > 1 && count > 0
    ensures ArrayMembers(a, Span(ElementSize(a), count)) == Some((ElementSize(a), count))
  {
    var size := ElementSize(a);
    SpanIsProduct(size, count);
    Multiple(size, count);
  }

  lemma Multiple(size: nat, count: nat)
    requires size > 0 && count > 0
    ensures size * count >= size && size * count % size == 0 && size * count / size == count
  {
    assert size * count == size + size * (count - 1);
  }

  /** The elements that are read, and what follows them. */
  lemma ReadElements(dec: Cipher, a: Attr, vs: seq<Value>, rest: seq<byte>, c: Ctx)
    requires HoldsAll(a, vs) && vs != []
    ensures var b := Elements(a, vs);
            var m := ArrayMembers(a, |b|);
            && m.Some? && Span(m.value.0, m.value.1) <= |b|
            && DecodeElements(dec, a, b + rest, m.value.0, m.value.1, c).Ok?
            && DecodeElements(dec, a, b + rest, m.value.0, m.value.1, c).ctx == c
            && DecodeElements(dec, a, b + rest, m.value.0, m.value.1, c).pairs == Listed(a, FirstRead(a, vs))
  {
    hide DecodeElements, Holds, Listed, Written;
    var b := Elements(a, vs);
    if ElementSize(a) > 1 {
      MembersOf(a, |vs|);
      ElementsDecode(dec, a, vs, rest, c);
    } else {
      SpanIsProduct(1, |vs|);
      var first, more := vs[..1], Elements(a, vs[1..]) + rest;
      assert first[1..] == [] && Elements(a, first) == Written(a, vs[0]) + [] == Written(a, vs[0]);
      assert b + rest == Elements(a, first) + more;
      ElementsDecode(dec, a, first, more, c);
      assert FirstRead(a, vs) == first;
    }
  }

  /** An array is decoded to all that was written, if and only if its elements are not single octets but for one. */
  lemma ArrayDecodes(dec: Cipher, a: Attr, vs: seq<Value>, c: Ctx)
    requires HoldsAll(a, vs) && |WrittenAll(a, vs)| < 65536
    ensures |WrittenAll(a, vs)| >= 2
    ensures DecodeArray(dec, a, WrittenAll(a, vs), c)
         == Ok(if vs == [] then 2 else |WrittenAll(a, vs)|, c, Listed(a, FirstRead(a, vs)))
    ensures Listed(a, FirstRead(a, vs)) == Listed(a, vs) <==> ElementSize(a) > 1 || |vs| <= 1
  {
    hide DecodeElements, Elements, Holds;
    var b, w := Elements(a, vs), WrittenAll(a, vs);
    if a.length == 0 || a.length % 4 != 0 {
      CountedParts(|b|, b);
    }
    assert ActualLen(a, w) == Some(|b|);
    assert |b| == 0 <==> vs == [] by { SpanIsProduct(ElementSize(a), |vs|); }
    if vs != [] {
      var rest := w[2 + |b|..];
      assert w[2..] == b + rest;
      ReadElements(dec, a, vs, rest, c);
      MembersFill(a, |b|);
    }
    assert |Listed(a, FirstRead(a, vs))| == |FirstRead(a, vs)|;
  }

  // ----- Attributes -----

  /** A value that fits the Length field. */
  predicate Framable(value: seq<byte>) { (2 + |value|) % 4 == 0 && 0 < (2 + |value|) / 4 < 256 }

  /** Type, Length and value. */
  function Attribute(num: byte, value: seq<byte>): (b: seq<byte>)
    requires Framable(value)
    ensures |b| == 2 + |value| && |b| % 4 == 0 && |b| >= 4
  {
    [num, (2 + |value|) / 4] + value
  }

  lemma AttributeParts(num: byte, value: seq<byte>, rest: seq<byte>)
    requires Framable(value)
    ensures var b := Attribute(num, value) + rest;
            Framed(b) && b[0] == num && Length(b) == 2 + |value| && b[2..Length(b)] == value && b[Length(b)..] == rest
  {
    var b := Attribute(num, value) + rest;
    assert b[1] == (2 + |value|) / 4;
    assert b == [num, (2 + |value|) / 4] + (value + rest);
    assert b[2..] == value + rest;
  }

  /** A single attribute of a container. */
  datatype Leaf = Leaf(a: Attr, v: Value)

  predicate LeafOk(attrs: seq<Attr>, l: Leaf) {
    && Lookup(attrs, l.a.num) == Some(l.a) && !l.a.isArray && !l.a.kind.Tlv?
    && Holds(l.a, l.v) && Framable(Written(l.a, l.v))
  }

  /** What a container can hold: single attributes, none of them AT_IV, and no attribute of the number of padding. */
  predicate InsideOk(attrs: seq<Attr>, ls: seq<Leaf>) {
    forall i :: 0 <= i < |ls| ==> CanBeInside(attrs, ls[i])
  }

  function LeafOctets(attrs: seq<Attr>, l: Leaf): (b: seq<byte>)
    requires LeafOk(attrs, l)
    ensures |b| % 4 == 0
  {
    Attribute(l.a.num, Written(l.a, l.v))
  }

  predicate CanBeInside(attrs: seq<Attr>, l: Leaf) {
    LeafOk(attrs, l) && l.a.num != AT_IV && l.a.num != AT_PADDING
  }

  function Inside(attrs: seq<Attr>, ls: seq<Leaf>): seq<byte>
    requires InsideOk(attrs, ls)
  {
    if ls == [] then [] else LeafOctets(attrs, ls[0]) + Inside(attrs, ls[1..])
  }

  function LeafPairs(ls: seq<Leaf>): seq<Pair> { seq(|ls|, i requires 0 <= i < |ls| => Pair(ls[i].a.num, ls[i].v)) }

  /** Padding at the end of an encrypted container, up to three words. */
  function PaddingAttribute(words: nat): (b: seq<byte>)
    requires words <= 3
    ensures |b| == 4 * words
  {
    if words == 0 then [] else Attribute(AT_PADDING, Zeros(4 * words - 2))
  }

  lemma PaddingDecodes(dec: Cipher, a: Attr, words: nat, n: nat, c: Ctx)
    requires words <= 3 && (words > 0 ==> a.encrypted) && n % 4 == 2
    ensures DecodeChildren(dec, a, PaddingAttribute(words), n, c) == Ok(4 * words, c, [])
  {
    if words > 0 {
      var b := PaddingAttribute(words);
      AttributeParts(AT_PADDING, Zeros(4 * words - 2), []);
      assert b + [] == b;
      assert DecodeChild(dec, a, b, n, c) == Ok(4 * words, c, []);
      assert b[4 * words..] == [];
    }
  }

  lemma ChildDecodes(dec: Cipher, a: Attr, l: Leaf, tail: seq<byte>, n: nat, c: Ctx)
    requires CanBeInside(a.children, l)
    ensures var w := LeafOctets(a.children, l);
            |w| >= 4 && DecodeChild(dec, a, w + tail, n, c) == Ok(|w|, c, [Pair(l.a.num, l.v)])
  {
    hide DecodeValue, Holds, Written, Attribute;
    AttributeParts(l.a.num, Written(l.a, l.v), tail);
    ValueDecodes(dec, l.a, l.v, tail, c);
  }

  /** The attributes inside a container are decoded to what was written. */
  lemma {:induction false} InsideDecodes(dec: Cipher, a: Attr, ls: seq<Leaf>, words: nat, n: nat, c: Ctx)
    requires InsideOk(a.children, ls) && words <= 3 && (words > 0 ==> a.encrypted) && n % 4 == 2
    ensures var b := Inside(a.children, ls) + PaddingAttribute(words);
            DecodeChildren(dec, a, b, n, c) == Ok(|b|, c, LeafPairs(ls))
    decreases |ls|
  {
    hide DecodeChild, PaddingAttribute, LeafOctets, LeafOk, LeafPairs;
    if ls == [] {
      PaddingDecodes(dec, a, words, n, c);
      assert [] + PaddingAttribute(words) == PaddingAttribute(words);
      NoLeafPairs();
    } else {
      var w, tail := LeafOctets(a.children, ls[0]), Inside(a.children, ls[1..]) + PaddingAttribute(words);
      Associate(w, Inside(a.children, ls[1..]), PaddingAttribute(words));
      ChildDecodes(dec, a, ls[0], tail, n, c);
      AppendParts(w, tail);
      InsideDecodes(dec, a, ls[1..], words, n, c);
      MoreLeafPairs(ls);
    }
  }

  lemma NoLeafPairs()
    ensures LeafPairs([]) == []
  {
  }

  lemma MoreLeafPairs(ls: seq<Leaf>)
    requires ls != []
    ensures LeafPairs(ls) == [Pair(ls[0].a.num, ls[0].v)] + LeafPairs(ls[1..])
  {
  }

  // ----- Packets -----

  /** An attribute of a packet; `body` are the octets of a container as they are sent. */
  datatype Item = Single(l: Leaf) | Many(a: Attr, vs: seq<Value>)
                | Container(a: Attr, inside: seq<Leaf>, words: nat, body: seq<byte>)

  predicate ContainerOk(dec: Cipher, dict: seq<Attr>, iv: seq<byte>, i: Item)
    requires i.Container?
  {
    && Lookup(dict, i.a.num) == Some(i.a) && i.a.kind.Tlv? && InsideOk(i.a.children, i.inside)
    && i.words <= 3 && (i.words > 0 ==> i.a.encrypted) && Framable([0, 0] + i.body)
    && var plain := Inside(i.a.children, i.inside) + PaddingAttribute(i.words);
       if i.a.encrypted then |i.body| % BLOCK == 0 && |i.body| == |plain| && dec(iv, i.body) == Some(plain)
       else i.body == plain
  }

  /** An attribute that fits, of the packet whose vector is `iv`; an encrypted container decrypts to what it holds. */
  predicate ItemOk(dec: Cipher, dict: seq<Attr>, iv: seq<byte>, i: Item) {
    match i
    case Single(l) => LeafOk(dict, l) && (l.a.num == AT_IV ==> l.v == Data(iv))
    case Many(a, vs) => Lookup(dict, a.num) == Some(a) && HoldsAll(a, vs) && Framable(WrittenAll(a, vs))
    case Container(_, _, _, _) => ContainerOk(dec, dict, iv, i)
  }

  function ItemOctets(dec: Cipher, dict: seq<Attr>, iv: seq<byte>, i: Item): (b: seq<byte>)
    requires ItemOk(dec, dict, iv, i)
    ensures |b| % 4 == 0 && |b| >= 4
  {
    match i
    case Single(l) => Attribute(l.a.num, Written(l.a, l.v))
    case Many(a, vs) => Attribute(a.num, WrittenAll(a, vs))
    case Container(a, _, _, body) => Attribute(a.num, [0, 0] + body)
  }

  function ItemPairs(i: Item): seq<Pair> {
    match i
    case Single(l) => [Pair(l.a.num, l.v)]
    case Many(a, vs) => Listed(a, vs)
    case Container(_, inside, _, _) => LeafPairs(inside)
  }

  /** What is read of an attribute. */
  function ItemRead(i: Item): seq<Pair> {
    if i.Many? then Listed(i.a, FirstRead(i.a, i.vs)) else ItemPairs(i)
  }

  /** An attribute of which nothing is lost. */
  predicate Whole(i: Item) { i.Many? ==> ElementSize(i.a) != 1 || |i.vs| <= 1 }

  lemma ReadWhole(i: Item)
    ensures |ItemRead(i)| <= |ItemPairs(i)| && (ItemRead(i) == ItemPairs(i) <==> Whole(i))
    ensures |ItemRead(i)| == |ItemPairs(i)| <==> Whole(i)
  {
  }

  function ItemUses(i: Item, iv: seq<byte>): seq<Use> {
    if i.Container? && i.a.encrypted then [Use(iv, i.body)] else []
  }

  lemma SingleDecodes(dec: Cipher, dict: seq<Attr>, l: Leaf, rest: seq<byte>, c: Ctx, iv: seq<byte>)
    requires ItemOk(dec, dict, iv, Single(l)) && Knows(c, iv)
    ensures var b := ItemOctets(dec, dict, iv, Single(l));
            DecodePair(dec, dict, b + rest, c) == Ok(|b|, c, [Pair(l.a.num, l.v)])
  {
    hide DecodeValue, Holds, Written, Attribute;
    AttributeParts(l.a.num, Written(l.a, l.v), rest);
    ValueDecodes(dec, l.a, l.v, rest, c);
  }

  lemma NothingWritten(a: Attr)
    requires HoldsAll(a, [])
    ensures |WrittenAll(a, [])| == 2
  {
    hide Padding, Net16;
    assert Elements(a, []) == [];
  }

  lemma ManyDecode(dec: Cipher, dict: seq<Attr>, a: Attr, vs: seq<Value>, rest: seq<byte>, c: Ctx, iv: seq<byte>)
    requires ItemOk(dec, dict, iv, Many(a, vs))
    ensures var b := ItemOctets(dec, dict, iv, Many(a, vs));
            DecodePair(dec, dict, b + rest, c) == Ok(|b|, c, Listed(a, FirstRead(a, vs)))
  {
    hide DecodeArray, WrittenAll, Attribute, Listed, Holds;
    if vs == [] {
      NothingWritten(a);
    }
    AttributeParts(a.num, WrittenAll(a, vs), rest);
    ArrayDecodes(dec, a, vs, c);
  }

  lemma ContainerDecodes(dec: Cipher, dict: seq<Attr>, i: Item, rest: seq<byte>, c: Ctx, iv: seq<byte>)
    requires Plain(dict) && i.Container? && ItemOk(dec, dict, iv, i) && Knows(c, iv) && c.haveKey && |rest| % 4 == 0
    ensures var b := ItemOctets(dec, dict, iv, i);
            DecodePair(dec, dict, b + rest, c) == Ok(|b|, c.(uses := c.uses + ItemUses(i, iv)), LeafPairs(i.inside))
  {
    hide DecodeChildren, InsideOk, Inside, PaddingAttribute, Attribute;
    var value := [0, 0] + i.body;
    AttributeParts(i.a.num, value, rest);
    assert value[2..] == i.body;
    var c' := c.(uses := c.uses + ItemUses(i, iv));
    InsideDecodes(dec, i.a, i.inside, i.words, |value| + |rest|, c');
    assert c.uses + [] == c.uses;
    assert i.a in dict;
    assert DecodeTlv(dec, i.a, value, rest, c) == Ok(|value|, c', LeafPairs(i.inside));
  }

  /** One attribute of any form is decoded to what is read of it, and recorded if it was decrypted. */
  lemma ItemDecodes(dec: Cipher, dict: seq<Attr>, i: Item, rest: seq<byte>, c: Ctx, iv: seq<byte>)
    requires Plain(dict) && ItemOk(dec, dict, iv, i) && Knows(c, iv) && c.haveKey && |rest| % 4 == 0
    ensures var b := ItemOctets(dec, dict, iv, i);
            DecodePair(dec, dict, b + rest, c) == Ok(|b|, c.(uses := c.uses + ItemUses(i, iv)), ItemRead(i))
  {
    hide DecodePair, ItemOk, ItemOctets, Plain;
    assert c.uses + [] == c.uses;
    match i
    case Single(l) => SingleDecodes(dec, dict, l, rest, c, iv);
    case Many(a, vs) => ManyDecode(dec, dict, a, vs, rest, c, iv);
    case Container(_, _, _, _) => ContainerDecodes(dec, dict, i, rest, c, iv);
  }

  predicate PacketOk(dec: Cipher, dict: seq<Attr>, iv: seq<byte>, items: seq<Item>) {
    forall k :: 0 <= k < |items| ==> ItemOk(dec, dict, iv, items[k])
  }

  function Packet(dec: Cipher, dict: seq<Attr>, iv: seq<byte>, items: seq<Item>): seq<byte>
    requires PacketOk(dec, dict, iv, items)
  {
    if items == [] then [] else ItemOctets(dec, dict, iv, items[0]) + Packet(dec, dict, iv, items[1..])
  }

  lemma {:induction false} PacketWords(dec: Cipher, dict: seq<Attr>, iv: seq<byte>, items: seq<Item>)
    requires PacketOk(dec, dict, iv, items)
    ensures |Packet(dec, dict, iv, items)| % 4 == 0
  {
    hide ItemOk, ItemOctets;
    if items != [] {
      PacketWords(dec, dict, iv, items[1..]);
    }
  }

  function PacketPairs(items: seq<Item>): seq<Pair> {
    if items == [] then [] else ItemPairs(items[0]) + PacketPairs(items[1..])
  }

  function PacketRead(items: seq<Item>): seq<Pair> {
    if items == [] then [] else ItemRead(items[0]) + PacketRead(items[1..])
  }

  lemma {:induction false} NoMoreRead(items: seq<Item>)
    ensures |PacketRead(items)| <= |PacketPairs(items)|
  {
    if items != [] {
      ReadWhole(items[0]);
      NoMoreRead(items[1..]);
    }
  }

  /** All of a packet is read if and only if all of each attribute is. */
  lemma {:induction false} PacketReadWhole(items: seq<Item>)
    ensures PacketRead(items) == PacketPairs(items) <==> forall k :: 0 <= k < |items| ==> Whole(items[k])
  {
    hide ItemRead, ItemPairs, Whole;
    if items != [] {
      var i, rest := items[0], items[1..];
      ReadWhole(i);
      NoMoreRead(rest);
      PacketReadWhole(rest);
      assert (forall k :: 0 <= k < |items| ==> Whole(items[k])) <==>
             Whole(i) && forall k :: 0 <= k < |rest| ==> Whole(rest[k]);
      AppendParts(ItemRead(i), PacketRead(rest));
      AppendParts(ItemPairs(i), PacketPairs(rest));
      if PacketRead(items) == PacketPairs(items) {
        assert |ItemRead(i)| == |ItemPairs(i)|;
      }
    }
  }

  function PacketUses(items: seq<Item>, iv: seq<byte>): seq<Use> {
    if items == [] then [] else ItemUses(items[0], iv) + PacketUses(items[1..], iv)
  }

  lemma {:induction false} KnownPacketDecodes(dec: Cipher, dict: seq<Attr>, items: seq<Item>, c: Ctx, iv: seq<byte>)
    requires Plain(dict) && PacketOk(dec, dict, iv, items) && Knows(c, iv) && c.haveKey
    ensures var b := Packet(dec, dict, iv, items);
            DecodeAll(dec, dict, b, c) == Ok(|b|, c.(uses := c.uses + PacketUses(items, iv)), PacketRead(items))
    decreases |items|
  {
    hide DecodePair, ItemOk, ItemOctets, Plain, ItemRead, ItemUses;
    if items == [] {
      assert c.uses + [] == c.uses;
    } else {
      var b, rest := ItemOctets(dec, dict, iv, items[0]), Packet(dec, dict, iv, items[1..]);
      PacketWords(dec, dict, iv, items[1..]);
      ItemDecodes(dec, dict, items[0], rest, c, iv);
      AppendParts(b, rest);
      var c' := c.(uses := c.uses + ItemUses(items[0], iv));
      KnownPacketDecodes(dec, dict, items[1..], c', iv);
      Associate(c.uses, ItemUses(items[0], iv), PacketUses(items[1..], iv));
    }
  }

  predicate StatesVector(items: seq<Item>) {
    items != [] && ((items[0].Single? && items[0].l.a.num == AT_IV) || StatesVector(items[1..]))
  }

  /** Where an attribute ends, and that it is no array to stumble over. */
  lemma ItemWhole(dec: Cipher, dict: seq<Attr>, i: Item, rest: seq<byte>, iv: seq<byte>)
    requires Plain(dict) && ItemOk(dec, dict, iv, i)
    ensures var b := ItemOctets(dec, dict, iv, i);
            && Framed(b + rest) && Length(b + rest) == |b| && (b + rest)[|b|..] == rest && !ShortArray(dict, b + rest)
            && ((b + rest)[0] == AT_IV <==> i.Single? && i.l.a.num == AT_IV)
            && ((b + rest)[0] == AT_IV ==> IvOf((b + rest)[2..|b|]) == Some(iv))
  {
    match i {
      case Single(l) =>
        AttributeParts(l.a.num, Written(l.a, l.v), rest);
        if l.a.num == AT_IV {
          VectorWritten(l.a, l.v);
        }
      case Many(a, vs) =>
        AttributeParts(a.num, WrittenAll(a, vs), rest);
        NotShort(a, vs);
      case Container(a, _, _, body) =>
        AttributeParts(a.num, [0, 0] + body, rest);
        assert a in dict;
    }
    hide Holds, Written, WrittenAll, Attribute, InsideOk, Framable;
  }

  lemma VectorWritten(a: Attr, v: Value)
    requires Holds(a, v) && a.num == AT_IV && !a.isArray
    ensures IvOf(Written(a, v)) == Some(v.bytes)
  {
    assert Written(a, v)[2..] == v.bytes;
  }

  /** An array that is written announces its content, unless it has none and is no longer than its header. */
  lemma NotShort(a: Attr, vs: seq<Value>)
    requires HoldsAll(a, vs) && Framable(WrittenAll(a, vs))
    ensures |WrittenAll(a, vs)| >= 2 && (ActualLen(a, WrittenAll(a, vs)) == Some(0) ==> |WrittenAll(a, vs)| == 2)
  {
    var b, w := Elements(a, vs), WrittenAll(a, vs);
    hide Elements;
    if a.length == 0 || a.length % 4 != 0 {
      CountedParts(|b|, b);
    }
  }

  lemma {:induction false} VectorFound(dec: Cipher, dict: seq<Attr>, items: seq<Item>, iv: seq<byte>)
    requires Plain(dict) && PacketOk(dec, dict, iv, items) && StatesVector(items)
    ensures FindIv(Packet(dec, dict, iv, items)) == Some(iv) && WholeToIv(dict, Packet(dec, dict, iv, items))
    decreases |items|
  {
    hide ItemOk, ItemOctets, Plain, ShortArray, Length, Framed;
    var b, rest := ItemOctets(dec, dict, iv, items[0]), Packet(dec, dict, iv, items[1..]);
    ItemWhole(dec, dict, items[0], rest, iv);
    if !(items[0].Single? && items[0].l.a.num == AT_IV) {
      VectorFound(dec, dict, items[1..], iv);
    }
  }

  /**
    Every packet of single attributes, arrays and containers, encrypted or not and padded or not, with AT_IV
    anywhere among them, is decoded, and every encrypted container is decrypted once with its vector. The result
    is exactly the attributes the packet was written from, in their order, if and only if no array has more than
    one element of a single octet.
   */
  lemma PacketDecodes(dec: Cipher, dict: seq<Attr>, items: seq<Item>, c: Ctx, iv: seq<byte>)
    requires Plain(dict) && PacketOk(dec, dict, iv, items) && StatesVector(items) && !c.haveIv && c.haveKey
    ensures var b := Packet(dec, dict, iv, items);
            var c' := Ctx(true, iv, true, c.uses + PacketUses(items, iv));
            DecodeAll(dec, dict, b, c) == Ok(|b|, c', PacketRead(items))
    ensures PacketRead(items) == PacketPairs(items) <==> forall k :: 0 <= k < |items| ==> Whole(items[k])
  {
    hide DecodeAll, PacketOk, Packet, StatesVector, FindIv, WholeToIv, PacketUses, PacketPairs, PacketRead;
    var d := c.(haveIv := true, iv := iv);
    VectorFound(dec, dict, items, iv);
    LookAheadIsKnowing(dec, dict, Packet(dec, dict, iv, items), c, d, iv);
    KnownPacketDecodes(dec, dict, items, d, iv);
    PacketReadWhole(items);
  }
}
