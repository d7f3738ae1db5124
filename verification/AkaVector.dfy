/**
  Which initialisation vector the AKA decoder uses (src/lib/eap_aka_sim/decode.c): looking ahead for AT_IV comes
  to the same as having known the vector from the start, so the place of AT_IV among the attributes does not
  matter (section 10.12 of RFC 4187).
 */
module AkaVector {
  import opened Bytes
  import opened AkaDecode

  ghost predicate Flat(attrs: seq<Attr>) { forall a :: a in attrs ==> !a.kind.Tlv? }

  /** A dictionary in which containers are not nested, and none of the attributes decoded by number is one. */
  ghost predicate Plain(dict: seq<Attr>) {
    forall a :: a in dict ==>
      (a.kind.Tlv? ==> !a.isArray && Flat(a.children) && a.num != AT_IV && a.num != AT_RES && a.num != AT_CHECKCODE)
      && (a.num == AT_IV ==> !a.isArray)
  }

  /** No short array among the attributes before the first AT_IV. */
  predicate WholeToIv(dict: seq<Attr>, data: seq<byte>)
    decreases |data|
  {
    |data| >= 4 && Framed(data) && data[0] != AT_IV ==> !ShortArray(dict, data) && WholeToIv(dict, data[Length(data)..])
  }

  // ----- Looking ahead is knowing -----

  /** The same context, but for the vector `iv` being known already. */
  predicate Ahead(c: Ctx, d: Ctx, iv: seq<byte>) { d == c || (!c.haveIv && d == c.(haveIv := true, iv := iv)) }

  predicate Same(r: Result, s: Result, iv: seq<byte>) {
    (r.Err? && s.Err?) || (r.Ok? && s.Ok? && r.consumed == s.consumed && r.pairs == s.pairs && Ahead(r.ctx, s.ctx, iv))
  }

  lemma LeafAhead(dec: Cipher, a: Attr, value: seq<byte>, after: seq<byte>, c: Ctx, d: Ctx, iv: seq<byte>)
    requires !a.kind.Tlv? && Ahead(c, d, iv)
    ensures Same(DecodeValue(dec, a, value, after, c), DecodeValue(dec, a, value, after, d), iv)
  {
    hide LeafValue, U16, IvOf;
    LeafValueAhead(a, value, c, d, iv);
  }

  lemma LeafValueAhead(a: Attr, value: seq<byte>, c: Ctx, d: Ctx, iv: seq<byte>)
    requires !a.kind.Tlv? && Ahead(c, d, iv)
    ensures Same(LeafValue(a, value, c), LeafValue(a, value, d), iv)
  {
    hide U16, ReadNumber;
  }

  lemma {:induction false} ChildrenAhead(dec: Cipher, a: Attr, data: seq<byte>, n: nat, c: Ctx, d: Ctx, iv: seq<byte>)
    requires Flat(a.children) && Ahead(c, d, iv)
    ensures Same(DecodeChildren(dec, a, data, n, c), DecodeChildren(dec, a, data, n, d), iv)
    decreases |data|
  {
    if |data| >= 4 {
      ChildAhead(dec, a, data, n, c, d, iv);
      hide DecodeChild, Framed, Length;
      var r, s := DecodeChild(dec, a, data, n, c), DecodeChild(dec, a, data, n, d);
      if r.Ok? {
        ChildProgress(dec, a, data, n, c);
        ChildrenAhead(dec, a, data[r.consumed..], n, r.ctx, s.ctx, iv);
      }
    }
  }

  lemma ChildAhead(dec: Cipher, a: Attr, data: seq<byte>, n: nat, c: Ctx, d: Ctx, iv: seq<byte>)
    requires |data| >= 4 && Flat(a.children) && Ahead(c, d, iv)
    ensures Same(DecodeChild(dec, a, data, n, c), DecodeChild(dec, a, data, n, d), iv)
  {
    hide DecodeValue;
    if Framed(data) {
      var child := Lookup(a.children, data[0]);
      if child.Some? {
        LeafAhead(dec, child.value, data[2..Length(data)], data[Length(data)..], c, d, iv);
      }
    }
  }

  lemma {:induction false} ElementsAhead(dec: Cipher, a: Attr, data: seq<byte>, size: nat, count: nat,
                                         c: Ctx, d: Ctx, iv: seq<byte>)
    requires Span(size, count) <= |data| && !a.kind.Tlv? && Ahead(c, d, iv)
    ensures Same(DecodeElements(dec, a, data, size, count, c), DecodeElements(dec, a, data, size, count, d), iv)
    decreases count
  {
    hide DecodeValue;
    if count > 0 {
      LeafAhead(dec, a, data[..size], data[size..], c, d, iv);
      var r := DecodeValue(dec, a, data[..size], data[size..], c);
      var s := DecodeValue(dec, a, data[..size], data[size..], d);
      if r.Ok? {
        ElementsAhead(dec, a, data[size..], size, count - 1, r.ctx, s.ctx, iv);
      }
    }
  }

  lemma ArrayAhead(dec: Cipher, a: Attr, value: seq<byte>, c: Ctx, d: Ctx, iv: seq<byte>)
    requires |value| >= 2 && !a.kind.Tlv? && Ahead(c, d, iv)
    ensures Same(DecodeArray(dec, a, value, c), DecodeArray(dec, a, value, d), iv)
  {
    hide DecodeElements;
    var actual := ActualLen(a, value);
    if actual.Some? && actual.value > 0 {
      var m := ArrayMembers(a, actual.value);
      if m.Some? {
        MembersFill(a, actual.value);
        ElementsAhead(dec, a, value[2..], m.value.0, m.value.1, c, d, iv);
      }
    }
  }

  lemma TlvAhead(dec: Cipher, a: Attr, value: seq<byte>, after: seq<byte>, c: Ctx, d: Ctx, iv: seq<byte>)
    requires |value| >= 2 && Flat(a.children) && Ahead(c, d, iv) && FindIv(after) == Some(iv)
    ensures Same(DecodeTlv(dec, a, value, after, c), DecodeTlv(dec, a, value, after, d), iv)
  {
    hide DecodeChildren, FindIv;
    if !a.encrypted {
      ChildrenAhead(dec, a, value[2..], |value| + |after|, c, d, iv);
    }
  }

  /** One attribute, with the vector still to come or known. */
  lemma PairAhead(dec: Cipher, dict: seq<Attr>, data: seq<byte>, c: Ctx, d: Ctx, iv: seq<byte>)
    requires Plain(dict) && Ahead(c, d, iv) && FindIv(data) == Some(iv)
    ensures Same(DecodePair(dec, dict, data, c), DecodePair(dec, dict, data, d), iv)
    ensures data[0] == AT_IV && DecodePair(dec, dict, data, c).Ok? ==>
              DecodePair(dec, dict, data, c) == DecodePair(dec, dict, data, d)
  {
    hide DecodeArray, DecodeTlv;
    var a := Lookup(dict, data[0]);
    if a.Some? {
      var value, after := data[2..Length(data)], data[Length(data)..];
      if a.value.isArray {
        ArrayAhead(dec, a.value, value, c, d, iv);
      } else if a.value.kind.Tlv? {
        TlvAhead(dec, a.value, value, after, c, d, iv);
      } else {
        LeafAhead(dec, a.value, value, after, c, d, iv);
      }
    }
  }

  /** Decoding with the vector still to be found gives what decoding with it known gives. */
  lemma {:induction false} LookAheadIsKnowing(dec: Cipher, dict: seq<Attr>, data: seq<byte>, c: Ctx, d: Ctx,
                                              iv: seq<byte>)
    requires Plain(dict) && Ahead(c, d, iv) && FindIv(data) == Some(iv) && WholeToIv(dict, data)
    ensures DecodeAll(dec, dict, data, c) == DecodeAll(dec, dict, data, d)
    decreases |data|
  {
    PairAhead(dec, dict, data, c, d, iv);
    var r, s := DecodePair(dec, dict, data, c), DecodePair(dec, dict, data, d);
    if r.Ok? && data[0] != AT_IV {
      WholeUnlessShort(dec, dict, data, c);
      hide DecodePair;
      LookAheadIsKnowing(dec, dict, data[r.consumed..], r.ctx, s.ctx, iv);
    }
  }

  // ----- One vector -----

  /** Every AT_IV inside a container states `iv`. */
  predicate InnerVectors(data: seq<byte>, iv: seq<byte>)
    decreases |data|
  {
    |data| >= 4 && Framed(data) ==>
      (data[0] == AT_IV ==> IvOf(data[2..Length(data)]) == Some(iv)) && InnerVectors(data[Length(data)..], iv)
  }

  /** What a container holds, when it is decrypted with `iv`. */
  function Contents(dec: Cipher, a: Attr, value: seq<byte>, iv: seq<byte>): Option<seq<byte>>
    requires |value| >= 2
  {
    if a.encrypted then dec(iv, value[2..]) else Some(value[2..])
  }

  /** The attribute states no vector other than `iv`, itself or within. */
  predicate StatesOnly(dec: Cipher, dict: seq<Attr>, data: seq<byte>, iv: seq<byte>)
    requires Framed(data)
  {
    var a, value := Lookup(dict, data[0]), data[2..Length(data)];
    (data[0] == AT_IV ==> IvOf(value) == Some(iv))
    && (a.Some? && a.value.kind.Tlv? && Contents(dec, a.value, value, iv).Some? ==>
          InnerVectors(Contents(dec, a.value, value, iv).value, iv))
  }

  /** The decryption an attribute asks for. */
  function Decryption(dict: seq<Attr>, data: seq<byte>, iv: seq<byte>): seq<Use>
    requires Framed(data)
  {
    var a, value := Lookup(dict, data[0]), data[2..Length(data)];
    if a.Some? && a.value.kind.Tlv? && a.value.encrypted then [Use(iv, value[2..])] else []
  }

  /** A packet whose attributes are consumed whole and state no vector other than `iv`. */
  predicate OneVector(dec: Cipher, dict: seq<Attr>, data: seq<byte>, iv: seq<byte>)
    decreases |data|
  {
    Framed(data) ==>
      && !ShortArray(dict, data) && StatesOnly(dec, dict, data, iv)
      && OneVector(dec, dict, data[Length(data)..], iv)
  }

  function Decryptions(dict: seq<Attr>, data: seq<byte>, iv: seq<byte>): seq<Use>
    decreases |data|
  {
    if Framed(data) then Decryption(dict, data, iv) + Decryptions(dict, data[Length(data)..], iv) else []
  }

  predicate Knows(c: Ctx, iv: seq<byte>) { c.haveIv && c.iv == iv }

  lemma LeafKeeps(dec: Cipher, a: Attr, value: seq<byte>, after: seq<byte>, c: Ctx, iv: seq<byte>)
    requires !a.kind.Tlv? && Knows(c, iv) && (a.num == AT_IV ==> IvOf(value) == Some(iv))
    ensures DecodeValue(dec, a, value, after, c).Ok? ==> DecodeValue(dec, a, value, after, c).ctx == c
  {
  }

  lemma {:induction false} ChildrenKeep(dec: Cipher, a: Attr, data: seq<byte>, n: nat, c: Ctx, iv: seq<byte>)
    requires Flat(a.children) && Knows(c, iv) && InnerVectors(data, iv)
    ensures DecodeChildren(dec, a, data, n, c).Ok? ==> DecodeChildren(dec, a, data, n, c).ctx == c
    decreases |data|
  {
    hide DecodeValue;
    if |data| >= 4 && Framed(data) {
      var child := Lookup(a.children, data[0]);
      if child.Some? {
        LeafKeeps(dec, child.value, data[2..Length(data)], data[Length(data)..], c, iv);
      }
      ChildrenKeep(dec, a, data[Length(data)..], n, c, iv);
    }
  }

  /** The vector that the last AT_IV inside a container states, or the one before it. */
  function LastVector(data: seq<byte>, iv: seq<byte>): seq<byte>
    decreases |data|
  {
    if |data| < 4 || !Framed(data) then iv
    else
      var stated := if data[0] == AT_IV then IvOf(data[2..Length(data)]) else None;
      LastVector(data[Length(data)..], if stated.Some? then stated.value else iv)
  }

  lemma LeafVector(dec: Cipher, a: Attr, value: seq<byte>, after: seq<byte>, c: Ctx)
    requires !a.kind.Tlv? && c.haveIv
    ensures var r := DecodeValue(dec, a, value, after, c);
            r.Ok? ==> r.ctx == (if a.num == AT_IV && IvOf(value).Some? then c.(iv := IvOf(value).value) else c)
                      && (a.num == AT_IV ==> IvOf(value).Some?)
  {
    hide LeafValue, U16;
  }

  /** An AT_IV inside a container replaces the vector, which stays as it is if and only if that states the same. */
  lemma {:induction false} InnerVectorReplaces(dec: Cipher, a: Attr, data: seq<byte>, n: nat, c: Ctx)
    requires Flat(a.children) && c.haveIv
    ensures var r := DecodeChildren(dec, a, data, n, c);
            r.Ok? ==> r.ctx == c.(iv := LastVector(data, c.iv)) && (r.ctx == c <==> LastVector(data, c.iv) == c.iv)
    decreases |data|
  {
    hide DecodeValue, IvOf;
    if |data| >= 4 && Framed(data) {
      var child := Lookup(a.children, data[0]);
      if child.Some? {
        LeafVector(dec, child.value, data[2..Length(data)], data[Length(data)..], c);
      }
      var r := DecodeChild(dec, a, data, n, c);
      if r.Ok? {
        InnerVectorReplaces(dec, a, data[Length(data)..], n, r.ctx);
      }
    }
  }

  lemma {:induction false} ElementsKeep(dec: Cipher, a: Attr, data: seq<byte>, size: nat, count: nat, c: Ctx)
    requires Span(size, count) <= |data| && !a.kind.Tlv? && a.num != AT_IV
    ensures DecodeElements(dec, a, data, size, count, c).Ok? ==> DecodeElements(dec, a, data, size, count, c).ctx == c
    decreases count
  {
    if count > 0 {
      ElementsKeep(dec, a, data[size..], size, count - 1, c);
    }
  }

  lemma ArrayKeeps(dec: Cipher, a: Attr, value: seq<byte>, c: Ctx)
    requires |value| >= 2 && !a.kind.Tlv? && a.num != AT_IV
    ensures DecodeArray(dec, a, value, c).Ok? ==> DecodeArray(dec, a, value, c).ctx == c
  {
    hide DecodeElements;
    var actual := ActualLen(a, value);
    if actual.Some? && actual.value > 0 {
      var m := ArrayMembers(a, actual.value);
      if m.Some? {
        MembersFill(a, actual.value);
        ElementsKeep(dec, a, value[2..], m.value.0, m.value.1, c);
      }
    }
  }

  lemma TlvUses(dec: Cipher, a: Attr, value: seq<byte>, after: seq<byte>, c: Ctx, iv: seq<byte>)
    requires |value| >= 2 && Flat(a.children) && Knows(c, iv)
    requires Contents(dec, a, value, iv).Some? ==> InnerVectors(Contents(dec, a, value, iv).value, iv)
    ensures var r := DecodeTlv(dec, a, value, after, c);
            r.Ok? ==> r.ctx == c.(uses := c.uses + if a.encrypted then [Use(iv, value[2..])] else [])
  {
    hide DecodeChildren, InnerVectors;
    var body := if a.encrypted then Decrypt(dec, value[2..], after, c) else Some((value[2..], c));
    if body.Some? {
      ChildrenKeep(dec, a, body.value.0, |value| + |after|, body.value.1, iv);
    }
  }

  /** One attribute leaves the vector as it is and records the decryption it asks for. */
  lemma PairUses(dec: Cipher, dict: seq<Attr>, data: seq<byte>, c: Ctx, iv: seq<byte>)
    requires Plain(dict) && Framed(data) && Knows(c, iv) && StatesOnly(dec, dict, data, iv)
    ensures var r := DecodePair(dec, dict, data, c);
            r.Ok? ==> r.ctx == c.(uses := c.uses + Decryption(dict, data, iv))
  {
    hide DecodeArray, DecodeTlv, InnerVectors;
    var a := Lookup(dict, data[0]);
    if a.Some? {
      var value, after := data[2..Length(data)], data[Length(data)..];
      if a.value.isArray {
        ArrayKeeps(dec, a.value, value, c);
      } else if a.value.kind.Tlv? {
        TlvUses(dec, a.value, value, after, c, iv);
      } else {
        LeafKeeps(dec, a.value, value, after, c, iv);
      }
    }
  }

  lemma {:induction false} KnownUses(dec: Cipher, dict: seq<Attr>, data: seq<byte>, c: Ctx, iv: seq<byte>)
    requires Plain(dict) && Knows(c, iv) && OneVector(dec, dict, data, iv)
    ensures var r := DecodeAll(dec, dict, data, c); r.Ok? ==> r.ctx == c.(uses := c.uses + Decryptions(dict, data, iv))
    decreases |data|
  {
    if Framed(data) {
      PairUses(dec, dict, data, c, iv);
      var r := DecodePair(dec, dict, data, c);
      if r.Ok? {
        WholeUnlessShort(dec, dict, data, c);
        hide DecodePair, StatesOnly, ShortArray, Decryption;
        KnownUses(dec, dict, data[Length(data)..], r.ctx, iv);
        Associate(c.uses, Decryption(dict, data, iv), Decryptions(dict, data[Length(data)..], iv));
      }
    }
  }

  lemma {:induction false} OneVectorWhole(dec: Cipher, dict: seq<Attr>, data: seq<byte>, iv: seq<byte>)
    requires OneVector(dec, dict, data, iv)
    ensures WholeToIv(dict, data)
    decreases |data|
  {
    hide StatesOnly, ShortArray;
    if Framed(data) {
      OneVectorWhole(dec, dict, data[Length(data)..], iv);
    }
  }

  /**
    A packet with one vector, wherever AT_IV stands in it: every encrypted container is decrypted, once, in
    order, and with that vector, although nothing was known of it at the start.
   */
  lemma EveryContainerUsesTheVector(dec: Cipher, dict: seq<Attr>, data: seq<byte>, c: Ctx, iv: seq<byte>)
    requires Plain(dict) && !c.haveIv && FindIv(data) == Some(iv) && OneVector(dec, dict, data, iv)
    ensures var r := DecodeAll(dec, dict, data, c);
            r.Ok? ==> Knows(r.ctx, iv) && r.ctx.uses == c.uses + Decryptions(dict, data, iv)
  {
    hide DecodeAll, OneVector, FindIv;
    var d := c.(haveIv := true, iv := iv);
    OneVectorWhole(dec, dict, data, iv);
    LookAheadIsKnowing(dec, dict, data, c, d, iv);
    KnownUses(dec, dict, data, d, iv);
  }

  // ----- Moving AT_IV -----

  /** AT_IV with the vector `iv` on the wire. */
  function Stated(iv: seq<byte>): seq<byte>
    requires |iv| == IV_SIZE
  {
    [AT_IV, 5, 0, 0] + iv
  }

  lemma StatedLength(iv: seq<byte>)
    requires |iv| == IV_SIZE
    ensures |Stated(iv)| == 20
  {
  }

  /** A run of whole attributes, none of them AT_IV. */
  predicate Attributes(data: seq<byte>)
    decreases |data|
  {
    data == [] || (Framed(data) && data[0] != AT_IV && Attributes(data[Length(data)..]))
  }

  lemma {:induction false} LengthModFour(dec: Cipher, a: Attr, data: seq<byte>, n: nat, m: nat, c: Ctx)
    requires n % 4 == m % 4
    ensures DecodeChildren(dec, a, data, n, c) == DecodeChildren(dec, a, data, m, c)
    decreases |data|
  {
    hide DecodeValue;
    if |data| >= 4 {
      var r := DecodeChild(dec, a, data, n, c);
      assert r == DecodeChild(dec, a, data, m, c);
      if r.Ok? {
        LengthModFour(dec, a, data[r.consumed..], n, m, r.ctx);
      }
    }
  }

  lemma TlvLocal(dec: Cipher, a: Attr, value: seq<byte>, after: seq<byte>, other: seq<byte>, c: Ctx)
    requires |value| >= 2 && c.haveIv && |after| % 4 == |other| % 4
    ensures DecodeTlv(dec, a, value, after, c) == DecodeTlv(dec, a, value, other, c)
  {
    hide DecodeChildren;
    var body := if a.encrypted then Decrypt(dec, value[2..], after, c) else Some((value[2..], c));
    if body.Some? {
      LengthModFour(dec, a, body.value.0, |value| + |after|, |value| + |other|, body.value.1);
    }
  }

  /** With the vector known, what follows an attribute matters only for its length modulo four. */
  lemma PairLocal(dec: Cipher, dict: seq<Attr>, x: seq<byte>, y: seq<byte>, c: Ctx)
    requires Framed(x) && Framed(y) && Length(x) == Length(y) && x[..Length(x)] == y[..Length(x)]
    requires c.haveIv && |x| % 4 == |y| % 4
    ensures DecodePair(dec, dict, x, c) == DecodePair(dec, dict, y, c)
  {
    hide DecodeTlv, DecodeArray, LeafValue, U16, IvOf;
    var len := Length(x);
    var a := Lookup(dict, x[0]);
    assert x[0] == x[..len][0] == y[0];
    assert x[2..len] == x[..len][2..] == y[2..len];
    if a.Some? && a.value.kind.Tlv? {
      var c' := if a.value.num == AT_IV && IvOf(x[2..len]).Some? then c.(iv := IvOf(x[2..len]).value) else c;
      TlvLocal(dec, a.value, x[2..len], x[len..], y[len..], c');
    }
  }

  /** AT_IV with the vector that is known already: it adds its own attribute and nothing else changes. */
  lemma StatedAgain(dec: Cipher, dict: seq<Attr>, iv: seq<byte>, rest: seq<byte>, c: Ctx)
    requires Plain(dict) && |iv| == IV_SIZE && Knows(c, iv)
    ensures DecodePair(dec, dict, Stated(iv) + rest, c) == Ok(20, c, StatedPairs(dict, iv))
  {
    var data := Stated(iv) + rest;
    assert data[1] == 5 && Length(data) == 20;
    assert data[2..20] == Stated(iv)[2..] == [0, 0] + iv;
    assert IvOf(data[2..20]) == Some(iv);
    var a := Lookup(dict, AT_IV).value;
    assert DecodePair(dec, dict, data, c) == Ok(20, c, LeafValue(a, [0, 0] + iv, c).pairs);
  }

  /** What AT_IV adds to the list of attributes. */
  function StatedPairs(dict: seq<Attr>, iv: seq<byte>): seq<Pair>
    requires |iv| == IV_SIZE
  {
    var a := Lookup(dict, AT_IV).value;
    if a.kind.Tlv? then [] else
    var r := LeafValue(a, [0, 0] + iv, Ctx(true, iv, true, []));
    if r.Ok? then r.pairs else []
  }

  /** `r` is `s` with `more` put in after the first `k` attributes of the list. */
  predicate Inserted(r: Result, s: Result, k: nat, more: seq<Pair>) {
    (r.Err? && s.Err?)
    || (r.Ok? && s.Ok? && r.consumed == s.consumed + 20 && r.ctx == s.ctx
        && k <= |s.pairs| && r.pairs == s.pairs[..k] + more + s.pairs[k..])
  }

  lemma InsertedLater(n: nat, front: seq<Pair>, r: Result, s: Result, k: nat, more: seq<Pair>)
    requires Inserted(r, s, k, more)
    ensures Inserted(Prefixed(n, front, r), Prefixed(n, front, s), |front| + k, more)
  {
    if s.Ok? {
      var all := front + s.pairs;
      assert all[..|front| + k] == front + s.pairs[..k];
      assert all[|front| + k..] == s.pairs[k..];
    }
  }

  /** The attribute at the head of a packet, whatever follows it. */
  lemma HeadOnly(dec: Cipher, dict: seq<Attr>, a: seq<byte>, rest: seq<byte>, iv: seq<byte>)
    requires Framed(a)
    ensures Framed(a + rest) && Length(a + rest) == Length(a) && (a + rest)[..Length(a)] == a[..Length(a)]
    ensures (a + rest)[Length(a)..] == a[Length(a)..] + rest && (a + rest)[0] == a[0]
    ensures ShortArray(dict, a + rest) == ShortArray(dict, a)
    ensures StatesOnly(dec, dict, a + rest, iv) == StatesOnly(dec, dict, a, iv)
  {
    var x, len := a + rest, Length(a);
    assert x[0] == a[0] && x[1] == a[1];
    assert x[2..len] == a[2..len];
  }

  /** One attribute decoded alike before either of two continuations. */
  lemma HeadStep(dec: Cipher, dict: seq<Attr>, a: seq<byte>, x: seq<byte>, y: seq<byte>, c: Ctx, iv: seq<byte>)
    requires Plain(dict) && Knows(c, iv) && Framed(a) && OneVector(dec, dict, a, iv) && |x| % 4 == |y| % 4
    ensures DecodePair(dec, dict, a + x, c) == DecodePair(dec, dict, a + y, c)
    ensures var r := DecodePair(dec, dict, a + x, c);
            if r.Err? then DecodeAll(dec, dict, a + x, c).Err? && DecodeAll(dec, dict, a + y, c).Err?
            else
              && Knows(r.ctx, iv) && r.consumed == Length(a)
              && DecodeAll(dec, dict, a + x, c)
                 == Prefixed(Length(a), r.pairs, DecodeAll(dec, dict, a[Length(a)..] + x, r.ctx))
              && DecodeAll(dec, dict, a + y, c)
                 == Prefixed(Length(a), r.pairs, DecodeAll(dec, dict, a[Length(a)..] + y, r.ctx))
  {
    assert !ShortArray(dict, a) && StatesOnly(dec, dict, a, iv);
    hide DecodePair, StatesOnly, ShortArray, Decryption, OneVector, Plain, Length;
    HeadOnly(dec, dict, a, x, iv);
    HeadOnly(dec, dict, a, y, iv);
    PairLocal(dec, dict, a + x, a + y, c);
    PairUses(dec, dict, a + x, c, iv);
    if DecodePair(dec, dict, a + x, c).Ok? {
      WholeUnlessShort(dec, dict, a + x, c);
    }
  }

  lemma StatedFirst(dec: Cipher, dict: seq<Attr>, b: seq<byte>, c: Ctx, iv: seq<byte>)
    requires Plain(dict) && Knows(c, iv) && |iv| == IV_SIZE
    ensures DecodeAll(dec, dict, Stated(iv) + b, c) == Prefixed(20, StatedPairs(dict, iv), DecodeAll(dec, dict, b, c))
  {
    StatedAgain(dec, dict, iv, b, c);
    assert (Stated(iv) + b)[20..] == b;
    hide DecodePair, StatedPairs;
  }

  /** With the vector known, AT_IV only adds itself to the list, wherever it stands. */
  lemma {:induction false} StatedAnywhere(dec: Cipher, dict: seq<Attr>, a: seq<byte>, b: seq<byte>, c: Ctx,
                                          iv: seq<byte>)
    returns (k: nat)
    requires Plain(dict) && Knows(c, iv) && |iv| == IV_SIZE && Attributes(a) && OneVector(dec, dict, a, iv)
    ensures Inserted(DecodeAll(dec, dict, a + (Stated(iv) + b), c), DecodeAll(dec, dict, a + b, c), k,
                     StatedPairs(dict, iv))
    decreases |a|
  {
    hide DecodePair, DecodeAll, StatesOnly, ShortArray, StatedPairs, Stated, Length;
    k := 0;
    if a == [] {
      assert a + (Stated(iv) + b) == Stated(iv) + b && a + b == b;
      StatedFirst(dec, dict, b, c, iv);
    } else {
      assert |Stated(iv) + b| == 20 + |b| by { StatedLength(iv); }
      HeadStep(dec, dict, a, Stated(iv) + b, b, c, iv);
      var r := DecodePair(dec, dict, a + b, c);
      if r.Ok? {
        var rest := a[Length(a)..];
        var j := StatedAnywhere(dec, dict, rest, b, r.ctx, iv);
        InsertedLater(Length(a), r.pairs, DecodeAll(dec, dict, rest + (Stated(iv) + b), r.ctx),
                      DecodeAll(dec, dict, rest + b, r.ctx), j, StatedPairs(dict, iv));
        k := |r.pairs| + j;
      }
    }
  }

  /** The look-ahead finds the first AT_IV after a run of whole attributes. */
  lemma {:induction false} FoundAhead(dec: Cipher, dict: seq<Attr>, a: seq<byte>, b: seq<byte>, iv: seq<byte>)
    requires |iv| == IV_SIZE && Attributes(a) && OneVector(dec, dict, a, iv)
    ensures FindIv(a + (Stated(iv) + b)) == Some(iv) && WholeToIv(dict, a + (Stated(iv) + b))
    decreases |a|
  {
    var x := Stated(iv) + b;
    if a == [] {
      assert a + x == x && x[1] == 5 && x[2..20] == [0, 0] + iv;
    } else {
      HeadOnly(dec, dict, a, x, iv);
      FoundAhead(dec, dict, a[Length(a)..], b, iv);
      hide StatesOnly, ShortArray;
    }
  }

  /**
    The place of AT_IV does not matter: nothing known at the start, a packet with AT_IV behind some attributes
    is refused exactly when the packet with AT_IV in front of them is, decrypts the same ciphertexts with the
    same vector, and yields the same attributes but for the place of AT_IV in the list.
   */
  lemma VectorMayComeLater(dec: Cipher, dict: seq<Attr>, a: seq<byte>, b: seq<byte>, c: Ctx, iv: seq<byte>)
    returns (k: nat)
    requires Plain(dict) && !c.haveIv && |iv| == IV_SIZE && Attributes(a) && OneVector(dec, dict, a, iv)
    ensures var d := c.(haveIv := true, iv := iv);
            var rest := DecodeAll(dec, dict, a + b, d);
            DecodeAll(dec, dict, Stated(iv) + (a + b), c) == Prefixed(20, StatedPairs(dict, iv), rest)
            && Inserted(DecodeAll(dec, dict, a + (Stated(iv) + b), c), rest, k, StatedPairs(dict, iv))
  {
    hide DecodePair, DecodeAll, WholeToIv, FindIv, Stated, StatedPairs;
    var d := c.(haveIv := true, iv := iv);
    FoundAhead(dec, dict, a, b, iv);
    LookAheadIsKnowing(dec, dict, a + (Stated(iv) + b), c, d, iv);
    k := StatedAnywhere(dec, dict, a, b, d, iv);
    FoundAhead(dec, dict, [], a + b, iv);
    assert [] + (Stated(iv) + (a + b)) == Stated(iv) + (a + b);
    LookAheadIsKnowing(dec, dict, Stated(iv) + (a + b), c, d, iv);
    StatedFirst(dec, dict, a + b, d, iv);
  }
}
