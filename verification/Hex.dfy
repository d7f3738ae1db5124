/**
  Hex text (src/bin/unit_test_attribute.c): the printer `hex_print`, and the parser `hex_to_bin` that may
  write its output over its own input. Characters are octets.
 */
module Hex {
  import opened Bytes

  const SPACE: byte := 32

  function Digit(d: nat): byte
    requires d < 16
  {
    if d < 10 then 48 + d else 87 + d
  }

  function Pair(b: byte): (t: seq<byte>)
    ensures |t| == 2
  {
    [Digit(b / 16), Digit(b % 16)]
  }

  /** What is printed for some octets: two lower-case digits each, separated by spaces. */
  function Text(bs: seq<byte>): (t: seq<byte>)
    ensures |t| == if bs == [] then 0 else 3 * |bs| - 1
  {
    if bs == [] then []
    else if |bs| == 1 then Pair(bs[0])
    else Pair(bs[0]) + [SPACE] + Text(bs[1..])
  }

  /** The text of one more octet. */
  lemma {:induction false} TextSnoc(bs: seq<byte>, b: byte)
    requires bs != []
    ensures Text(bs + [b]) == Text(bs) + [SPACE] + Pair(b)
  {
    hide Pair;
    if |bs| > 1 {
      TextSnoc(bs[1..], b);
      assert (bs + [b])[1..] == bs[1..] + [b];
    } else {
      assert (bs + [b])[1..] == [b];
    }
  }

  /** The same with a space after every octet. */
  function Spaced(bs: seq<byte>): (t: seq<byte>)
    ensures |t| == 3 * |bs|
  {
    if bs == [] then [] else Spaced(bs[..|bs| - 1]) + (Pair(bs[|bs| - 1]) + [SPACE])
  }

  lemma {:induction false} SpacedText(bs: seq<byte>)
    requires bs != []
    ensures Spaced(bs) == Text(bs) + [SPACE]
  {
    hide Pair;
    var last := |bs| - 1;
    if last == 0 {
      assert Spaced(bs[..0]) == [];
    } else {
      SpacedText(bs[..last]);
      TextSnoc(bs[..last], bs[last]);
      assert bs == bs[..last] + [bs[last]];
    }
  }

  /** `hex_print`: the text and a terminator, or nothing when they do not fit. */
  method Print(out: array<byte>, bs: seq<byte>) returns (n: nat)
    requires out.Length > 0
    modifies out
    ensures bs == [] ==> n == 0 && out[0] == 0
    ensures bs != [] && out.Length <= 3 * |bs| ==> n == 0
    ensures bs != [] && out.Length > 3 * |bs| ==> n == |Text(bs)| && out[..n] == Text(bs) && out[n] == 0
  {
    hide Pair, Text;
    if |bs| == 0 {
      out[0] := 0;
      return 0;
    }
    var p := 0;
    for i := 0 to |bs|
      invariant p == 3 * i < out.Length
      invariant out[..p] == Spaced(bs[..i])
    {
      if 3 >= out.Length - p {
        return 0;
      }
      ghost var before := out[..p];
      var pair := Pair(bs[i]);
      out[p], out[p + 1], out[p + 2] := pair[0], pair[1], SPACE;
      out[p + 3] := 0;
      assert out[..p + 3] == before + (pair + [SPACE]);
      assert bs[..i + 1][..i] == bs[..i];
      p := p + 3;
    }
    assert bs[..|bs|] == bs;
    SpacedText(bs);
    AppendParts(Text(bs), [SPACE]);
    p := p - 1;
    out[p] := 0;
    assert out[..p] == Spaced(bs)[..p];
    return p;
  }

  // ----- Parsing -----

  predicate IsSpace(c: byte) { 9 <= c <= 13 || c == SPACE }

  /** The position of a character in the table of digits; the table's terminator is part of it. */
  function Value(c: byte): Option<nat> {
    if 48 <= c <= 57 then Some(c - 48)
    else if 97 <= c <= 102 then Some(c - 87)
    else if 65 <= c <= 70 then Some(c - 55)
    else if c == 0 then Some(16)
    else None
  }

  /** The digits in either case, the white space of the C locale, and the terminator. */
  lemma CharactersExactly(c: byte, d: nat)
    ensures d < 16 ==> (Value(c) == Some(d) <==> c == Digit(d) || (d >= 10 && c == Digit(d) - 32))
    ensures Value(c) == Some(16) <==> c == 0
    ensures Value(c) == Some(d) ==> d <= 16
    ensures IsSpace(c) <==> c in {9, 10, 11, 12, 13, 32}
  {
  }

  /** Terminated text of `len` characters. */
  predicate Terminated(text: seq<byte>, len: nat) {
    len < |text| && text[len] == 0
  }

  function SkipSpaces(text: seq<byte>, len: nat, p: nat): (q: nat)
    requires Terminated(text, len) && p <= len
    ensures p <= q <= len && !IsSpace(text[q])
    decreases len - p
  {
    if IsSpace(text[p]) then SkipSpaces(text, len, p + 1) else p
  }

  /** The octets that were parsed, or the position, at most, where parsing stopped. */
  datatype Parsed = Parsed(bytes: seq<byte>) | Bad(at: nat)

  /** `hex_to_bin` from position `p`, when `acc` was already parsed, into a buffer of its own. */
  function Parse(text: seq<byte>, len: nat, p: nat, acc: seq<byte>, room: nat): Parsed
    requires Terminated(text, len) && p <= len + 1
    decreases len + 1 - p
  {
    if p >= len then Parsed(acc)
    else if |acc| >= room then Bad(p)
    else
      var q := SkipSpaces(text, len, p);
      if text[q] == 0 then Parsed(acc)
      else
        var c1, c2 := Value(text[q]), Value(text[q + 1]);
        if c1 == None then Bad(q + 1)
        else if c2 == None then Bad(q + 2)
        else Parse(text, len, q + 2, acc + [(c1.value * 16 + c2.value) % 256], room)
  }

  /**
    `hex_to_bin` with the output written over the input: every text is parsed as it would be into a
    buffer of its own.
   */
  method ParseInPlace(buf: array<byte>, len: nat, room: nat) returns (n: int)
    requires Terminated(buf[..], len) && room <= buf.Length
    modifies buf
    ensures match Parse(old(buf[..]), len, 0, [], room)
      case Parsed(bytes) => n == |bytes| <= buf.Length && buf[..n] == bytes
      case Bad(at) => n == 0 - at
  {
    hide Value, IsSpace, Parse, SkipSpaces;
    ghost var text := buf[..];
    var p, q := 0, 0;
    while p < len
      invariant p <= len + 1 && 2 * q <= p
      invariant forall i :: p <= i < buf.Length ==> buf[i] == text[i]
      invariant Parse(text, len, 0, [], room) == Parse(text, len, p, buf[..q], room)
      decreases len + 1 - p
    {
      ParseStep(text, len, p, buf[..q], room);
      if q >= room {
        return 0 - p;
      }
      p := SkipInPlace(buf, text, len, p);
      if buf[p] == 0 {
        return q;
      }
      var c1 := Value(buf[p]);
      p := p + 1;
      if c1 == None {
        return 0 - p;
      }
      var c2 := Value(buf[p]);
      p := p + 1;
      if c2 == None {
        return 0 - p;
      }
      var b := (c1.value * 16 + c2.value) % 256;
      ghost var done := buf[..q];
      buf[q] := b;
      q := q + 1;
      assert buf[..q] == done + [b];
    }
    ParseDone(text, len, p, buf[..q], room);
    return q;
  }

  lemma ParseDone(text: seq<byte>, len: nat, p: nat, acc: seq<byte>, room: nat)
    requires Terminated(text, len) && len <= p <= len + 1
    ensures Parse(text, len, p, acc, room) == Parsed(acc)
  {
  }

  /** One round of the parser. */
  lemma ParseStep(text: seq<byte>, len: nat, p: nat, acc: seq<byte>, room: nat)
    requires Terminated(text, len) && p < len
    ensures |acc| >= room ==> Parse(text, len, p, acc, room) == Bad(p)
    ensures var q := SkipSpaces(text, len, p);
      |acc| < room ==>
        if text[q] == 0 then Parse(text, len, p, acc, room) == Parsed(acc)
        else
          && q < len
          && var c1, c2 := Value(text[q]), Value(text[q + 1]);
             Parse(text, len, p, acc, room) ==
               if c1 == None then Bad(q + 1)
               else if c2 == None then Bad(q + 2)
               else Parse(text, len, q + 2, acc + [(c1.value * 16 + c2.value) % 256], room)
  {
    hide Value, IsSpace;
  }

  /** `fr_skip_whitespace` over the part of the buffer that still holds the text. */
  method SkipInPlace(buf: array<byte>, ghost text: seq<byte>, len: nat, p: nat) returns (q: nat)
    requires Terminated(text, len) && |text| == buf.Length && p <= len
    requires forall i :: p <= i < buf.Length ==> buf[i] == text[i]
    ensures q == SkipSpaces(text, len, p)
  {
    q := p;
    while IsSpace(buf[q])
      invariant p <= q <= len && SkipSpaces(text, len, p) == SkipSpaces(text, len, q)
      decreases len - q
    {
      q := q + 1;
    }
  }

  lemma ParseAfterSpace(text: seq<byte>, len: nat, p: nat, acc: seq<byte>, room: nat)
    requires Terminated(text, len) && p + 1 < len && IsSpace(text[p]) && |acc| < room
    ensures Parse(text, len, p, acc, room) == Parse(text, len, p + 1, acc, room)
  {
    assert SkipSpaces(text, len, p) == SkipSpaces(text, len, p + 1);
  }

  lemma PairValue(b: byte)
    ensures var t := Pair(b);
      !IsSpace(t[0]) && t[0] != 0 && Value(t[0]) == Some(b / 16) && Value(t[1]) == Some(b % 16)
  {
  }

  /** The two digits of an octet are parsed as that octet. */
  lemma ParsePair(text: seq<byte>, len: nat, p: nat, b: byte, acc: seq<byte>, room: nat)
    requires Terminated(text, len) && p + 2 <= len && text[p] == Pair(b)[0] && text[p + 1] == Pair(b)[1]
    requires |acc| < room
    ensures Parse(text, len, p, acc, room) == Parse(text, len, p + 2, acc + [b], room)
  {
    PairValue(b);
    hide Pair, Value;
    assert SkipSpaces(text, len, p) == p;
    assert b / 16 * 16 + b % 16 == b;
  }

  lemma TextTail(bs: seq<byte>)
    requires |bs| > 1
    ensures Text(bs)[0] == Pair(bs[0])[0] && Text(bs)[1] == Pair(bs[0])[1] && IsSpace(Text(bs)[2])
    ensures Text(bs)[3..] == Text(bs[1..])
  {
    hide Pair, IsSpace;
    SpaceIsSpace();
    var head, rest := Pair(bs[0]) + [SPACE], Text(bs[1..]);
    assert Text(bs) == head + rest;
    AppendParts(head, rest);
    hide Text;
    assert head[0] == Pair(bs[0])[0] && head[1] == Pair(bs[0])[1] && head[2] == SPACE;
  }

  lemma SpaceIsSpace()
    ensures IsSpace(SPACE)
  {
  }

  /** Parsing the rest of a printed text gives the octets it was printed from. */
  lemma {:induction false} ParsePrinted(text: seq<byte>, len: nat, p: nat, bs: seq<byte>, acc: seq<byte>, room: nat)
    requires bs != [] && |acc| + |bs| <= room
    requires Terminated(text, len) && p <= len && text[p..len] == Text(bs)
    ensures Parse(text, len, p, acc, room) == Parsed(acc + bs)
    decreases |bs|
  {
    hide Pair, IsSpace, Parse;
    var b, t := bs[0], text[p..len];
    assert text[p] == t[0] && text[p + 1] == t[1];
    if |bs| == 1 {
      assert bs == [b];
      ParsePair(text, len, p, b, acc, room);
      ParseDone(text, len, len, acc + [b], room);
    } else {
      TextTail(bs);
      hide Text;
      ParsePair(text, len, p, b, acc, room);
      assert text[p + 2] == t[2];
      ParseAfterSpace(text, len, p + 2, acc + [b], room);
      assert text[p + 3..len] == t[3..];
      ParsePrinted(text, len, p + 3, bs[1..], acc + [b], room);
      assert acc + [b] + bs[1..] == acc + bs;
    }
  }

  /** The parser inverts the printer on every octet string that is not empty. */
  lemma PrintedParses(bs: seq<byte>, room: nat)
    requires bs != [] && |bs| <= room
    ensures Parse(Text(bs) + [0], |Text(bs)|, 0, [], room) == Parsed(bs)
  {
    hide Text, Parse;
    var text := Text(bs) + [0];
    assert text[0..|Text(bs)|] == Text(bs);
    ParsePrinted(text, |Text(bs)|, 0, bs, [], room);
    assert [] + bs == bs;
  }

  // ----- A digit without a partner -----

  /** A parser that does not take the terminator for a digit, and is the same otherwise. */
  function Strict(text: seq<byte>, len: nat, p: nat, acc: seq<byte>, room: nat): Parsed
    requires Terminated(text, len) && p <= len + 1
    decreases len + 1 - p
  {
    if p >= len then Parsed(acc)
    else if |acc| >= room then Bad(p)
    else
      var q := SkipSpaces(text, len, p);
      if text[q] == 0 then Parsed(acc)
      else
        var c1, c2 := Value(text[q]), Value(text[q + 1]);
        if c1 == None then Bad(q + 1)
        else if c2 == None || text[q + 1] == 0 then Bad(q + 2)
        else Strict(text, len, q + 2, acc + [(c1.value * 16 + c2.value) % 256], room)
  }

  /** How many characters after the last space a text ends with. */
  function Tail(text: seq<byte>, p: nat, len: nat): nat
    requires len <= |text|
    decreases len
  {
    if len <= p || IsSpace(text[len - 1]) then 0 else 1 + Tail(text, p, len - 1)
  }

  lemma {:induction false} SkippedAreSpaces(text: seq<byte>, len: nat, p: nat)
    requires Terminated(text, len) && p <= len
    ensures forall i :: p <= i < SkipSpaces(text, len, p) ==> IsSpace(text[i])
    decreases len - p
  {
    if IsSpace(text[p]) {
      SkippedAreSpaces(text, len, p + 1);
    }
  }

  /** Two characters that belong together do not change whether the last run is even. */
  lemma {:induction false} TailParity(text: seq<byte>, p: nat, q: nat, len: nat)
    requires p <= q && q + 2 <= len <= |text| && (forall i :: p <= i < q ==> IsSpace(text[i]))
    requires !IsSpace(text[q]) && !IsSpace(text[q + 1])
    ensures Tail(text, p, len) % 2 == Tail(text, q + 2, len) % 2
    decreases len
  {
    hide IsSpace;
    if len == q + 2 {
      assert Tail(text, p, q) == 0 && Tail(text, p, q + 1) == 1;
    } else {
      TailParity(text, p, q, len - 1);
    }
  }

  lemma DigitNotSpace(c: byte)
    requires Value(c).Some?
    ensures !IsSpace(c)
  {
  }

  /**
    Among the texts that are accepted, the terminator was taken for a digit exactly when the text ends with an odd
    number of characters after its last space.
   */
  lemma {:induction false} TerminatorTakenForDigit(text: seq<byte>, len: nat, p: nat, acc: seq<byte>, room: nat)
    requires Terminated(text, len) && p <= len && (forall i :: 0 <= i < len ==> text[i] != 0)
    requires Parse(text, len, p, acc, room).Parsed?
    ensures Strict(text, len, p, acc, room) == Parse(text, len, p, acc, room) <==> Tail(text, p, len) % 2 == 0
    decreases len - p
  {
    hide Value, IsSpace, SkipSpaces;
    if p < len {
      var q := SkipSpaces(text, len, p);
      SkippedAreSpaces(text, len, p);
      if q == len {
        assert IsSpace(text[len - 1]);
      } else {
        DigitNotSpace(text[q]);
        DigitNotSpace(text[q + 1]);
        if q + 1 == len {
          assert Tail(text, p, q) == 0;
        } else {
          var b := (Value(text[q]).value * 16 + Value(text[q + 1]).value) % 256;
          TailParity(text, p, q, len);
          TerminatorTakenForDigit(text, len, q + 2, acc + [b], room);
        }
      }
    }
  }

  /**
    The shortest such texts: a digit left without a partner is not refused. The terminator counts as the digit
    after `f`, so the octet that is parsed is never the one digit alone.
   */
  lemma LoneDigitAccepted(d: nat, room: nat)
    requires d < 16 && room > 0
    ensures Parse([Digit(d), 0], 1, 0, [], room) == Parsed([(d * 16 + 16) % 256])
  {
    var text := [Digit(d), 0];
    assert Value(text[0]) == Some(d) && Value(text[1]) == Some(16);
    assert Parse(text, 1, 2, [(d * 16 + 16) % 256], room) == Parsed([(d * 16 + 16) % 256]);
  }
}
