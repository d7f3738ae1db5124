/** Octets, network byte order and byte-sequence helpers shared by every component. */
module Bytes {

  type byte = x: int | 0 <= x < 256

  datatype Option<+T> = None | Some(value: T)

  /** Increment of a `uint8_t`. */
  function Inc(b: byte): byte {
    if b == 255 then 0 else b + 1
  }

  /** The value of a two-octet field in network byte order. */
  function U16(hi: byte, lo: byte): (n: nat)
    ensures n < 65536
  {
    hi * 256 + lo
  }

  /** The two octets of `n` in network byte order; wraps like a `uint16_t`. */
  function Net16(n: nat): (b: seq<byte>)
    ensures |b| == 2
    ensures U16(b[0], b[1]) == n % 65536
  {
    var m := n % 65536;
    [m / 256, m % 256]
  }

  /** Concatenation of a list of byte strings. */
  function Flatten<T>(parts: seq<seq<T>>): seq<T> {
    if parts == [] then [] else parts[0] + Flatten(parts[1..])
  }

  lemma {:induction false} FlattenAppend<T>(parts: seq<seq<T>>, more: seq<seq<T>>)
    ensures Flatten(parts + more) == Flatten(parts) + Flatten(more)
  {
    if parts == [] {
      assert parts + more == more;
    } else {
      FlattenAppend(parts[1..], more);
      assert (parts + more)[1..] == parts[1..] + more;
      Associate(parts[0], Flatten(parts[1..]), Flatten(more));
    }
  }

  lemma AppendParts<T>(a: seq<T>, b: seq<T>)
    ensures (a + b)[..|a|] == a && (a + b)[|a|..] == b
  {
  }

  lemma Associate<T>(a: seq<T>, b: seq<T>, c: seq<T>)
    ensures a + (b + c) == a + b + c
  {
  }

  lemma SplitAt<T>(s: seq<T>, i: nat)
    requires i < |s|
    ensures s[..i + 1] == s[..i] + [s[i]]
    ensures s == s[..i + 1] + s[i + 1..]
  {
  }

  /** The whole is what the first parts make, then the next part, then what the others make. */
  lemma FlattenAt<T>(parts: seq<seq<T>>, i: nat)
    requires i < |parts|
    ensures Flatten(parts[..i + 1]) == Flatten(parts[..i]) + parts[i]
    ensures Flatten(parts) == Flatten(parts[..i + 1]) + Flatten(parts[i + 1..])
  {
    hide Flatten;
    SplitAt(parts, i);
    FlattenSnoc(parts[..i], parts[i]);
    FlattenAppend(parts[..i + 1], parts[i + 1..]);
  }

  lemma FlattenSnoc<T>(parts: seq<seq<T>>, last: seq<T>)
    ensures Flatten(parts + [last]) == Flatten(parts) + last
  {
    FlattenAppend(parts, [last]);
    assert Flatten([last]) == last + Flatten([]);
  }
}
