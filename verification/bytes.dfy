/**
 Byte strings. Go's `string` and `[]byte` are both sequences of bytes, and the
 server never interprets them as anything else, so this model uses one type,
 `Bytes`, for request buffers, header names and values, paths and responses.
 The module also holds `Option`, the result of every operation that can come
 back empty: a failed file write, a header line without a colon, a missing
 header, a path without a slash.
 */
module Bytes {

  newtype byte = b: int | 0 <= b < 256

  type Bytes = seq<byte>

  datatype Option<+T> = None | Some(value: T)

  const LF: byte := 10
  const CR: byte := 13
  const SP: byte := 32
  const SLASH: byte := 47
  const COLON: byte := 58

  /** The bytes of a string literal, one per character; every literal this model uses is ASCII. */
  function Ascii(s: string): (r: Bytes)
    ensures |r| == |s|
  {
    seq(|s|, i requires 0 <= i < |s| => if s[i] as int < 256 then s[i] as int as byte else 63)
  }

  /** The position of the first `b` in `s`, or `|s|` when there is none (Go's IndexByte gives -1 there). */
  function FirstIndex(s: Bytes, b: byte): (k: nat)
    ensures k <= |s|
    ensures b !in s[..k]
    ensures k < |s| ==> s[k] == b
    decreases |s|
  {
    if |s| == 0 then 0
    else if s[0] == b then 0
    else
      var k := 1 + FirstIndex(s[1..], b);
      assert s[..k] == [s[0]] + s[1..][..k - 1];
      k
  }

  /** The three properties of `FirstIndex` determine it. */
  lemma FirstIndexIs(s: Bytes, b: byte, k: nat)
    requires k <= |s|
    requires b !in s[..k]
    requires k < |s| ==> s[k] == b
    ensures FirstIndex(s, b) == k
  {
  }

  /** The first `b` in `a + [b] + c`, when `a` holds none, is the one after `a`. */
  lemma FirstIndexAfter(a: Bytes, b: byte, c: Bytes)
    requires b !in a
    ensures FirstIndex(a + [b] + c, b) == |a|
  {
    var s := a + [b] + c;
    assert s[..|a|] == a;
    FirstIndexIs(s, b, |a|);
  }

  /** Taking and dropping at the seam of a concatenation gives back its parts. */
  lemma AppendParts(a: Bytes, b: Bytes)
    ensures (a + b)[..|a|] == a
    ensures (a + b)[|a|..] == b
  {
  }

  lemma AppendAssoc<T>(a: seq<T>, b: seq<T>, c: seq<T>)
    ensures a + b + c == a + (b + c)
  {
  }

  lemma DropHead<T>(x: T, s: seq<T>)
    ensures ([x] + s)[1..] == s
  {
  }

  /** The number of occurrences of `b` in `s`. */
  function Count(s: Bytes, b: byte): nat
    decreases |s|
  {
    if |s| == 0 then 0
    else (if s[0] == b then 1 else 0) + Count(s[1..], b)
  }

  lemma CountAppend(s: Bytes, t: Bytes, b: byte)
    ensures Count(s + t, b) == Count(s, b) + Count(t, b)
    decreases |s|
  {
    if |s| == 0 {
      assert s + t == t;
    } else {
      assert (s + t)[1..] == s[1..] + t;
      CountAppend(s[1..], t, b);
    }
  }

  lemma CountAbsent(s: Bytes, b: byte)
    requires b !in s
    ensures Count(s, b) == 0
    decreases |s|
  {
    if |s| > 0 {
      CountAbsent(s[1..], b);
    }
  }

  /** The parts joined with `sep` between neighbours (Go's strings.Join with a one-byte separator). */
  function Join(parts: seq<Bytes>, sep: byte): Bytes
    decreases |parts|
  {
    if |parts| == 0 then []
    else if |parts| == 1 then parts[0]
    else parts[0] + [sep] + Join(parts[1..], sep)
  }

  /** The parts laid end to end. */
  function Concat(parts: seq<Bytes>): Bytes
    decreases |parts|
  {
    if |parts| == 0 then [] else parts[0] + Concat(parts[1..])
  }

  /** A byte absent from every part is absent from their concatenation. */
  lemma {:induction false} ConcatAvoids(parts: seq<Bytes>, b: byte)
    requires forall i :: 0 <= i < |parts| ==> b !in parts[i]
    ensures b !in Concat(parts)
    decreases |parts|
  {
    if |parts| > 0 {
      ConcatAvoids(parts[1..], b);
    }
  }
}
