/**
 The pieces of Go's `strings` package the server calls: Split and SplitN with a
 one-byte separator, TrimSpace and TrimPrefix.
 */
module Strings {
  import opened Bytes

  /** strings.Split(s, sep): the pieces of `s` between occurrences of `sep`. */
  function Split(s: Bytes, sep: byte): (parts: seq<Bytes>)
    ensures |parts| >= 1
    ensures forall i :: 0 <= i < |parts| ==> sep !in parts[i]
    ensures Join(parts, sep) == s
    decreases |s|
  {
    var k := FirstIndex(s, sep);
    if k == |s| then [s]
    else
      var rest := Split(s[k + 1..], sep);
      assert s == s[..k] + [sep] + s[k + 1..];
      assert ([s[..k]] + rest)[1..] == rest;
      [s[..k]] + rest
  }

  /** Splitting `a + [sep] + c`, when `a` holds no separator, yields `a` and then the pieces of `c`. */
  lemma SplitAfter(a: Bytes, sep: byte, c: Bytes)
    requires sep !in a
    ensures Split(a + [sep] + c, sep) == [a] + Split(c, sep)
  {
    var s := a + [sep] + c;
    FirstIndexAfter(a, sep, c);
    assert s[..|a|] == a;
    assert s[|a| + 1..] == c;
  }

  /** Split inverts Join: pieces free of the separator come back unchanged. */
  lemma {:induction false} SplitJoin(parts: seq<Bytes>, sep: byte)
    requires |parts| >= 1
    requires forall i :: 0 <= i < |parts| ==> sep !in parts[i]
    ensures Split(Join(parts, sep), sep) == parts
    decreases |parts|
  {
    if |parts| == 1 {
      FirstIndexIs(parts[0], sep, |parts[0]|);
    } else {
      SplitJoin(parts[1..], sep);
      SplitAfter(parts[0], sep, Join(parts[1..], sep));
    }
  }

  /** The first piece of a split runs up to the first separator. */
  lemma SplitHead(s: Bytes, sep: byte)
    ensures Split(s, sep)[0] == s[..FirstIndex(s, sep)]
  {
    if FirstIndex(s, sep) == |s| {
      assert s[..|s|] == s;
    }
  }

  /** Split yields one more piece than there are separators. */
  lemma {:induction false} SplitCount(s: Bytes, sep: byte)
    ensures |Split(s, sep)| == Count(s, sep) + 1
    decreases |s|
  {
    var k := FirstIndex(s, sep);
    if k == |s| {
      assert s[..k] == s;
      CountAbsent(s, sep);
    } else {
      assert s == s[..k] + [sep] + s[k + 1..];
      CountAbsent(s[..k], sep);
      CountAppend(s[..k] + [sep], s[k + 1..], sep);
      CountAppend(s[..k], [sep], sep);
      SplitCount(s[k + 1..], sep);
    }
  }

  /** strings.SplitN(s, sep, 2): `s` alone when `sep` is absent, else the text before and after its first occurrence. */
  function SplitN2(s: Bytes, sep: byte): (parts: seq<Bytes>)
    ensures |parts| == 1 || |parts| == 2
    ensures |parts| == 1 <==> sep !in s
    ensures |parts| == 1 ==> parts[0] == s
    ensures |parts| == 2 ==> sep !in parts[0] && parts[0] + [sep] + parts[1] == s
  {
    var k := FirstIndex(s, sep);
    if k == |s| then
      assert s[..k] == s;
      [s]
    else
      assert s == s[..k] + [sep] + s[k + 1..];
      [s[..k], s[k + 1..]]
  }

  /** The cut at the first separator: `a + [sep] + c` with no separator in `a` splits into `a` and `c`. */
  lemma SplitN2After(a: Bytes, sep: byte, c: Bytes)
    requires sep !in a
    ensures SplitN2(a + [sep] + c, sep) == [a, c]
  {
    var s := a + [sep] + c;
    FirstIndexAfter(a, sep, c);
    assert s[..|a|] == a;
    assert s[|a| + 1..] == c;
  }

  /** The bytes TrimSpace removes on its ASCII path: tab, line feed, vertical tab, form feed, carriage return, space. */
  predicate IsSpace(b: byte)
  {
    b == 9 || b == 10 || b == 11 || b == 12 || b == 13 || b == 32
  }

  predicate AllSpace(s: Bytes)
  {
    forall i :: 0 <= i < |s| ==> IsSpace(s[i])
  }

  /** No white space at either end. */
  predicate IsTrimmed(s: Bytes)
  {
    |s| == 0 || (!IsSpace(s[0]) && !IsSpace(s[|s| - 1]))
  }

  /** The longest suffix of `s` that does not start with white space. */
  function TrimLeadingSpace(s: Bytes): (r: Bytes)
    ensures |r| <= |s| && r == s[|s| - |r|..]
    ensures AllSpace(s[..|s| - |r|])
    ensures |r| == 0 || !IsSpace(r[0])
    decreases |s|
  {
    if |s| > 0 && IsSpace(s[0]) then
      var r := TrimLeadingSpace(s[1..]);
      assert s[..|s| - |r|] == [s[0]] + s[1..][..|s| - 1 - |r|];
      r
    else s
  }

  /** The longest prefix of `s` that does not end with white space. */
  function TrimTrailingSpace(s: Bytes): (r: Bytes)
    ensures |r| <= |s| && r == s[..|r|]
    ensures AllSpace(s[|r|..])
    ensures |r| == 0 || !IsSpace(r[|r| - 1])
    decreases |s|
  {
    if |s| > 0 && IsSpace(s[|s| - 1]) then
      var r := TrimTrailingSpace(s[..|s| - 1]);
      assert s[|r|..] == s[..|s| - 1][|r|..] + [s[|s| - 1]];
      r
    else s
  }

  /** strings.TrimSpace(s), over ASCII white space: `s` without its leading and trailing white space. */
  function TrimSpace(s: Bytes): (r: Bytes)
    ensures IsTrimmed(r)
    ensures |r| <= |s|
    ensures IsTrimmed(s) ==> r == s
  {
    var t := TrimLeadingSpace(s);
    var r := TrimTrailingSpace(t);
    assert |r| > 0 ==> r[0] == t[0];
    r
  }

  lemma {:induction false} TrimLeadingOfPadded(pre: Bytes, x: Bytes)
    requires AllSpace(pre)
    requires |x| == 0 || !IsSpace(x[0])
    ensures TrimLeadingSpace(pre + x) == x
    decreases |pre|
  {
    if |pre| == 0 {
      assert pre + x == x;
    } else {
      assert (pre + x)[1..] == pre[1..] + x;
      TrimLeadingOfPadded(pre[1..], x);
    }
  }

  lemma {:induction false} TrimTrailingOfPadded(x: Bytes, post: Bytes)
    requires AllSpace(post)
    requires |x| == 0 || !IsSpace(x[|x| - 1])
    ensures TrimTrailingSpace(x + post) == x
    decreases |post|
  {
    if |post| == 0 {
      assert x + post == x;
    } else {
      var s := x + post;
      assert s[..|s| - 1] == x + post[..|post| - 1];
      TrimTrailingOfPadded(x, post[..|post| - 1]);
    }
  }

  /** TrimSpace removes exactly the white space around a trimmed core. */
  lemma TrimSpaceOfPadded(pre: Bytes, x: Bytes, post: Bytes)
    requires AllSpace(pre) && AllSpace(post)
    requires IsTrimmed(x)
    ensures TrimSpace(pre + x + post) == x
  {
    assert pre + x + post == pre + (x + post);
    if |x| == 0 {
      assert x + post == post;
      TrimLeadingOfPadded(pre + post, []);
      assert pre + post + [] == pre + post;
      TrimTrailingOfPadded([], []);
    } else {
      TrimLeadingOfPadded(pre, x + post);
      TrimTrailingOfPadded(x, post);
    }
  }

  /** strings.TrimPrefix(s, prefix): `s` without a leading `prefix`, or `s` itself when it does not start with one. */
  function TrimPrefix(s: Bytes, prefix: Bytes): (r: Bytes)
    ensures prefix <= s ==> prefix + r == s
    ensures !(prefix <= s) ==> r == s
  {
    if prefix <= s then s[|prefix|..] else s
  }
}
