/**
 * Byte sequences split into spans.
 *
 * A span list (a buffer group) stands for one logical byte sequence: the
 * concatenation of its spans, in order. Its total size is the sum of the span
 * lengths. Every provider operation is stated in terms of these two functions.
 */
module Spans {

  newtype byte = b: int | 0 <= b < 256

  /** The logical byte sequence of a span list: its spans, one after another. */
  function Flatten(g: seq<seq<byte>>): (r: seq<byte>)
    ensures |r| == TotalSize(g)
  {
    if g == [] then [] else g[0] + Flatten(g[1..])
  }

  /** The sum of the span lengths. */
  function TotalSize(g: seq<seq<byte>>): nat
  {
    if g == [] then 0 else |g[0]| + TotalSize(g[1..])
  }

  /** Two span lists with the same number of spans and the same length span by span. */
  predicate SameShape(a: seq<seq<byte>>, b: seq<seq<byte>>)
  {
    |a| == |b| && forall i :: 0 <= i < |a| ==> |a[i]| == |b[i]|
  }

  lemma {:induction false} FlattenConcat(a: seq<seq<byte>>, b: seq<seq<byte>>)
    ensures Flatten(a + b) == Flatten(a) + Flatten(b)
    ensures TotalSize(a + b) == TotalSize(a) + TotalSize(b)
  {
    if a == [] {
      assert a + b == b;
    } else {
      assert (a + b)[0] == a[0];
      assert (a + b)[1..] == a[1..] + b;
      FlattenConcat(a[1..], b);
    }
  }

  /** Appending a span extends the logical sequence by that span and the total by its length. */
  lemma FlattenAppend(g: seq<seq<byte>>, b: seq<byte>)
    ensures Flatten(g + [b]) == Flatten(g) + b
    ensures TotalSize(g + [b]) == TotalSize(g) + |b|
  {
    FlattenConcat(g, [b]);
    assert [b][1..] == [];
  }

  /** The total size of a prefix grows by one span length per span, and never exceeds the whole. */
  lemma TotalSizePrefix(g: seq<seq<byte>>, i: nat)
    requires i < |g|
    ensures TotalSize(g[..i + 1]) == TotalSize(g[..i]) + |g[i]|
    ensures TotalSize(g[..i + 1]) <= TotalSize(g)
  {
    assert g[..i + 1] == g[..i] + [g[i]];
    FlattenAppend(g[..i], g[i]);
    assert g == g[..i + 1] + g[i + 1..];
    FlattenConcat(g[..i + 1], g[i + 1..]);
  }

  /** Byte j of span i sits at offset TotalSize(g[..i]) + j of the logical sequence. */
  lemma FlattenAt(g: seq<seq<byte>>, i: nat, j: nat)
    requires i < |g| && j < |g[i]|
    ensures TotalSize(g[..i]) + j < |Flatten(g)|
    ensures Flatten(g)[TotalSize(g[..i]) + j] == g[i][j]
  {
    var rest := [g[i]] + g[i + 1..];
    assert g == g[..i] + rest;
    FlattenConcat(g[..i], rest);
    assert rest[1..] == g[i + 1..];
    assert Flatten(rest) == g[i] + Flatten(g[i + 1..]);
  }

  /**
   * The logical bytes up to a point inside span i, extended by the next n
   * bytes of that span, are the logical bytes up to n positions further on.
   */
  lemma ExtendWithinSpan(g: seq<seq<byte>>, i: nat, off: nat, n: nat)
    requires i < |g| && off + n <= |g[i]|
    ensures TotalSize(g[..i]) + off + n <= TotalSize(g)
    ensures Flatten(g)[..TotalSize(g[..i]) + off + n]
         == Flatten(g)[..TotalSize(g[..i]) + off] + g[i][off..off + n]
  {
    var base := TotalSize(g[..i]) + off;
    var bytes := Flatten(g);
    TotalSizePrefix(g, i);
    var taken := bytes[base..base + n];
    var chunk := g[i][off..off + n];
    forall k | 0 <= k < n
      ensures taken[k] == chunk[k]
    {
      FlattenAt(g, i, off + k);
    }
    assert bytes[..base + n] == bytes[..base] + taken;
  }

  /**
   * Writes a byte sequence across the spans of a list, in order, keeping
   * every span's length: what a producer does to the buffers it is given.
   */
  function Scatter(bytes: seq<byte>, shape: seq<seq<byte>>): (r: seq<seq<byte>>)
    requires |bytes| == TotalSize(shape)
    ensures SameShape(r, shape)
    ensures Flatten(r) == bytes
  {
    if shape == [] then []
    else
      var head := bytes[..|shape[0]|];
      var tail := Scatter(bytes[|shape[0]|..], shape[1..]);
      assert ([head] + tail)[1..] == tail;
      [head] + tail
  }

  /** A span list is determined by its shape and its logical bytes. */
  lemma {:induction false} ShapeAndBytesDetermine(a: seq<seq<byte>>, b: seq<seq<byte>>)
    requires SameShape(a, b) && Flatten(a) == Flatten(b)
    ensures a == b
  {
    if a != [] {
      assert a[0] == Flatten(a)[..|a[0]|];
      assert b[0] == Flatten(b)[..|b[0]|];
      assert Flatten(a[1..]) == Flatten(a)[|a[0]|..];
      assert Flatten(b[1..]) == Flatten(b)[|b[0]|..];
      ShapeAndBytesDetermine(a[1..], b[1..]);
      assert a == [a[0]] + a[1..];
      assert b == [b[0]] + b[1..];
    }
  }
}
