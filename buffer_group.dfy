/**
 * Buffer groups: append-only lists of (size, data) spans.
 *
 * A span is modelled by the bytes it refers to. `ConstBufferGroup` is the
 * read-only list; `BufferGroup` is the writable list, which wraps one and
 * hands it out as its read-only view without copying.
 */
module BufferGroups {
  import opened Spans

  /** One span as `get_buffer` reports it: its size and the bytes it refers to. */
  datatype Buffer = Buffer(size: nat, data: seq<byte>)

  class ConstBufferGroup {
    var buffers: seq<seq<byte>>

    constructor ()
      ensures buffers == []
    {
      buffers := [];
    }

    /**
     * Appends the span of `s` bytes starting where `d` starts. The spans
     * already present stay as they were, the count grows by one and the
     * total size by `s`.
     */
    method AddBuffer(s: nat, d: seq<byte>)
      requires s <= |d|
      modifies this
      ensures buffers == old(buffers) + [d[..s]]
      ensures |buffers| == |old(buffers)| + 1
      ensures buffers[..|old(buffers)|] == old(buffers) && buffers[|old(buffers)|] == d[..s]
      ensures TotalSize(buffers) == TotalSize(old(buffers)) + s
    {
      FlattenAppend(buffers, d[..s]);
      buffers := buffers + [d[..s]];
    }

    /** The number of spans: exactly the indices `GetBuffer` accepts. */
    function NumBuffers(): (n: nat)
      reads this
      ensures n == |buffers|
      ensures forall i :: 0 <= i < n ==> GetBuffer(i).data == buffers[i]
      ensures n == 0 ==> TotalSize(buffers) == 0
    {
      |buffers|
    }

    /** The i-th span in append order; its size is the number of bytes it refers to. */
    function GetBuffer(i: nat): (b: Buffer)
      requires i < |buffers|
      reads this
      ensures b.size == |b.data| && b.data == buffers[i]
    {
      Buffer(|buffers[i]|, buffers[i])
    }

    /** Adds up the span sizes, first to last: the length of the logical byte sequence. */
    method GetSize() returns (s: nat)
      ensures s == TotalSize(buffers)
      ensures s == |Flatten(buffers)|
    {
      s := 0;
      var i := 0;
      while i < |buffers|
        invariant 0 <= i <= |buffers|
        invariant s == TotalSize(buffers[..i])
      {
        TotalSizePrefix(buffers, i);
        s := s + |buffers[i]|;
        i := i + 1;
      }
      assert buffers[..i] == buffers;
    }
  }

  class BufferGroup {
    const inner: ConstBufferGroup

    constructor ()
      ensures fresh(inner) && inner.buffers == []
    {
      inner := new ConstBufferGroup();
    }

    ghost function Spans(): seq<seq<byte>>
      reads this, inner
    {
      inner.buffers
    }

    method AddBuffer(s: nat, d: seq<byte>)
      requires s <= |d|
      modifies inner
      ensures Spans() == old(Spans()) + [d[..s]]
      ensures TotalSize(Spans()) == TotalSize(old(Spans())) + s
    {
      inner.AddBuffer(s, d);
    }

    /** The writable group reports the same span count as its read-only view. */
    function NumBuffers(): (n: nat)
      reads this, inner
      ensures n == ConstView(this).NumBuffers()
      ensures n == |Spans()|
    {
      inner.NumBuffers()
    }

    /** The i-th writable span, as the read-only view reports it. */
    function GetBuffer(i: nat): (b: Buffer)
      requires i < |Spans()|
      reads this, inner
      ensures b == ConstView(this).GetBuffer(i)
      ensures b.size == |b.data| && b.data == Spans()[i]
    {
      inner.GetBuffer(i)
    }

    method GetSize() returns (s: nat)
      ensures s == TotalSize(Spans())
      ensures s == |Flatten(Spans())|
    {
      s := inner.GetSize();
    }

    /**
     * Writes through the spans: each span keeps its size and now holds the
     * given bytes. The list itself (count, order, sizes) is unchanged.
     */
    method Store(spans: seq<seq<byte>>)
      requires SameShape(spans, Spans())
      modifies inner
      ensures Spans() == spans
    {
      inner.buffers := spans;
    }
  }

  /**
   * The read-only view of a writable group: the group's own span list, not a
   * copy, so both report the same count, sizes, bytes and total.
   */
  function ConstView(g: BufferGroup): (v: ConstBufferGroup)
    reads g, g.inner
    ensures v.buffers == g.Spans()
    ensures TotalSize(v.buffers) == TotalSize(g.Spans())
  {
    g.inner
  }
}
