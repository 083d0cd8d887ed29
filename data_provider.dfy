/**
 * Data providers: one-shot byte sources with a size and two dual reads.
 *
 * `GetDataIntoBuffers` fills the caller's writable group; `GetDataAsBuffers`
 * hands out a read-only group the provider owns. Either read may fail with the
 * contentless `Failed`, and on a one-shot provider at most one read happens
 * over its lifetime (the ghost flag `consumed` and a `requires` on each read).
 */
module DataProviders {
  import opened Spans
  import opened BufferGroups

  /** A read's outcome; `Failed` stands for `data_provider_failed_exc_t`. */
  datatype Result<+T> = Ok(value: T) | Failed

  /**
   * The copying half of the bridge (`auto_copying_data_provider_t`): copies
   * the bytes of `src` into the spans of `dest`, whose total size must match.
   */
  method CopyInto(src: ConstBufferGroup, dest: BufferGroup)
    requires dest.inner != src
    requires TotalSize(src.buffers) == TotalSize(dest.Spans())
    modifies dest.inner
    ensures src.buffers == old(src.buffers)
    ensures SameShape(dest.Spans(), old(dest.Spans()))
    ensures Flatten(dest.Spans()) == Flatten(src.buffers)
    ensures dest.Spans() == Scatter(Flatten(src.buffers), old(dest.Spans()))
  {
    var into := dest.inner.buffers;
    var filled := FillSpans(src.buffers, into);
    dest.Store(filled);
    ShapeAndBytesDetermine(filled, Scatter(Flatten(src.buffers), into));
  }

  /**
   * The copy loop, with one cursor in each span list. Span boundaries need
   * not line up; each step copies as much as both current spans allow and
   * advances whichever ran out. The result has the destination's shape and
   * the source's bytes.
   */
  method FillSpans(from: seq<seq<byte>>, into: seq<seq<byte>>) returns (done: seq<seq<byte>>)
    requires TotalSize(from) == TotalSize(into)
    ensures SameShape(done, into)
    ensures Flatten(done) == Flatten(from)
  {
    ghost var bytes := Flatten(from);
    done := [];                       // destination spans already filled
    var cur: seq<byte> := [];         // the destination span being filled
    var si, so, di := 0, 0, 0;        // source span, offset in it; destination span
    ghost var copied: nat := 0;
    assert from[..|from|] == from;
    while di < |into|
      invariant 0 <= si <= |from| && 0 <= di <= |into|
      invariant 0 <= so && (si < |from| ==> so <= |from[si]|)
      invariant si == |from| ==> so == 0
      invariant copied == TotalSize(from[..si]) + so
      invariant copied == TotalSize(into[..di]) + |cur|
      invariant di < |into| ==> |cur| <= |into[di]|
      invariant di == |into| ==> cur == []
      invariant SameShape(done, into[..di])
      invariant copied <= |bytes|
      invariant Flatten(done) + cur == bytes[..copied]
      decreases |from| - si + |into| - di + |bytes| - copied
    {
      TotalSizePrefix(into, di);
      if |cur| == |into[di]| {
        FinishSpan(done, cur, into, di);
        done := done + [cur];
        cur := [];
        di := di + 1;
      } else {
        if si == |from| {
          assert false;
        }
        if so == |from[si]| {
          TotalSizePrefix(from, si);
          si, so := si + 1, 0;
        } else {
          var n := if |from[si]| - so < |into[di]| - |cur| then |from[si]| - so else |into[di]| - |cur|;
          ExtendWithinSpan(from, si, so, n);
          ExtendFilled(Flatten(done), cur, from[si][so..so + n], bytes, copied);
          cur := cur + from[si][so..so + n];
          so := so + n;
          copied := copied + n;
        }
      }
    }
    assert into[..di] == into;
    assert bytes[..copied] == bytes;
  }

  /** Copying a chunk extends the bytes filled so far by that chunk. */
  lemma ExtendFilled(filled: seq<byte>, cur: seq<byte>, chunk: seq<byte>, bytes: seq<byte>, k: nat)
    requires k + |chunk| <= |bytes|
    requires filled + cur == bytes[..k]
    requires bytes[..k + |chunk|] == bytes[..k] + chunk
    ensures filled + (cur + chunk) == bytes[..k + |chunk|]
  {
    assert filled + (cur + chunk) == (filled + cur) + chunk;
  }

  /** Closing the current destination span extends the filled prefix by it. */
  lemma FinishSpan(done: seq<seq<byte>>, cur: seq<byte>, into: seq<seq<byte>>, di: nat)
    requires di < |into| && |cur| == |into[di]|
    requires SameShape(done, into[..di])
    ensures SameShape(done + [cur], into[..di + 1])
    ensures Flatten(done + [cur]) == Flatten(done) + cur
  {
    FlattenAppend(done, cur);
    assert into[..di + 1] == into[..di] + [into[di]];
  }

  /**
   * Any producer (a socket reader, a disk reader, an in-memory blob): it
   * knows its size and either delivers `content` or fails. It fills the
   * caller's buffers natively and gets `GetDataAsBuffers` from the buffering
   * half of the bridge (`auto_buffering_data_provider_t`).
   */
  class SourceProvider {
    const size: nat
    const content: Result<seq<byte>>
    ghost var consumed: bool
    /** The bridge's own buffer group; null until buffers are requested. */
    var buffer: ConstBufferGroup?

    ghost predicate Valid()
      reads this
    {
      && (content.Ok? ==> |content.value| == size)
      && (!consumed ==> buffer == null)
    }

    constructor (size: nat, content: Result<seq<byte>>)
      requires content.Ok? ==> |content.value| == size
      ensures Valid() && !consumed
      ensures this.size == size && this.content == content
    {
      this.size := size;
      this.content := content;
      buffer := null;
      consumed := false;
    }

    /** The number of bytes a successful read delivers. */
    function GetSize(): (s: nat)
      reads this
      ensures Valid() && content.Ok? ==> s == |content.value|
    {
      size
    }

    /**
     * Writes the producer's bytes across `dest`, whose total size is
     * `GetSize()`, or fails. Either way `dest` keeps its spans and sizes.
     */
    method GetDataIntoBuffers(dest: BufferGroup) returns (r: Result<()>)
      requires Valid() && !consumed
      requires TotalSize(dest.Spans()) == size
      modifies this, dest.inner
      ensures Valid() && consumed && buffer == null
      ensures r.Ok? <==> content.Ok?
      ensures SameShape(dest.Spans(), old(dest.Spans()))
      ensures r.Ok? ==> Flatten(dest.Spans()) == content.value
    {
      consumed := true;
      match content
      case Failed =>
        r := Failed;
      case Ok(bytes) =>
        dest.Store(Scatter(bytes, dest.inner.buffers));
        r := Ok(());
    }

    /**
     * The buffering bridge: allocates one buffer of `GetSize()` bytes, fills
     * it through a one-span writable group with `GetDataIntoBuffers`, and
     * keeps and returns the read-only view of that group.
     */
    method GetDataAsBuffers() returns (r: Result<ConstBufferGroup>)
      requires Valid() && !consumed
      modifies this
      ensures Valid() && consumed
      ensures r.Ok? <==> content.Ok?
      ensures r.Ok? ==> fresh(r.value) && r.value == buffer
      ensures r.Ok? ==> |r.value.buffers| == 1 && TotalSize(r.value.buffers) == size
      ensures r.Ok? ==> Flatten(r.value.buffers) == content.value
    {
      var writable := new BufferGroup();
      writable.AddBuffer(size, seq(size, _ => 0));
      assert TotalSize([]) == 0;
      var filled := GetDataIntoBuffers(writable);
      if filled.Failed? {
        return Failed;
      }
      buffer := ConstView(writable);
      r := Ok(buffer);
    }
  }

  /** Both reads of one producer's data give the same bytes. */
  method BridgesAgree(p: SourceProvider, q: SourceProvider, dest: BufferGroup)
    returns (filled: Result<()>, exposed: Result<ConstBufferGroup>)
    requires p != q && p.Valid() && q.Valid() && !p.consumed && !q.consumed
    requires p.content == q.content && p.size == q.size
    requires TotalSize(dest.Spans()) == p.size
    modifies p, q, dest.inner
    ensures filled.Ok? <==> exposed.Ok?
    ensures filled.Ok? ==> Flatten(dest.Spans()) == Flatten(exposed.value.buffers)
  {
    filled := p.GetDataIntoBuffers(dest);
    exposed := q.GetDataAsBuffers();
  }

  /**
   * A provider that owns one contiguous buffer and serves it. Reads never
   * fail; `GetDataIntoBuffers` goes through the copying bridge.
   */
  class BufferedProvider {
    const size: nat
    const buffer: array<byte>
    ghost var consumed: bool
    /** The one-span read-only group over `buffer`; built when data is requested. */
    var bg: ConstBufferGroup?

    ghost predicate Valid()
      reads this
    {
      && buffer.Length == size
      && (!consumed ==> bg == null)
    }

    /** Copies `n` bytes out of the caller's buffer `data`. */
    constructor CopyOf(data: seq<byte>, n: nat)
      requires n <= |data|
      ensures Valid() && !consumed && fresh(buffer)
      ensures size == n && buffer[..] == data[..n]
    {
      size := n;
      buffer := new byte[n](i requires 0 <= i < n => data[i]);
      bg := null;
      consumed := false;
    }

    /** Allocates `n` bytes for the creator to fill through `buffer` before any read. */
    constructor Allocate(n: nat)
      ensures Valid() && !consumed && fresh(buffer)
      ensures size == n
    {
      size := n;
      buffer := new byte[n];
      bg := null;
      consumed := false;
    }

    /**
     * Drains `dp` into a fresh buffer of `dp`'s size. The fill goes through a
     * writable group whose only span stands for the new buffer. If `dp` fails
     * no provider is made, and the failure is returned.
     */
    static method FromProvider(dp: SourceProvider) returns (r: Result<BufferedProvider>)
      requires dp.Valid() && !dp.consumed
      modifies dp
      ensures dp.Valid() && dp.consumed
      ensures r.Ok? <==> dp.content.Ok?
      ensures r.Ok? ==> fresh(r.value) && fresh(r.value.buffer)
      ensures r.Ok? ==> r.value.Valid() && !r.value.consumed
      ensures r.Ok? ==> r.value.size == dp.size && r.value.buffer[..] == dp.content.value
    {
      var writable := new BufferGroup();
      writable.AddBuffer(dp.size, seq(dp.size, _ => 0));
      assert TotalSize([]) == 0;
      var filled := dp.GetDataIntoBuffers(writable);
      if filled.Failed? {
        return Failed;
      }
      var span := writable.inner.buffers[0];
      assert writable.inner.buffers == [span];
      assert Flatten([span]) == span + Flatten([]);
      var p := new BufferedProvider.CopyOf(span, dp.size);
      r := Ok(p);
    }

    /** The length of the owned buffer. */
    function GetSize(): (s: nat)
      reads this
      ensures Valid() ==> s == buffer.Length
    {
      size
    }

    /** The owned buffer as a group of exactly one span of `size` bytes. */
    method GetDataAsBuffers() returns (r: Result<ConstBufferGroup>)
      requires Valid() && !consumed
      modifies this
      ensures Valid() && consumed
      ensures r.Ok? && fresh(r.value) && r.value == bg
      ensures r.value.buffers == [buffer[..]]
      ensures TotalSize(r.value.buffers) == size && Flatten(r.value.buffers) == buffer[..]
    {
      consumed := true;
      bg := new ConstBufferGroup();
      bg.AddBuffer(size, buffer[..]);
      assert buffer[..][..size] == buffer[..];
      assert Flatten([buffer[..]]) == buffer[..] + Flatten([]);
      r := Ok(bg);
    }

    /** The copying bridge over `GetDataAsBuffers`: `dest` receives the buffer's bytes. */
    method GetDataIntoBuffers(dest: BufferGroup) returns (r: Result<()>)
      requires Valid() && !consumed
      requires TotalSize(dest.Spans()) == size
      modifies this, dest.inner
      ensures Valid() && consumed
      ensures r.Ok?
      ensures SameShape(dest.Spans(), old(dest.Spans()))
      ensures Flatten(dest.Spans()) == buffer[..]
    {
      var group := GetDataAsBuffers();
      CopyInto(group.value, dest);
      r := Ok(());
    }
  }

  /**
   * Wraps a provider and acts exactly like it: same size, same bytes, same
   * failure. If the wrapped provider is no larger than the threshold, it is
   * drained into a `BufferedProvider` at construction; a failure while doing
   * so is recorded and reported only when data is requested.
   */
  class MaybeBufferedProvider {
    const size: nat
    const original: SourceProvider
    const exceptionWasThrown: bool
    /** Null if the wrapped provider was not buffered. */
    const buffer: BufferedProvider?
    ghost var consumed: bool

    ghost predicate Valid()
      reads this, original, buffer
      reads if buffer != null then {buffer.buffer} else {}
    {
      && original.Valid()
      && size == original.size
      && (exceptionWasThrown ==> buffer == null && original.content.Failed?)
      && (buffer != null ==>
            && buffer.Valid() && buffer.size == size
            && original.content == Ok(buffer.buffer[..])
            && (!consumed ==> !buffer.consumed))
      && (!exceptionWasThrown && buffer == null && !consumed ==> !original.consumed)
    }

    constructor (dp: SourceProvider, threshold: int)
      requires dp.Valid() && !dp.consumed
      modifies dp
      ensures Valid() && !consumed
      ensures original == dp && size == dp.size
      ensures buffer != null || exceptionWasThrown <==> dp.size <= threshold
      ensures exceptionWasThrown <==> dp.size <= threshold && dp.content.Failed?
      ensures buffer != null ==> fresh(buffer) && fresh(buffer.buffer)
      ensures dp.size > threshold ==> !dp.consumed
    {
      var b: BufferedProvider? := null;
      var thrown := false;
      if dp.size <= threshold {
        var r := BufferedProvider.FromProvider(dp);
        match r
        case Ok(p) => b := p;
        case Failed => thrown := true;
      }
      size := dp.size;
      original := dp;
      buffer := b;
      exceptionWasThrown := thrown;
      consumed := false;
    }

    /** The wrapped provider's size, whether or not it was buffered. */
    function GetSize(): (s: nat)
      reads this, original, buffer
      reads if buffer != null then {buffer.buffer} else {}
      ensures Valid() ==> s == original.GetSize()
      ensures Valid() && buffer != null ==> s == buffer.buffer.Length
    {
      size
    }

    /** Fills `dest` exactly as the wrapped provider would. */
    method GetDataIntoBuffers(dest: BufferGroup) returns (r: Result<()>)
      requires Valid() && !consumed
      requires TotalSize(dest.Spans()) == size
      modifies this, original, dest.inner
      modifies if buffer != null then {buffer} else {}
      ensures consumed && Valid()
      ensures r.Ok? <==> original.content.Ok?
      ensures SameShape(dest.Spans(), old(dest.Spans()))
      ensures r.Ok? ==> Flatten(dest.Spans()) == original.content.value
    {
      consumed := true;
      if exceptionWasThrown {
        return Failed;
      }
      if buffer != null {
        r := buffer.GetDataIntoBuffers(dest);
      } else {
        r := original.GetDataIntoBuffers(dest);
      }
    }

    /** Exposes a group holding exactly the wrapped provider's bytes, or fails as it would. */
    method GetDataAsBuffers() returns (r: Result<ConstBufferGroup>)
      requires Valid() && !consumed
      modifies this, original
      modifies if buffer != null then {buffer} else {}
      ensures consumed && Valid()
      ensures r.Ok? <==> original.content.Ok?
      ensures r.Ok? ==> TotalSize(r.value.buffers) == size
      ensures r.Ok? ==> Flatten(r.value.buffers) == original.content.value
    {
      consumed := true;
      if exceptionWasThrown {
        return Failed;
      }
      if buffer != null {
        r := buffer.GetDataAsBuffers();
      } else {
        r := original.GetDataAsBuffers();
      }
    }
  }
}
