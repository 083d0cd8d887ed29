/**
 * The splitter: one single-read provider served to any number of readers.
 *
 * The splitter drains its source once, through `GetDataAsBuffers`, and keeps
 * the resulting group, or a null group when the drain failed. Every branch is
 * the same reusable provider, so every read of every branch sees the same
 * group, or fails.
 */
module Splitters {
  import opened Spans
  import opened BufferGroups
  import opened DataProviders

  /** The provider every branch hands out; unlike other providers it may be read again and again. */
  class ReusableProvider {
    const size: nat
    /** Null if reads must fail. */
    const bg: ConstBufferGroup?
    /** What the drained source delivered. */
    ghost const content: Result<seq<byte>>

    ghost predicate Valid()
      reads this, bg
    {
      && (bg != null <==> content.Ok?)
      && (bg != null ==> TotalSize(bg.buffers) == size && Flatten(bg.buffers) == content.value)
    }

    constructor (size: nat, bg: ConstBufferGroup?, ghost content: Result<seq<byte>>)
      requires bg != null <==> content.Ok?
      requires bg != null ==> TotalSize(bg.buffers) == size && Flatten(bg.buffers) == content.value
      ensures Valid()
      ensures this.size == size && this.bg == bg && this.content == content
    {
      this.size := size;
      this.bg := bg;
      this.content := content;
    }

    /** The drained source's size: the total of the stored group, whenever there is one. */
    function GetSize(): (s: nat)
      reads this, bg
      ensures Valid() && bg != null ==> s == TotalSize(bg.buffers) && s == |Flatten(bg.buffers)|
      ensures Valid() && content.Ok? ==> s == |content.value|
    {
      size
    }

    /** The memoized group, the same one on every call, or a failure on every call. */
    method GetDataAsBuffers() returns (r: Result<ConstBufferGroup>)
      requires Valid()
      ensures r.Ok? <==> content.Ok?
      ensures r.Ok? ==> r.value == bg
      ensures r.Ok? ==> TotalSize(r.value.buffers) == size && Flatten(r.value.buffers) == content.value
    {
      if bg != null {
        r := Ok(bg);
      } else {
        r := Failed;
      }
    }

    /** The copying bridge over the memoized group. */
    method GetDataIntoBuffers(dest: BufferGroup) returns (r: Result<()>)
      requires Valid()
      requires TotalSize(dest.Spans()) == size && dest.inner != bg
      modifies dest.inner
      ensures Valid()
      ensures r.Ok? <==> content.Ok?
      ensures SameShape(dest.Spans(), old(dest.Spans()))
      ensures r.Ok? ==> Flatten(dest.Spans()) == content.value
    {
      var group := GetDataAsBuffers();
      match group
      case Failed =>
        r := Failed;
      case Ok(g) =>
        CopyInto(g, dest);
        r := Ok(());
    }
  }

  class Splitter {
    const reusable: ReusableProvider

    ghost predicate Valid()
      reads this, reusable, reusable.bg
    {
      reusable.Valid()
    }

    /** Drains `dp` once; its size, bytes or failure are what every branch reports. */
    constructor (dp: SourceProvider)
      requires dp.Valid() && !dp.consumed
      modifies dp
      ensures Valid() && dp.Valid() && dp.consumed
      ensures fresh(reusable)
      ensures reusable.size == dp.size && reusable.content == dp.content
      ensures reusable.bg != null ==> reusable.bg == dp.buffer
    {
      var drained := dp.GetDataAsBuffers();
      var bg: ConstBufferGroup? := if drained.Ok? then drained.value else null;
      reusable := new ReusableProvider(dp.size, bg, dp.content);
    }

    /** A provider for one more reader: the shared reusable provider. */
    method Branch() returns (p: ReusableProvider)
      requires Valid()
      ensures p == reusable && p.Valid()
    {
      p := reusable;
    }
  }

  /** Two branches, read in turn, see the same group or both fail, as the source did. */
  method ReadTwoBranches(s: Splitter) returns (first: Result<ConstBufferGroup>, second: Result<ConstBufferGroup>)
    requires s.Valid()
    ensures first == second
    ensures first.Ok? <==> s.reusable.content.Ok?
    ensures first.Ok? ==> Flatten(first.value.buffers) == s.reusable.content.value
  {
    var a := s.Branch();
    first := a.GetDataAsBuffers();
    var b := s.Branch();
    second := b.GetDataAsBuffers();
  }
}
