# Data providers and block patches, modelled in Dafny

This project models two small parts of a database storage engine.

**Data providers** (`src/data_provider.hpp`). A data provider is a one-shot,
read-only byte source: it knows its size and delivers its bytes at most once;
it may also go unread.
It either fills a caller's writable buffer group (`get_data_into_buffers`) or
exposes a read-only buffer group it owns (`get_data_as_buffers`), and either
read may fail with a contentless exception. A buffer group is an append-only
list of (size, data) spans whose logical content is the concatenation of the
spans. The model covers:

- the two group classes and the read-only view of a writable group;
- the two bridges between the reads: buffering (fill a private buffer, then
  expose it) and copying (copy an exposed group into the caller's spans, with
  span boundaries that need not line up);
- the buffered provider and its three constructors;
- the maybe-buffered wrapper, which buffers small sources and defers a
  failure to the read;
- the splitter's reusable provider, which serves the same group, or the same
  failure, to every branch.

Files:

- `spans.dfy` holds span lists, their flattening, their total size and the
  scatter of bytes across spans.
- `buffer_group.dfy` holds the group classes.
- `data_provider.dfy` holds the providers and both bridges.
- `splitter.dfy` holds the splitter.

**Block patches** (`src/buffer_cache/buf_patch.hpp`). A patch is a small,
ordered change to one block: a block id, a patch counter, the transaction id
of the block version it applies to, and an operation code. A patch serializes
as a `uint16_t` size prefix, the header fields and the kind's own data. A zero
prefix means "no patch here". Patches of one block version are ordered by
their counter. The memcpy and memmove kinds rewrite a buffer in place.
`buf_patch.dfy` models:

- the header and the size functions;
- serialization and loading, with a round trip proved in both directions;
- the ordering;
- the two in-place rewrites, as loops over an `array`, proved against
  functions that state the result byte by byte.

Modelling conventions:

- Bytes are integers in 0..255. A span is modelled by the bytes it refers to.
- Writing through a writable group's span pointers is `BufferGroup.Store`.
  It replaces the span contents and keeps their count and sizes.
- The one-read-per-provider rule is a ghost flag `consumed` plus a
  precondition on each read.
- A thrown `data_provider_failed_exc_t` is the `Failed` result.
- The model has no common provider type, so "any producer" is
  `SourceProvider`. It has a size and a content that is either bytes or a
  failure. It fills natively, and `GetDataAsBuffers` is the buffering bridge.
- The byte widths of `block_id_t` and `ser_transaction_id_t` are parameters
  (`Layout`).
- `buf_patch.cc` is not part of this model, so the byte layout is the model's
  own choice: header fields in declaration order, little-endian, then the
  kind's data as `uint16_t` fields and, for memcpy, the copied bytes. The
  same holds for the bodies of `load_patch`, `serialize` and `operator<`,
  and for the constructors. Their contracts follow the comments in the
  header.

## Model

| member | source | states |
|---|---|---|
| Spans.Flatten | src/data_provider.hpp:30-36 | the logical byte sequence of a group is as long as the sum of its span sizes |
| Spans.FlattenConcat | src/data_provider.hpp:18-23 | appending spans appends their bytes and adds their sizes |
| Spans.Scatter | src/data_provider.hpp:96-100 | writing a byte sequence of the group's total size into its spans keeps every span's size and makes the group hold exactly those bytes |
| Spans.ShapeAndBytesDetermine | src/data_provider.hpp:96-100 | two groups with the same span sizes and the same logical bytes are equal, so a fill is determined by its bytes |
| Spans.ExtendWithinSpan | src/data_provider.hpp:123-130 | one step of the copying bridge: the source bytes up to a point inside a span, extended by the next bytes of that span, are the source bytes up to the later point |
| BufferGroups.ConstBufferGroup.AddBuffer | src/data_provider.hpp:18-23 | appends one span of `s` bytes; earlier spans are unchanged, the count grows by one and the total by `s` |
| BufferGroups.ConstBufferGroup.NumBuffers | src/data_provider.hpp:24-26 | the number of spans, which is exactly the range of indices `get_buffer` accepts; zero spans total zero bytes |
| BufferGroups.ConstBufferGroup.GetBuffer | src/data_provider.hpp:27-29 | the i-th span in append order, with its size equal to its length |
| BufferGroups.ConstBufferGroup.GetSize | src/data_provider.hpp:30-36 | the loop's sum is the total of the span sizes, which is the length of the group's logical bytes |
| BufferGroups.BufferGroup.AddBuffer | src/data_provider.hpp:47 | delegates to the inner group: append one span, the total grows by `s` |
| BufferGroups.BufferGroup.NumBuffers | src/data_provider.hpp:48 | the writable group reports the same span count as its read-only view |
| BufferGroups.BufferGroup.GetBuffer | src/data_provider.hpp:49-55 | the writable span equals what the read-only view reports for the same index |
| BufferGroups.BufferGroup.GetSize | src/data_provider.hpp:56 | the total of the span sizes of the inner group |
| BufferGroups.BufferGroup.Store | src/data_provider.hpp:43-46 | writing through the span pointers changes span contents only, never count or sizes |
| BufferGroups.ConstView | src/data_provider.hpp:63-65 | the view is the group's own span list, not a copy: same spans, same total |
| DataProviders.FillSpans | src/data_provider.hpp:123-130 | the two-cursor copy returns spans with the destination's count and sizes that hold exactly the source's bytes |
| DataProviders.CopyInto | src/data_provider.hpp:127-130 | the copying bridge leaves the source unchanged and leaves the destination with its shape and the source's bytes, which is the one such fill |
| DataProviders.SourceProvider.GetSize | src/data_provider.hpp:92-94 | the size is the number of bytes a successful read delivers |
| DataProviders.SourceProvider.GetDataIntoBuffers | src/data_provider.hpp:96-100 | a read fills the caller's spans with the producer's bytes, keeping their sizes, or fails exactly when the producer fails; it consumes the provider |
| DataProviders.SourceProvider.GetDataAsBuffers | src/data_provider.hpp:111-121 | the buffering bridge returns a fresh one-span group of `get_size()` bytes holding the producer's bytes, kept as the provider's buffer, or fails exactly when the producer fails |
| DataProviders.BridgesAgree | src/data_provider.hpp:96-108 | for two providers built from the same producer data, filling the caller's buffers and exposing buffers give the same bytes or both fail |
| DataProviders.BufferedProvider.FromProvider | src/data_provider.hpp:137 | drains the wrapped provider into a fresh buffer of its size holding its bytes; no provider is made if the wrapped one fails |
| DataProviders.BufferedProvider.CopyOf | src/data_provider.hpp:138 | the provider owns a fresh buffer holding the first `n` bytes of the caller's data |
| DataProviders.BufferedProvider.Allocate | src/data_provider.hpp:139 | the provider owns a fresh buffer of `n` bytes for its creator to fill |
| DataProviders.BufferedProvider.GetSize | src/data_provider.hpp:140 | the length of the owned buffer |
| DataProviders.BufferedProvider.GetDataAsBuffers | src/data_provider.hpp:141-145 | never fails; returns a group of exactly one span: the owned buffer |
| DataProviders.BufferedProvider.GetDataIntoBuffers | src/data_provider.hpp:135 | the copying bridge: the caller's spans keep their sizes and receive the owned buffer's bytes; never fails |
| DataProviders.MaybeBufferedProvider.constructor | src/data_provider.hpp:148-168 | buffers exactly when the size is at most the threshold; records a failure exactly when it buffered and the source failed; leaves a large source unread |
| DataProviders.MaybeBufferedProvider.GetSize | src/data_provider.hpp:156 | the wrapped provider's size, and the buffer's length when it buffered |
| DataProviders.MaybeBufferedProvider.GetDataIntoBuffers | src/data_provider.hpp:148-157 | fills with the wrapped provider's bytes, or fails exactly when the wrapped provider fails, whether it buffered or not; the provider stays valid after the read |
| DataProviders.MaybeBufferedProvider.GetDataAsBuffers | src/data_provider.hpp:158-167 | exposes a group of the wrapped size holding the wrapped bytes, or fails exactly when the wrapped provider fails; the provider stays valid after the read |
| Splitters.ReusableProvider.GetSize | src/data_provider.hpp:221-223 | the drained source's size: the total and logical length of the stored group whenever there is one |
| Splitters.ReusableProvider.GetDataAsBuffers | src/data_provider.hpp:224-227 | returns the stored group when it is not null and fails otherwise; the group holds the drained bytes |
| Splitters.ReusableProvider.GetDataIntoBuffers | src/data_provider.hpp:218 | the copying bridge over the stored group: the drained bytes, or the failure |
| Splitters.Splitter.constructor | src/data_provider.hpp:214 | drains the source once; the reusable provider keeps its size and bytes, or a null group on failure |
| Splitters.Splitter.Branch | src/data_provider.hpp:215 | every branch is the same shared reusable provider |
| Splitters.ReadTwoBranches | src/data_provider.hpp:207-209 | two branches read in turn see the same group or both fail, as the source did |
| BufPatch.DecodeLE | src/buffer_cache/buf_patch.hpp:35-37 | a field read from `w` bytes fits in `w` bytes |
| BufPatch.DecodeEncode | src/buffer_cache/buf_patch.hpp:35-40 | a field written in `w` bytes reads back as itself when it fits |
| BufPatch.EncodeDecode | src/buffer_cache/buf_patch.hpp:35-40 | writing back a field that was read gives the same bytes |
| BufPatch.DataSize | src/buffer_cache/buf_patch.hpp:73 | the kind's data holds at least two `uint16_t` fields, and a memcpy patch's data is longer than its copied bytes |
| BufPatch.DataSizeAsWritten | src/buffer_cache/buf_patch.hpp:108 | the `uint16_t` result of `get_data_size`: below 65536, the true data size whenever that fits (always for memmove), and otherwise short of it by at least 65536 |
| BufPatch.SerializeData | src/buffer_cache/buf_patch.hpp:72 | the kind's data is `DataSize` bytes long and starts with the destination offset; a memcpy patch's data holds its length and then its bytes |
| BufPatch.LoadData | src/buffer_cache/buf_patch.hpp:98-120 | the loading constructors accept only the memcpy and memmove codes, give a patch of that code whose fields fit `uint16_t` and whose data size is the data's length; a memmove patch loads exactly from 6 bytes |
| BufPatch.DataRoundTrip | src/buffer_cache/buf_patch.hpp:97-98 | the kind's data, once serialized, loads back as the same memcpy or memmove patch |
| BufPatch.LoadDataSerializes | src/buffer_cache/buf_patch.hpp:119-120 | loaded kind data has fields that fit `uint16_t`, the code it was loaded under, and serializes back to the same bytes |
| BufPatch.MinSerializedSize | src/buffer_cache/buf_patch.hpp:45-47 | the header holds at least the size prefix, the patch counter and the operation code |
| BufPatch.DataStartsAtMinSize | src/buffer_cache/buf_patch.hpp:45-47 | in every serialized patch the operation code is the byte just before `get_min_serialized_size()`, and the kind's data starts there |
| BufPatch.SerializedSize | src/buffer_cache/buf_patch.hpp:42-47 | the serialized size is never below the minimum serialized size |
| BufPatch.SerializeValue | src/buffer_cache/buf_patch.hpp:39-40 | the serialized patch is `get_min_serialized_size()` plus `get_data_size()` bytes long |
| BufPatch.LoadValue | src/buffer_cache/buf_patch.hpp:35-37 | loading gives the null patch exactly when the leading `uint16_t` is 0; any other result that is not malformed comes from a size prefix at least the header size and within the source |
| BufPatch.LoadFields | src/buffer_cache/buf_patch.hpp:75-82 | reading past the prefix never gives the null patch; it gives a leaf kind exactly for a leaf code, and a loaded patch has the kind its code names and fields that fit their types |
| BufPatch.LoadDispatchesOnCode | src/buffer_cache/buf_patch.hpp:75-82 | with a size prefix at least the header size and within the source: a leaf code gives that leaf kind, a memcpy or memmove code gives a patch of that kind or a malformed result, any other code is malformed; conversely a loaded patch or leaf kind carries the code byte |
| BufPatch.RoundTrip | src/buffer_cache/buf_patch.hpp:35-40 | after serializing, loading (whatever bytes follow) gives the same block id, counter, transaction id, code and data |
| BufPatch.LoadThenSerialize | src/buffer_cache/buf_patch.hpp:35-40 | a loaded patch fits its field types and serializes back to exactly the bytes it was loaded from |
| BufPatch.SerializedSizeAsWritten | src/buffer_cache/buf_patch.hpp:42-44 | the `uint16_t` result is below 65536 and equals the true size or falls short of it by at least 65536 |
| BufPatch.SizeAsWrittenThroughDataSize | src/buffer_cache/buf_patch.hpp:42-44 | adding the truncated `uint16_t` data size to the header size gives the same wrapped serialized size as truncating the full sum once |
| BufPatch.SerializeAsWritten | src/buffer_cache/buf_patch.hpp:39-44 | serializing with the truncated size writes as many bytes as the true size |
| BufPatch.AsWrittenAgreesWhenFits | src/buffer_cache/buf_patch.hpp:42-44 | when the size fits the prefix, the truncated size is the true size and the as-written serialization is the corrected one |
| BufPatch.WrappingPatch | src/buffer_cache/buf_patch.hpp:94-113 | a memcpy patch whose fields all fit but whose serialized size is exactly 65536 |
| BufPatch.WrappedSizeReadsAsNoPatch | src/buffer_cache/buf_patch.hpp:42-44 | with the truncated size, that patch gets a zero prefix and loads as the null patch |
| BufPatch.Precedes | src/buffer_cache/buf_patch.hpp:67 | `operator<`: a patch of an older block version precedes one of a newer version, a patch never precedes one of an older version, and never one with the same (transaction id, counter) |
| BufPatch.SameVersionOrderedByCounter | src/buffer_cache/buf_patch.hpp:18-24 | within one block version, `operator<` is the patch counter order |
| BufPatch.PrecedesIsStrictOrder | src/buffer_cache/buf_patch.hpp:67 | `operator<` is irreflexive, asymmetric and transitive, and total on distinct (transaction id, counter) pairs |
| BufPatch.MemcpyResult | src/buffer_cache/buf_patch.hpp:94 | bytes `[dest_offset, dest_offset+n)` become the source bytes; every other byte is unchanged |
| BufPatch.MemmoveResult | src/buffer_cache/buf_patch.hpp:116 | bytes `[dest_offset, dest_offset+n)` become the bytes at `[src_offset, src_offset+n)` before the move, even when the ranges overlap; every other byte is unchanged |
| BufPatch.MemcpyInPlace | src/buffer_cache/buf_patch.hpp:102 | the in-place copy leaves the buffer equal to `MemcpyResult` of its old contents |
| BufPatch.MemmoveInPlace | src/buffer_cache/buf_patch.hpp:122 | the in-place move, front to back or back to front by direction, leaves the buffer equal to `MemmoveResult` of its old contents |
| BufPatch.Patch.MemcpyPatch | src/buffer_cache/buf_patch.hpp:97 | a memcpy patch of the first `n` source bytes with the given block id and counter |
| BufPatch.Patch.MemmovePatch | src/buffer_cache/buf_patch.hpp:119 | a memmove patch with the given block id, counter and offsets |
| BufPatch.Patch.FromValue | src/buffer_cache/buf_patch.hpp:98 | a patch rebuilt from loaded fields has exactly those fields |
| BufPatch.Patch.GetPatchCounter | src/buffer_cache/buf_patch.hpp:49-51 | the patch's counter, which fits `patch_counter_t` |
| BufPatch.Patch.GetTransactionId | src/buffer_cache/buf_patch.hpp:52-54 | the patch's transaction id, which fits `ser_transaction_id_t` |
| BufPatch.Patch.GetBlockId | src/buffer_cache/buf_patch.hpp:58-60 | the patch's block id, which fits `block_id_t` |
| BufPatch.Patch.GetOperationCode | src/buffer_cache/buf_patch.hpp:75-76 | a patch object is a memcpy or a memmove patch |
| BufPatch.Patch.SetTransactionId | src/buffer_cache/buf_patch.hpp:55-57 | afterwards the transaction id is `t`; block id, counter and kind data are unchanged |
| BufPatch.Patch.GetSerializedSize | src/buffer_cache/buf_patch.hpp:42-44 | the `uint16_t` result, below 65536; when the size fits, it is the number of bytes `serialize` writes and never below the minimum |
| BufPatch.Patch.Serialize | src/buffer_cache/buf_patch.hpp:40 | the patch is written at the start of the destination with `get_serialized_size()` as its prefix, bytes after it untouched; when the size fits, this is the serialization that loads back as the same patch |
| BufPatch.Patch.LoadPatch | src/buffer_cache/buf_patch.hpp:35-37 | null exactly for a zero size prefix; otherwise a fresh patch with the loaded fields |
| BufPatch.Patch.ApplyToBuf | src/buffer_cache/buf_patch.hpp:65 | the buffer becomes the kind's result on its old contents |

## Left out

- `buffer_borrowing_data_provider_t` and its side provider (data_provider.hpp:171-205): they hand buffers between threads with condition variables. Concurrency is not modelled.
- Aliasing: a span is modelled by its bytes, not by a pointer into shared memory. Two groups that refer to the same memory are not tied together, except a writable group and its read-only view, which are one object.
- Wrappers over wrappers: with no common base type, the buffered, maybe-buffered and splitter wrappers take a `SourceProvider`, not another wrapper.
- `discard()` and the destructor-time read mentioned in the one-shot rule are not declared in the header and are not modelled.
- Splitters.Splitter.constructor: drains the source at construction. The header keeps only `size` and `bg`, with no flag for a deferred drain, so a drain put off until the first read is not modelled.
- DataProviders.MaybeBufferedProvider.constructor: the `int` size field and the `int` threshold are unbounded integers. The truncation of a `size_t` size above `INT_MAX` into `int size` is not modelled.
- The `ssize_t` span sizes and the `int` loop index in `get_size` are unbounded integers. Overflow of the sum is not modelled.
- `data_provider_failed_exc_t::what()` returns a fixed message. The failure carries no data and is modelled as `Failed`.
- Leaf-node patch kinds (`OPER_LEAF_SHIFT_PAIRS` through `OPER_LEAF_REMOVE`): their classes are not in the header. Loading one gives `UnmodelledKind` with its code.
- `get_affected_data_size`: its bodies are not in the header.
- BufPatch.Patch.MemcpyPatch: the transaction id a new patch starts with is not in the header, so the model starts at 0. The same holds for BufPatch.Patch.MemmovePatch.
- BufPatch.Precedes: `operator<` accepts any two patches, but the header orders patches only within one block, so the model compares patches of the same block id only; patches of different blocks are not compared.
- BufPatch.DataSize: the untruncated length of the kind's data, which the serialization functions use; the `uint16_t` value `get_data_size` returns is `DataSizeAsWritten`, and the wrapped serialized size does not depend on which of the two is summed (`SizeAsWrittenThroughDataSize`).
- BufPatch.MinSerializedSize: the `uint16_t` result of `get_min_serialized_size` is not truncated; it stays far below 65536 at any real width of `block_id_t` and `ser_transaction_id_t`, while the model's `Layout` widths are unbounded.
- BufPatch.LoadValue: bytes that are not a well-formed patch give `Malformed`. What the source does with them is not in the header.

## Findings

| source | as written | input that shows it | evidently intended | confidence | as-written member | corrected member |
|---|---|---|---|---|---|---|
| src/buffer_cache/buf_patch.hpp:42-44 | `get_serialized_size` returns the header size plus `get_data_size()` as a `uint16_t`, so a sum of 65536 or more wraps | a memcpy patch with `65536 - get_min_serialized_size() - 4` source bytes: every field fits, the size wraps to 0, the prefix is 0 and the patch loads as "no patch" | the serialized size fits the `uint16_t` prefix; larger patches are not serialized | not executed; blocks far smaller than 64 KiB would keep real patches below it | BufPatch.WrappedSizeReadsAsNoPatch | BufPatch.RoundTrip |
