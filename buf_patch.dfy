/**
 * Block patches: small, ordered changes to a block's bytes.
 *
 * A patch names its block, its position among the block's patches (the patch
 * counter), the transaction whose block version it applies to, and its kind
 * (the operation code). It serializes as a uint16_t size prefix, the header
 * fields and the kind's own data; a zero size prefix marks "no patch here".
 * Two kinds rewrite a buffer in place: memcpy and memmove.
 */
module BufPatch {
  import opened Spans

  /** The byte widths of `block_id_t` and `ser_transaction_id_t`, which are defined elsewhere. */
  datatype Layout = Layout(blockIdBytes: nat, transactionIdBytes: nat)

  datatype Option<+T> = None | Some(value: T)

  const OperMemcpy: byte := 0
  const OperMemmove: byte := 1
  const OperLeafShiftPairs: byte := 2
  const OperLeafInsertPair: byte := 3
  const OperLeafInsert: byte := 4
  const OperLeafRemove: byte := 5

  /** sizeof(uint16_t) and sizeof(patch_counter_t). */
  const SizePrefixBytes: nat := 2
  const PatchCounterBytes: nat := 4

  function Pow256(w: nat): (r: nat)
    ensures r >= 1
  {
    if w == 0 then 1 else 256 * Pow256(w - 1)
  }

  /** `x` in `w` bytes, least significant first. */
  function EncodeLE(x: nat, w: nat): (r: seq<byte>)
    ensures |r| == w
  {
    if w == 0 then [] else [(x % 256) as byte] + EncodeLE(x / 256, w - 1)
  }

  /** The unsigned number whose little-endian bytes are `s`; it fits in |s| bytes. */
  function DecodeLE(s: seq<byte>): (r: nat)
    ensures r < Pow256(|s|)
  {
    if s == [] then 0
    else
      var rest := DecodeLE(s[1..]);
      assert 256 * rest <= 256 * (Pow256(|s| - 1) - 1);
      s[0] as nat + 256 * rest
  }

  lemma {:induction false} DecodeEncode(x: nat, w: nat)
    requires x < Pow256(w)
    ensures DecodeLE(EncodeLE(x, w)) == x
  {
    if w > 0 {
      var e := EncodeLE(x, w);
      var tail := EncodeLE(x / 256, w - 1);
      assert e[1..] == tail;
      QuotientBound(x, Pow256(w - 1));
      DecodeEncode(x / 256, w - 1);
      assert DecodeLE(e) == e[0] as nat + 256 * DecodeLE(tail);
    }
  }

  lemma QuotientBound(x: nat, p: nat)
    requires x < 256 * p
    ensures x / 256 < p
  {
  }

  lemma {:induction false} EncodeDecode(s: seq<byte>)
    ensures EncodeLE(DecodeLE(s), |s|) == s
  {
    if s != [] {
      var x := DecodeLE(s);
      var rest := DecodeLE(s[1..]);
      assert x == s[0] as nat + 256 * rest;
      assert x % 256 == s[0] as nat;
      assert x / 256 == rest;
      EncodeDecode(s[1..]);
      assert s == [s[0]] + s[1..];
    }
  }

  /** The kind-specific part of a patch. */
  datatype PatchBody =
    | Memcpy(destOffset: nat, src: seq<byte>)             // memcpy_patch_t; n is |src|
    | Memmove(destOffset: nat, srcOffset: nat, n: nat)    // memmove_patch_t

  function OperationCode(b: PatchBody): byte
  {
    match b
    case Memcpy(_, _) => OperMemcpy
    case Memmove(_, _, _) => OperMemmove
  }

  /** Offsets and lengths are uint16_t. */
  predicate BodyFieldsFit(b: PatchBody)
  {
    match b
    case Memcpy(d, src) => d < Pow256(2) && |src| < Pow256(2)
    case Memmove(d, s, n) => d < Pow256(2) && s < Pow256(2) && n < Pow256(2)
  }

  /** `get_data_size`: the length of the kind-specific data. */
  function DataSize(b: PatchBody): (n: nat)
    ensures n >= 2 * 2   // at least the destination offset and one more uint16_t
    ensures b.Memcpy? ==> n > |b.src|
  {
    match b
    case Memcpy(_, src) => 4 + |src|
    case Memmove(_, _, _) => 6
  }

  /**
   * `get_data_size` as written: its result is a `uint16_t`, so a memcpy patch
   * of 65532 bytes or more reports its data size modulo 65536.
   */
  function DataSizeAsWritten(b: PatchBody): (n: nat)
    ensures n < Pow256(2)
    ensures n == DataSize(b) || n + Pow256(2) <= DataSize(b)
    ensures DataSize(b) < Pow256(2) ==> n == DataSize(b)
    ensures b.Memmove? ==> n == DataSize(b)
  {
    DataSize(b) % Pow256(2)
  }

  /** `serialize_data`: the offsets and lengths as uint16_t, then a memcpy patch's bytes. */
  function SerializeData(b: PatchBody): (r: seq<byte>)
    ensures |r| == DataSize(b)
    ensures r[..2] == EncodeLE(b.destOffset, 2)
    ensures b.Memcpy? ==> r[2..4] == EncodeLE(|b.src|, 2) && r[4..] == b.src
  {
    match b
    case Memcpy(d, src) => EncodeLE(d, 2) + EncodeLE(|src|, 2) + src
    case Memmove(d, s, n) => EncodeLE(d, 2) + EncodeLE(s, 2) + EncodeLE(n, 2)
  }

  /** The kind-specific loading constructors: `data` is exactly the patch's data. */
  function LoadData(op: byte, data: seq<byte>): (r: Option<PatchBody>)
    ensures r.Some? ==> (op == OperMemcpy || op == OperMemmove) && OperationCode(r.value) == op
    ensures r.Some? ==> BodyFieldsFit(r.value) && DataSize(r.value) == |data|
    ensures op == OperMemmove ==> (r.Some? <==> |data| == 6)
  {
    if op == OperMemcpy then
      if |data| < 4 || |data| != 4 + DecodeLE(data[2..4]) then None
      else Some(Memcpy(DecodeLE(data[..2]), data[4..]))
    else if op == OperMemmove then
      if |data| != 6 then None
      else Some(Memmove(DecodeLE(data[..2]), DecodeLE(data[2..4]), DecodeLE(data[4..6])))
    else None
  }

  lemma DataRoundTrip(b: PatchBody)
    requires BodyFieldsFit(b)
    ensures LoadData(OperationCode(b), SerializeData(b)) == Some(b)
  {
    var data := SerializeData(b);
    match b
    case Memcpy(d, src) =>
      assert data[..2] == EncodeLE(d, 2);
      assert data[2..4] == EncodeLE(|src|, 2);
      assert data[4..] == src;
      DecodeEncode(d, 2);
      DecodeEncode(|src|, 2);
    case Memmove(d, s, n) =>
      assert data[..2] == EncodeLE(d, 2);
      assert data[2..4] == EncodeLE(s, 2);
      assert data[4..6] == EncodeLE(n, 2);
      DecodeEncode(d, 2);
      DecodeEncode(s, 2);
      DecodeEncode(n, 2);
  }

  lemma LoadDataSerializes(op: byte, data: seq<byte>)
    requires LoadData(op, data).Some?
    ensures BodyFieldsFit(LoadData(op, data).value)
    ensures OperationCode(LoadData(op, data).value) == op
    ensures SerializeData(LoadData(op, data).value) == data
  {
    EncodeDecode(data[..2]);
    EncodeDecode(data[2..4]);
    assert data == data[..2] + data[2..4] + data[4..];
    if op == OperMemmove {
      EncodeDecode(data[4..6]);
      assert data[4..] == data[4..6];
    }
  }

  /** The state of a patch: the `buf_patch_t` header fields and the kind's fields. */
  datatype PatchValue = PatchValue(blockId: nat, patchCounter: nat, transactionId: nat, body: PatchBody)

  /** Every field fits its C type. */
  predicate FieldsFit(l: Layout, v: PatchValue)
  {
    && v.blockId < Pow256(l.blockIdBytes)
    && v.patchCounter < Pow256(PatchCounterBytes)
    && v.transactionId < Pow256(l.transactionIdBytes)
    && BodyFieldsFit(v.body)
  }

  /** `get_min_serialized_size`: the size prefix and the header fields. */
  function MinSerializedSize(l: Layout): (n: nat)
    ensures n >= SizePrefixBytes + PatchCounterBytes + 1
  {
    SizePrefixBytes + l.blockIdBytes + PatchCounterBytes + l.transactionIdBytes + 1
  }

  /** The header's size plus the data size, without truncation. */
  function SerializedSize(l: Layout, v: PatchValue): (n: nat)
    ensures n >= MinSerializedSize(l)
  {
    MinSerializedSize(l) + DataSize(v.body)
  }

  /** The patch can be serialized: its fields fit and so does its size, in the uint16_t prefix. */
  predicate Fits(l: Layout, v: PatchValue)
  {
    FieldsFit(l, v) && SerializedSize(l, v) < Pow256(SizePrefixBytes)
  }

  /** What follows the size prefix: block id, patch counter, transaction id, operation code, data. */
  function SerializeFields(l: Layout, v: PatchValue): (r: seq<byte>)
    ensures |r| + SizePrefixBytes == SerializedSize(l, v)
  {
    EncodeLE(v.blockId, l.blockIdBytes) + EncodeLE(v.patchCounter, PatchCounterBytes)
      + EncodeLE(v.transactionId, l.transactionIdBytes) + [OperationCode(v.body)] + SerializeData(v.body)
  }

  /** `serialize`, with the size prefix holding the full serialized size. */
  function SerializeValue(l: Layout, v: PatchValue): (r: seq<byte>)
    requires Fits(l, v)
    ensures |r| == SerializedSize(l, v)
    ensures |r| == MinSerializedSize(l) + DataSize(v.body)
  {
    EncodeLE(SerializedSize(l, v), SizePrefixBytes) + SerializeFields(l, v)
  }

  /**
   * `get_min_serialized_size` is where a serialized patch's own data begins:
   * the byte before it is the operation code, and the rest is the kind's data.
   */
  lemma DataStartsAtMinSize(l: Layout, v: PatchValue)
    requires Fits(l, v)
    ensures SerializeValue(l, v)[MinSerializedSize(l) - 1] == OperationCode(v.body)
    ensures SerializeValue(l, v)[MinSerializedSize(l)..] == SerializeData(v.body)
  {
    var s := SerializeValue(l, v);
    var header := EncodeLE(SerializedSize(l, v), SizePrefixBytes) + EncodeLE(v.blockId, l.blockIdBytes)
      + EncodeLE(v.patchCounter, PatchCounterBytes) + EncodeLE(v.transactionId, l.transactionIdBytes)
      + [OperationCode(v.body)];
    assert s == header + SerializeData(v.body);
  }

  /** What `load_patch` finds at a position. */
  datatype Loaded =
    | NoPatch                    // the null pointer: a zero size prefix
    | Found(value: PatchValue)
    | UnmodelledKind(code: byte) // a leaf-node patch
    | Malformed

  /** `load_patch`: reads the size prefix, then the header fields and the kind's data. */
  function LoadValue(l: Layout, source: seq<byte>): (r: Loaded)
    ensures r.NoPatch? <==> |source| >= SizePrefixBytes && DecodeLE(source[..SizePrefixBytes]) == 0
    ensures !r.Malformed? && !r.NoPatch? ==>
      |source| >= SizePrefixBytes && MinSerializedSize(l) <= DecodeLE(source[..SizePrefixBytes]) <= |source|
  {
    if |source| < SizePrefixBytes then Malformed
    else
      var size := DecodeLE(source[..SizePrefixBytes]);
      if size == 0 then NoPatch
      else if size < MinSerializedSize(l) || |source| < size then Malformed
      else LoadFields(l, source[SizePrefixBytes..size])
  }

  /** Reads the header fields and dispatches on the operation code; `f` is exactly what follows the prefix. */
  function LoadFields(l: Layout, f: seq<byte>): (r: Loaded)
    requires |f| + SizePrefixBytes >= MinSerializedSize(l)
    ensures !r.NoPatch?
    ensures var op := f[MinSerializedSize(l) - SizePrefixBytes - 1];
      && (r.UnmodelledKind? <==> OperLeafShiftPairs <= op <= OperLeafRemove)
      && (r.UnmodelledKind? ==> r.code == op)
      && (r.Found? ==> OperationCode(r.value.body) == op && FieldsFit(l, r.value))
  {
    var c := l.blockIdBytes;
    var t := c + PatchCounterBytes;
    var o := t + l.transactionIdBytes;
    var op := f[o];
    if OperLeafShiftPairs <= op <= OperLeafRemove then UnmodelledKind(op)
    else
      match LoadData(op, f[o + 1..])
      case None => Malformed
      case Some(body) => Found(PatchValue(DecodeLE(f[..c]), DecodeLE(f[c..t]), DecodeLE(f[t..o]), body))
  }

  lemma FieldsRoundTrip(l: Layout, v: PatchValue)
    requires FieldsFit(l, v)
    ensures LoadFields(l, SerializeFields(l, v)) == Found(v)
  {
    var f := SerializeFields(l, v);
    var c := l.blockIdBytes;
    var t := c + PatchCounterBytes;
    var o := t + l.transactionIdBytes;
    Slices(EncodeLE(v.blockId, l.blockIdBytes), EncodeLE(v.patchCounter, PatchCounterBytes),
      EncodeLE(v.transactionId, l.transactionIdBytes), OperationCode(v.body), SerializeData(v.body));
    DecodeEncode(v.blockId, l.blockIdBytes);
    DecodeEncode(v.patchCounter, PatchCounterBytes);
    DecodeEncode(v.transactionId, l.transactionIdBytes);
    DataRoundTrip(v.body);
  }

  lemma LoadFieldsSerializes(l: Layout, f: seq<byte>)
    requires |f| + SizePrefixBytes >= MinSerializedSize(l)
    requires LoadFields(l, f).Found?
    ensures FieldsFit(l, LoadFields(l, f).value)
    ensures SerializeFields(l, LoadFields(l, f).value) == f
  {
    var c := l.blockIdBytes;
    var t := c + PatchCounterBytes;
    var o := t + l.transactionIdBytes;
    var body := LoadData(f[o], f[o + 1..]).value;
    var v := LoadFields(l, f).value;
    assert v == PatchValue(DecodeLE(f[..c]), DecodeLE(f[c..t]), DecodeLE(f[t..o]), body);
    LoadDataSerializes(f[o], f[o + 1..]);
    EncodeDecode(f[..c]);
    EncodeDecode(f[c..t]);
    EncodeDecode(f[t..o]);
    Reassemble(f, c, t, o);
  }

  /** The parts of a concatenation are its slices at the parts' boundaries. */
  lemma Slices(a: seq<byte>, b: seq<byte>, c: seq<byte>, x: byte, d: seq<byte>)
    ensures var f := a + b + c + [x] + d;
      && f[..|a|] == a
      && f[|a|..|a| + |b|] == b
      && f[|a| + |b|..|a| + |b| + |c|] == c
      && f[|a| + |b| + |c|] == x
      && f[|a| + |b| + |c| + 1..] == d
  {
    var f := a + b + c + [x] + d;
    var ab := a + b;
    var abc := ab + c;
    assert f == abc + ([x] + d);
    assert f[..|abc|] == abc && f[|abc|..] == [x] + d;
    assert abc[..|ab|] == ab && abc[|ab|..] == c;
    assert ab[..|a|] == a && ab[|a|..] == b;
  }

  /** A sequence is its four consecutive slices and the element between the last two. */
  lemma Reassemble(f: seq<byte>, c: nat, t: nat, o: nat)
    requires c <= t <= o < |f|
    ensures f == f[..c] + f[c..t] + f[t..o] + [f[o]] + f[o + 1..]
  {
    assert f[..t] == f[..c] + f[c..t];
    assert f[..o] == f[..t] + f[t..o];
    assert f[o..] == [f[o]] + f[o + 1..];
    assert f == f[..o] + f[o..];
  }

  /**
   * Loading dispatches on the operation code, the last header byte. In a
   * position whose size prefix is at least the header size and within the
   * source: a leaf code gives that leaf kind, a memcpy or memmove code gives a
   * patch of that kind or a malformed result, and any other code is malformed.
   * Conversely, whatever loads has the kind its code byte names.
   */
  lemma LoadDispatchesOnCode(l: Layout, source: seq<byte>)
    ensures (|source| >= SizePrefixBytes
             && MinSerializedSize(l) <= DecodeLE(source[..SizePrefixBytes]) <= |source|) ==>
      var op := source[MinSerializedSize(l) - 1];
      && (OperLeafShiftPairs <= op <= OperLeafRemove ==> LoadValue(l, source) == UnmodelledKind(op))
      && (op == OperMemcpy || op == OperMemmove ==>
            LoadValue(l, source).Malformed?
            || (LoadValue(l, source).Found? && OperationCode(LoadValue(l, source).value.body) == op))
      && (op > OperLeafRemove ==> LoadValue(l, source).Malformed?)
    ensures LoadValue(l, source).Found? ==>
      && |source| >= MinSerializedSize(l)
      && OperationCode(LoadValue(l, source).value.body) == source[MinSerializedSize(l) - 1]
    ensures LoadValue(l, source).UnmodelledKind? ==>
      && |source| >= MinSerializedSize(l)
      && LoadValue(l, source).code == source[MinSerializedSize(l) - 1]
      && OperLeafShiftPairs <= LoadValue(l, source).code <= OperLeafRemove
  {
    if |source| >= SizePrefixBytes {
      var size := DecodeLE(source[..SizePrefixBytes]);
      if MinSerializedSize(l) <= size <= |source| {
        assert source[SizePrefixBytes..size][MinSerializedSize(l) - SizePrefixBytes - 1]
            == source[MinSerializedSize(l) - 1];
      }
    }
  }

  /** What `serialize` writes, `load_patch` reads back, whatever follows it. */
  lemma RoundTrip(l: Layout, v: PatchValue, rest: seq<byte>)
    requires Fits(l, v)
    ensures LoadValue(l, SerializeValue(l, v) + rest) == Found(v)
  {
    var size := SerializedSize(l, v);
    var s := SerializeValue(l, v) + rest;
    assert s[..SizePrefixBytes] == EncodeLE(size, SizePrefixBytes);
    assert s[SizePrefixBytes..size] == SerializeFields(l, v);
    DecodeEncode(size, SizePrefixBytes);
    FieldsRoundTrip(l, v);
  }

  /** A loaded patch fits, and serializing it gives back exactly the bytes it was loaded from. */
  lemma LoadThenSerialize(l: Layout, source: seq<byte>)
    requires LoadValue(l, source).Found?
    ensures Fits(l, LoadValue(l, source).value)
    ensures SerializeValue(l, LoadValue(l, source).value) == source[..DecodeLE(source[..SizePrefixBytes])]
  {
    var size := DecodeLE(source[..SizePrefixBytes]);
    LoadFieldsSerializes(l, source[SizePrefixBytes..size]);
    EncodeDecode(source[..SizePrefixBytes]);
    assert source[..size] == source[..SizePrefixBytes] + source[SizePrefixBytes..size];
  }

  /** `get_serialized_size` as written: the sum is returned as a uint16_t, so it wraps. */
  function SerializedSizeAsWritten(l: Layout, v: PatchValue): (n: nat)
    ensures n < Pow256(SizePrefixBytes)
    ensures n == SerializedSize(l, v) || n + Pow256(SizePrefixBytes) <= SerializedSize(l, v)
  {
    SerializedSize(l, v) % Pow256(SizePrefixBytes)
  }

  /**
   * Truncating `get_data_size` before the sum, as the header's `uint16_t`
   * return does, gives the same wrapped serialized size.
   */
  lemma SizeAsWrittenThroughDataSize(l: Layout, v: PatchValue)
    ensures SerializedSizeAsWritten(l, v) == (MinSerializedSize(l) + DataSizeAsWritten(v.body)) % Pow256(SizePrefixBytes)
  {
    var m, a, d := Pow256(SizePrefixBytes), MinSerializedSize(l), DataSize(v.body);
    assert m == Pow256(2);
    var q := d / m;
    assert d == q * m + DataSizeAsWritten(v.body);
    assert a + d == (a + DataSizeAsWritten(v.body)) + q * m;
  }

  /** `serialize` with the wrapped size in its prefix. */
  function SerializeAsWritten(l: Layout, v: PatchValue): (r: seq<byte>)
    ensures |r| == SerializedSize(l, v)
  {
    EncodeLE(SerializedSizeAsWritten(l, v), SizePrefixBytes) + SerializeFields(l, v)
  }

  /** Where the size fits the prefix, the as-written serialization is the corrected one. */
  lemma AsWrittenAgreesWhenFits(l: Layout, v: PatchValue)
    requires Fits(l, v)
    ensures SerializedSizeAsWritten(l, v) == SerializedSize(l, v)
    ensures SerializeAsWritten(l, v) == SerializeValue(l, v)
  {
  }

  /** A memcpy patch whose serialized size is exactly 65536. */
  function WrappingPatch(l: Layout): (v: PatchValue)
    requires MinSerializedSize(l) + 4 <= Pow256(SizePrefixBytes)
    ensures FieldsFit(l, v)
    ensures SerializedSize(l, v) == Pow256(SizePrefixBytes)
  {
    PatchValue(0, 0, 0, Memcpy(0, seq(Pow256(SizePrefixBytes) - MinSerializedSize(l) - 4, _ => 0)))
  }

  /**
   * With the wrapped size, a patch whose fields all fit serializes with a zero
   * prefix and is read back as "no patch".
   */
  lemma WrappedSizeReadsAsNoPatch(l: Layout)
    requires MinSerializedSize(l) + 4 <= Pow256(SizePrefixBytes)
    ensures SerializedSizeAsWritten(l, WrappingPatch(l)) == 0
    ensures SerializedSizeAsWritten(l, WrappingPatch(l)) < MinSerializedSize(l)
    ensures LoadValue(l, SerializeAsWritten(l, WrappingPatch(l))) == NoPatch
  {
    var v := WrappingPatch(l);
    var s := SerializeAsWritten(l, v);
    assert s[..SizePrefixBytes] == EncodeLE(0, SizePrefixBytes);
    DecodeEncode(0, SizePrefixBytes);
  }

  /**
   * `operator<` on two patches of one block: block versions are ordered by
   * transaction id, and patches within one version by patch counter.
   */
  predicate Precedes(p: PatchValue, q: PatchValue): (b: bool)
    requires p.blockId == q.blockId
    ensures b ==> p.transactionId <= q.transactionId
    ensures p.transactionId < q.transactionId ==> b
    ensures b ==> (p.transactionId, p.patchCounter) != (q.transactionId, q.patchCounter)
  {
    p.transactionId < q.transactionId
    || (p.transactionId == q.transactionId && p.patchCounter < q.patchCounter)
  }

  /** Within one block version, the order is the patch counter order. */
  lemma SameVersionOrderedByCounter(p: PatchValue, q: PatchValue)
    requires p.blockId == q.blockId && p.transactionId == q.transactionId
    ensures Precedes(p, q) <==> p.patchCounter < q.patchCounter
  {
  }

  /** `operator<` is a strict order, total on patches with distinct (transaction id, counter). */
  lemma PrecedesIsStrictOrder(p: PatchValue, q: PatchValue, r: PatchValue)
    requires p.blockId == q.blockId == r.blockId
    ensures !Precedes(p, p)
    ensures Precedes(p, q) ==> !Precedes(q, p)
    ensures Precedes(p, q) && Precedes(q, r) ==> Precedes(p, r)
    ensures (p.transactionId, p.patchCounter) != (q.transactionId, q.patchCounter)
        ==> Precedes(p, q) || Precedes(q, p)
  {
  }

  /** The buffer after copying `src` to `destOffset`: those bytes replaced, all others kept. */
  function MemcpyResult(buf: seq<byte>, destOffset: nat, src: seq<byte>): (r: seq<byte>)
    requires destOffset + |src| <= |buf|
    ensures |r| == |buf|
    ensures forall k :: 0 <= k < |r| ==>
      r[k] == if destOffset <= k < destOffset + |src| then src[k - destOffset] else buf[k]
  {
    buf[..destOffset] + src + buf[destOffset + |src|..]
  }

  /**
   * The buffer after a memmove: bytes [destOffset, destOffset + n) take the
   * values bytes [srcOffset, srcOffset + n) had before, even when the two
   * ranges overlap; all others are kept.
   */
  function MemmoveResult(buf: seq<byte>, destOffset: nat, srcOffset: nat, n: nat): (r: seq<byte>)
    requires destOffset + n <= |buf| && srcOffset + n <= |buf|
    ensures |r| == |buf|
    ensures forall k :: 0 <= k < |r| ==>
      r[k] == if destOffset <= k < destOffset + n then buf[srcOffset + (k - destOffset)] else buf[k]
  {
    MemcpyResult(buf, destOffset, buf[srcOffset..srcOffset + n])
  }

  predicate Applicable(b: PatchBody, length: nat)
  {
    match b
    case Memcpy(d, src) => d + |src| <= length
    case Memmove(d, s, n) => d + n <= length && s + n <= length
  }

  function ApplyBody(b: PatchBody, buf: seq<byte>): seq<byte>
    requires Applicable(b, |buf|)
  {
    match b
    case Memcpy(d, src) => MemcpyResult(buf, d, src)
    case Memmove(d, s, n) => MemmoveResult(buf, d, s, n)
  }

  /** `memcpy(buf + destOffset, src, |src|)`. */
  method MemcpyInPlace(buf: array<byte>, destOffset: nat, src: seq<byte>)
    requires destOffset + |src| <= buf.Length
    modifies buf
    ensures buf[..] == MemcpyResult(old(buf[..]), destOffset, src)
  {
    for i := 0 to |src|
      invariant forall k :: 0 <= k < buf.Length ==>
        buf[k] == if destOffset <= k < destOffset + i then src[k - destOffset] else old(buf[k])
    {
      buf[destOffset + i] := src[i];
    }
  }

  /**
   * `memmove(buf + destOffset, buf + srcOffset, n)`: front to back when the
   * destination lies before the source, back to front otherwise, so that no
   * byte is overwritten before it is read.
   */
  method MemmoveInPlace(buf: array<byte>, destOffset: nat, srcOffset: nat, n: nat)
    requires destOffset + n <= buf.Length && srcOffset + n <= buf.Length
    modifies buf
    ensures buf[..] == MemmoveResult(old(buf[..]), destOffset, srcOffset, n)
  {
    if destOffset <= srcOffset {
      for i := 0 to n
        invariant forall k :: 0 <= k < buf.Length ==>
          buf[k] == if destOffset <= k < destOffset + i then old(buf[srcOffset + (k - destOffset)]) else old(buf[k])
      {
        buf[destOffset + i] := buf[srcOffset + i];
      }
    } else {
      var i := n;
      while i > 0
        invariant 0 <= i <= n
        invariant forall k :: 0 <= k < buf.Length ==>
          buf[k] == if destOffset + i <= k < destOffset + n then old(buf[srcOffset + (k - destOffset)]) else old(buf[k])
      {
        i := i - 1;
        buf[destOffset + i] := buf[srcOffset + i];
      }
    }
  }

  /** A `buf_patch_t` object; only its transaction id changes after construction. */
  class Patch {
    const layout: Layout
    const blockId: nat
    const patchCounter: nat
    var transactionId: nat
    const body: PatchBody

    function Value(): PatchValue
      reads this
    {
      PatchValue(blockId, patchCounter, transactionId, body)
    }

    ghost predicate Valid()
      reads this
    {
      FieldsFit(layout, Value())
    }

    /** `memcpy_patch_t(block_id, patch_counter, dest_offset, src, n)`: copies n bytes of src. */
    constructor MemcpyPatch(l: Layout, blockId: nat, patchCounter: nat, destOffset: nat, src: seq<byte>, n: nat)
      requires n <= |src|
      requires FieldsFit(l, PatchValue(blockId, patchCounter, 0, Memcpy(destOffset, src[..n])))
      ensures Valid() && layout == l
      ensures Value() == PatchValue(blockId, patchCounter, 0, Memcpy(destOffset, src[..n]))
      ensures GetOperationCode() == OperMemcpy
    {
      layout := l;
      this.blockId := blockId;
      this.patchCounter := patchCounter;
      transactionId := 0;
      body := Memcpy(destOffset, src[..n]);
    }

    /** `memmove_patch_t(block_id, patch_counter, dest_offset, src_offset, n)`. */
    constructor MemmovePatch(l: Layout, blockId: nat, patchCounter: nat, destOffset: nat, srcOffset: nat, n: nat)
      requires FieldsFit(l, PatchValue(blockId, patchCounter, 0, Memmove(destOffset, srcOffset, n)))
      ensures Valid() && layout == l
      ensures Value() == PatchValue(blockId, patchCounter, 0, Memmove(destOffset, srcOffset, n))
      ensures GetOperationCode() == OperMemmove
    {
      layout := l;
      this.blockId := blockId;
      this.patchCounter := patchCounter;
      transactionId := 0;
      body := Memmove(destOffset, srcOffset, n);
    }

    /** A patch rebuilt from loaded fields (the kinds' loading constructors). */
    constructor FromValue(l: Layout, v: PatchValue)
      requires FieldsFit(l, v)
      ensures Valid() && layout == l && Value() == v
    {
      layout := l;
      blockId := v.blockId;
      patchCounter := v.patchCounter;
      transactionId := v.transactionId;
      body := v.body;
    }

    function GetPatchCounter(): (c: nat)
      reads this
      ensures Valid() ==> c < Pow256(PatchCounterBytes)
      ensures c == Value().patchCounter
    {
      patchCounter
    }

    function GetTransactionId(): (t: nat)
      reads this
      ensures Valid() ==> t < Pow256(layout.transactionIdBytes)
      ensures t == Value().transactionId
    {
      transactionId
    }

    function GetBlockId(): (b: nat)
      reads this
      ensures Valid() ==> b < Pow256(layout.blockIdBytes)
      ensures b == Value().blockId
    {
      blockId
    }

    /**
     * The model's accessor for the private `operation_code` field; the header
     * declares no getter for it.
     */
    function GetOperationCode(): (c: byte)
      reads this
      ensures c == OperMemcpy || c == OperMemmove
    {
      OperationCode(body)
    }

    method SetTransactionId(t: nat)
      requires Valid() && t < Pow256(layout.transactionIdBytes)
      modifies this
      ensures Valid()
      ensures GetTransactionId() == t
      ensures Value() == old(Value()).(transactionId := t)
    {
      transactionId := t;
    }

    /**
     * The `uint16_t` the header returns: the serialized size modulo 65536, and
     * the true size whenever that fits.
     */
    function GetSerializedSize(): (n: nat)
      reads this
      ensures n < Pow256(SizePrefixBytes)
      ensures n == SerializedSizeAsWritten(layout, Value())
      ensures Fits(layout, Value()) ==> n == |SerializeValue(layout, Value())| && n >= MinSerializedSize(layout)
    {
      SerializedSizeAsWritten(layout, Value())
    }

    /**
     * `serialize(destination)`: the patch at the start of `destination` with
     * `GetSerializedSize()` as its prefix, the rest untouched. When the size
     * fits, this is the serialization that loads back as the same patch.
     */
    method Serialize(destination: array<byte>)
      requires FieldsFit(layout, Value()) && SerializedSize(layout, Value()) <= destination.Length
      modifies destination
      ensures destination[..] == MemcpyResult(old(destination[..]), 0, SerializeAsWritten(layout, Value()))
      ensures Fits(layout, Value()) ==>
        destination[..] == MemcpyResult(old(destination[..]), 0, SerializeValue(layout, Value()))
    {
      var bytes := SerializeAsWritten(layout, Value());
      if Fits(layout, Value()) {
        AsWrittenAgreesWhenFits(layout, Value());
      }
      MemcpyInPlace(destination, 0, bytes);
    }

    /** `load_patch(source)`: null for a zero size prefix, otherwise a new patch with the loaded fields. */
    static method LoadPatch(l: Layout, source: seq<byte>) returns (p: Patch?)
      requires LoadValue(l, source).NoPatch? || LoadValue(l, source).Found?
      ensures p == null <==> LoadValue(l, source).NoPatch?
      ensures p != null ==> fresh(p) && p.layout == l && p.Valid() && p.Value() == LoadValue(l, source).value
    {
      var loaded := LoadValue(l, source);
      if loaded.NoPatch? {
        p := null;
      } else {
        LoadThenSerialize(l, source);
        p := new Patch.FromValue(l, loaded.value);
      }
    }

    /** `apply_to_buf`: the kind's in-place rewrite of the block's bytes. */
    method ApplyToBuf(buf: array<byte>)
      requires Applicable(body, buf.Length)
      modifies buf
      ensures buf[..] == ApplyBody(body, old(buf[..]))
    {
      match body
      case Memcpy(d, src) =>
        MemcpyInPlace(buf, d, src);
      case Memmove(d, s, n) =>
        MemmoveInPlace(buf, d, s, n);
    }
  }
}
