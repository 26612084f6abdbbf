/** The byte and text layouts the coordinator sends (`include/data/allocator.hxx`),
    each with a parser that is the model's own inverse of the layout. */
module Wire {
  import opened Bytes
  import opened Constants
  import opened Callback
  import opened ElemBytes

  /** A string that can be read back from a NUL-terminated or
      zero-padded field: bytes only, and no NUL among them. */
  predicate IsCString(s: string)
  {
    IsByteString(s) && forall i | 0 <= i < |s| :: s[i] != 0 as char
  }

  /** The bytes before the first NUL (all of them when there is none). */
  function UntilNul(bs: seq<byte>): (r: seq<byte>)
    ensures |r| <= |bs|
  {
    if bs == [] || bs[0] == 0 then [] else [bs[0]] + UntilNul(bs[1..])
  }

  /** A C string followed by a NUL and anything else reads back as itself. */
  lemma {:induction false} UntilNulOfCString(s: string, rest: seq<byte>)
    requires IsCString(s)
    ensures UntilNul(StringBytes(s) + [0] + rest) == StringBytes(s)
  {
    if s != [] {
      var bs := StringBytes(s) + [0] + rest;
      assert bs[0] == s[0] as int;
      assert bs[1..] == StringBytes(s[1..]) + [0] + rest;
      UntilNulOfCString(s[1..], rest);
      assert StringBytes(s) == [bs[0]] + StringBytes(s[1..]);
    }
  }

  // ---------------------------------------------------------------------
  // WRITE fragment: [data][id, zero-padded to ID_LEN][clock, size_t]

  /** The id field of a fragment: the id's bytes, then zeros up to `ID_LEN`. */
  function IdField(id: string): (r: seq<byte>)
    requires IsByteString(id) && |id| <= ID_LEN
    ensures |r| == ID_LEN
    ensures r[..|id|] == StringBytes(id) && forall k | |id| <= k < ID_LEN :: r[k] == 0
  {
    StringBytes(id) + Zeros(ID_LEN - |id|)
  }

  /** The fragment `write` sends to one chunk: the chunk's data bytes, the
      chunk id in a zero-padded field of `ID_LEN` bytes, and the write clock
      as a little-endian `size_t`. */
  function Fragment(data: seq<byte>, id: string, clock: uint64): (r: seq<byte>)
    requires IsByteString(id) && |id| <= ID_LEN
    ensures |r| == |data| + ID_LEN + SIZE_T_BYTES
  {
    data + IdField(id) + LittleEndian(clock, SIZE_T_BYTES)
  }

  datatype FragmentParts = FragmentParts(data: seq<byte>, id: string, clock: nat)

  /** The inverse of the fragment layout, given the number of data bytes;
      `None` when the length does not match. */
  function ParseFragment(bs: seq<byte>, dataBytes: nat): (r: Option<FragmentParts>)
    ensures r.Some? <==> |bs| == dataBytes + ID_LEN + SIZE_T_BYTES
  {
    if |bs| != dataBytes + ID_LEN + SIZE_T_BYTES then None
    else
      var field := bs[dataBytes..dataBytes + ID_LEN];
      Some(FragmentParts(bs[..dataBytes], BytesString(UntilNul(field)), FromLittleEndian(bs[dataBytes + ID_LEN..])))
  }

  /** A fragment reads back as the data, the id and the clock it was made
      from, provided the id holds no NUL. */
  lemma FragmentRoundTrip(data: seq<byte>, id: string, clock: uint64)
    requires IsCString(id) && |id| <= ID_LEN
    ensures ParseFragment(Fragment(data, id, clock), |data|) == Some(FragmentParts(data, id, clock))
  {
    var bs := Fragment(data, id, clock);
    var n := |data|;
    var pad := Zeros(ID_LEN - |id|);
    assert bs == data + IdField(id) + LittleEndian(clock, SIZE_T_BYTES);
    assert bs[..n] == data;
    assert bs[n..n + ID_LEN] == IdField(id);
    if |id| < ID_LEN {
      assert IdField(id) == StringBytes(id) + [0] + pad[1..];
      UntilNulOfCString(id, pad[1..]);
    } else {
      UntilNulAll(StringBytes(id));
      assert IdField(id) == StringBytes(id);
    }
    BytesStringOfStringBytes(id);
    assert bs[n + ID_LEN..] == LittleEndian(clock, SIZE_T_BYTES);
    FromToLittleEndian(clock, SIZE_T_BYTES);
  }

  /** Bytes with no NUL read back whole. */
  lemma {:induction false} UntilNulAll(bs: seq<byte>)
    requires forall i | 0 <= i < |bs| :: bs[i] != 0
    ensures UntilNul(bs) == bs
  {
    if bs != [] {
      UntilNulAll(bs[1..]);
    }
  }

  // ---------------------------------------------------------------------
  // MAP descriptor: "<id>-<callback id>-<type tag>"

  /** The text `map` sends to each chunk's worker. */
  function Descriptor(id: string, callbackId: nat, d: DataType): (r: string)
    ensures IsByteString(id) ==> IsByteString(r)
  {
    id + "-" + NatToString(callbackId) + "-" + NatToString(TypeTag(d))
  }

  datatype DescriptorParts = DescriptorParts(id: string, callbackId: nat, tag: nat)

  /** The inverse of the descriptor layout: three fields separated by `-`. */
  function ParseDescriptor(s: string): (r: Option<DescriptorParts>)
    ensures r.Some? <==> |Split(s, '-')| == 3
  {
    var parts := Split(s, '-');
    if |parts| != 3 then None else Some(DescriptorParts(parts[0], ParseNat(parts[1]), ParseNat(parts[2])))
  }

  lemma NoHyphenInNumber(n: nat)
    ensures '-' !in NatToString(n)
  {
  }

  /** A descriptor reads back as the id, the callback id and the type tag it
      was made from whenever the id holds no `-`, which holds for every id
      a worker hands out. */
  lemma DescriptorRoundTrip(id: string, callbackId: nat, d: DataType)
    requires '-' !in id
    ensures ParseDescriptor(Descriptor(id, callbackId, d)) == Some(DescriptorParts(id, callbackId, TypeTag(d)))
  {
    var a := NatToString(callbackId);
    var b := NatToString(TypeTag(d));
    NoHyphenInNumber(callbackId);
    NoHyphenInNumber(TypeTag(d));
    var parts := [id, a, b];
    assert Join(parts, '-') == Descriptor(id, callbackId, d) by {
      assert Join(parts[2..], '-') == b;
      assert Join(parts[1..], '-') == a + ['-'] + b;
    }
    SplitJoin(parts, '-');
    ParseNatToString(callbackId);
    ParseNatToString(TypeTag(d));
  }

  // ---------------------------------------------------------------------
  // REDUCE message:
  // [accumulator, 64 bytes][type tag, 4 bytes][callback id, 4 bytes][chain, NUL-terminated]

  /** Bytes before the chain: the accumulator area and the two `unsigned int`s. */
  const ACC_LEN: nat := 64
  const DATA_LEN: nat := 2 * UINT_BYTES + ACC_LEN

  /** The ids of the chunks joined by `-`, in chunk order (the chain of
      workers the reduction visits). */
  method BuildChain(ids: seq<string>) returns (chain: string)
    ensures chain == Join(ids, '-')
  {
    chain := "";
    var i := 0;
    while i < |ids|
      invariant 0 <= i <= |ids|
      invariant i < |ids| ==> Join(ids, '-') == chain + Join(ids[i..], '-')
      invariant i == |ids| ==> chain == Join(ids, '-')
    {
      assert ids[i..][1..] == ids[i + 1..];
      if i == |ids| - 1 {
        chain := chain + ids[i];
      } else {
        chain := chain + ids[i] + "-";
      }
      i := i + 1;
    }
  }

  /** The chain splits back into the ids when no id holds a `-`. */
  lemma ChainRoundTrip(ids: seq<string>)
    requires |ids| >= 1 && forall k | 0 <= k < |ids| :: '-' !in ids[k]
    ensures Split(Join(ids, '-'), '-') == ids
    ensures |Join(ids, '-')| == SumLengths(ids) + |ids| - 1
  {
    SplitJoin(ids, '-');
    JoinLength(ids, '-', SumLengths(ids));
  }

  /** The message `reduce` sends to the first worker of the chain: the
      initial accumulator in the first `sizeof(T)` of 64 zeroed bytes, the
      type tag and the callback id as little-endian `unsigned int`s, and the
      chain with its terminating NUL. */
  function ReduceMessage(d: DataType, init: int, callbackId: nat, chain: string): (r: seq<byte>)
    requires IsInteger(d) && InRange(d, init) && callbackId < UINT_MODULUS && IsByteString(chain)
    ensures |r| == DATA_LEN + |chain| + 1
  {
    EncodeElem(d, init) + Zeros(ACC_LEN - DataTypeToSize(d))
    + LittleEndian(TypeTag(d), UINT_BYTES) + LittleEndian(callbackId, UINT_BYTES)
    + StringBytes(chain) + [0]
  }

  datatype ReduceParts = ReduceParts(acc: seq<byte>, tag: nat, callbackId: nat, chain: string)

  /** The inverse of the reduce message layout; `None` when it is too short
      to hold the header and a terminating NUL. */
  function ParseReduceMessage(bs: seq<byte>): (r: Option<ReduceParts>)
    ensures r.Some? <==> |bs| > DATA_LEN
  {
    if |bs| <= DATA_LEN then None
    else
      Some(ReduceParts(bs[..ACC_LEN],
                       FromLittleEndian(bs[ACC_LEN..ACC_LEN + UINT_BYTES]),
                       FromLittleEndian(bs[ACC_LEN + UINT_BYTES..DATA_LEN]),
                       BytesString(UntilNul(bs[DATA_LEN..]))))
  }

  /** A reduce message reads back as what it was made from: the type tag,
      the callback id, the chain, and an accumulator area whose first
      `sizeof(T)` bytes decode to the initial value and whose other bytes
      are zero. */
  lemma ReduceMessageRoundTrip(d: DataType, init: int, callbackId: nat, chain: string)
    requires IsInteger(d) && InRange(d, init) && callbackId < UINT_MODULUS && IsCString(chain)
    ensures var p := ParseReduceMessage(ReduceMessage(d, init, callbackId, chain));
      p.Some? && p.value.tag == TypeTag(d) && p.value.callbackId == callbackId && p.value.chain == chain
      && DecodeElem(d, p.value.acc[..DataTypeToSize(d)]) == init
      && (forall k | DataTypeToSize(d) <= k < ACC_LEN :: p.value.acc[k] == 0)
  {
    var s := DataTypeToSize(d);
    var head := EncodeElem(d, init) + Zeros(ACC_LEN - s);
    var t := LittleEndian(TypeTag(d), UINT_BYTES);
    var c := LittleEndian(callbackId, UINT_BYTES);
    var bs := ReduceMessage(d, init, callbackId, chain);
    assert bs == head + t + c + (StringBytes(chain) + [0]);
    assert bs[..ACC_LEN] == head;
    assert head[..s] == EncodeElem(d, init);
    DecodeEncodeElem(d, init);
    assert bs[ACC_LEN..ACC_LEN + UINT_BYTES] == t;
    assert bs[ACC_LEN + UINT_BYTES..DATA_LEN] == c;
    FromToLittleEndian(TypeTag(d), UINT_BYTES);
    FromToLittleEndian(callbackId, UINT_BYTES);
    assert bs[DATA_LEN..] == StringBytes(chain) + [0] + [];
    UntilNulOfCString(chain, []);
    BytesStringOfStringBytes(chain);
  }
}
