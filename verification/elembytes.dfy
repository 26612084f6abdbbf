/** How an element of an integer type sits in memory: its two's-complement
    image, least significant byte first, on `sizeof(T)` bytes. A buffer of
    bytes read as an array of `T` is the sequence of whole elements it
    starts with. */
module ElemBytes {
  import opened Bytes
  import opened Callback

  /** The bytes of `v` stored as a `T` of type `d`. */
  function EncodeElem(d: DataType, v: int): (r: seq<byte>)
    requires IsInteger(d) && InRange(d, v)
    ensures |r| == DataTypeToSize(d)
  {
    LittleEndian(if v < 0 then v + Modulus(d) else v, DataTypeToSize(d))
  }

  /** The value of type `d` whose image is `bs`. */
  function DecodeElem(d: DataType, bs: seq<byte>): (v: int)
    requires IsInteger(d) && |bs| == DataTypeToSize(d)
    ensures InRange(d, v)
  {
    var u := FromLittleEndian(bs);
    if IsSigned(d) && u >= Modulus(d) / 2 then u - Modulus(d) else u
  }

  lemma DecodeEncodeElem(d: DataType, v: int)
    requires IsInteger(d) && InRange(d, v)
    ensures DecodeElem(d, EncodeElem(d, v)) == v
  {
    var u := if v < 0 then v + Modulus(d) else v;
    FromToLittleEndian(u, DataTypeToSize(d));
  }

  lemma EncodeDecodeElem(d: DataType, bs: seq<byte>)
    requires IsInteger(d) && |bs| == DataTypeToSize(d)
    ensures EncodeElem(d, DecodeElem(d, bs)) == bs
  {
    ToFromLittleEndian(bs);
  }

  /** The whole elements a buffer of bytes starts with, in order; bytes past
      the last whole element are not part of any. */
  function Elems(d: DataType, bs: seq<byte>): (xs: seq<int>)
    requires IsInteger(d)
    ensures AllInRange(d, xs)
    decreases |bs|
  {
    var s := DataTypeToSize(d);
    if |bs| < s then [] else [DecodeElem(d, bs[..s])] + Elems(d, bs[s..])
  }

  /** The bytes of an array of values of type `d`. */
  function EncodeElems(d: DataType, xs: seq<int>): (bs: seq<byte>)
    requires IsInteger(d) && AllInRange(d, xs)
  {
    if xs == [] then [] else EncodeElem(d, xs[0]) + EncodeElems(d, xs[1..])
  }

  // ---------------------------------------------------------------------
  // Offsets of whole elements. Element sizes are 2, 4 or 8, and each fact
  // below is checked for each of the three.

  predicate IsElemSize(s: nat)
  {
    s == 2 || s == 4 || s == 8
  }

  lemma ElemSize(d: DataType)
    requires IsInteger(d)
    ensures IsElemSize(DataTypeToSize(d))
  {
  }

  lemma DivSub(n: nat, s: nat)
    requires IsElemSize(s) && n >= s
    ensures (n - s) / s == n / s - 1 && (n - s) % s == n % s
  {
    if s == 2 {} else if s == 4 {} else {}
  }

  lemma DivLess(n: nat, s: nat)
    requires IsElemSize(s) && n < s
    ensures n / s == 0 && n % s == n
  {
    if s == 2 {} else if s == 4 {} else {}
  }

  lemma MulSucc(i: int, s: int)
    ensures (i + 1) * s == i * s + s
  {
  }

  // ---------------------------------------------------------------------

  /** A buffer of at least one element starts with that element. */
  lemma ElemsCons(d: DataType, bs: seq<byte>)
    requires IsInteger(d) && |bs| >= DataTypeToSize(d)
    ensures Elems(d, bs) == [DecodeElem(d, bs[..DataTypeToSize(d)])] + Elems(d, bs[DataTypeToSize(d)..])
  {
  }

  /** A buffer holds as many whole elements as its size divided by the
      element size, rounded down. */
  lemma {:induction false} ElemsLength(d: DataType, bs: seq<byte>)
    requires IsInteger(d)
    ensures |Elems(d, bs)| == |bs| / DataTypeToSize(d)
    decreases |bs|
  {
    var s := DataTypeToSize(d);
    ElemSize(d);
    if |bs| < s {
      DivLess(|bs|, s);
    } else {
      ElemsLength(d, bs[s..]);
      DivSub(|bs|, s);
    }
  }

  lemma {:induction false} EncodeElemsLength(d: DataType, xs: seq<int>)
    requires IsInteger(d) && AllInRange(d, xs)
    ensures |EncodeElems(d, xs)| == |xs| * DataTypeToSize(d)
  {
    if xs != [] {
      EncodeElemsLength(d, xs[1..]);
      MulSucc(|xs| - 1, DataTypeToSize(d));
    }
  }

  /** Element `i` of a buffer is decoded from bytes `[i*s, (i+1)*s)`. */
  lemma {:induction false} ElemsIndex(d: DataType, bs: seq<byte>, i: nat)
    requires IsInteger(d) && i < |Elems(d, bs)|
    ensures (i + 1) * DataTypeToSize(d) <= |bs|
    ensures Elems(d, bs)[i] == DecodeElem(d, bs[i * DataTypeToSize(d)..(i + 1) * DataTypeToSize(d)])
    decreases i
  {
    var s := DataTypeToSize(d);
    var rest := bs[s..];
    ElemsCons(d, bs);
    if i > 0 {
      ElemsIndex(d, rest, i - 1);
      assert s + (i - 1) * s == i * s && s + i * s == (i + 1) * s by {
        MulSucc(i - 1, s);
        MulSucc(i, s);
      }
      SliceOfDrop(bs, s, (i - 1) * s, i * s);
    }
  }

  /** Reading back the bytes of an array gives the array. */
  lemma {:induction false} ElemsEncodeElems(d: DataType, xs: seq<int>)
    requires IsInteger(d) && AllInRange(d, xs)
    ensures Elems(d, EncodeElems(d, xs)) == xs
  {
    if xs != [] {
      var s := DataTypeToSize(d);
      var bs := EncodeElems(d, xs);
      ElemsEncodeElems(d, xs[1..]);
      assert bs == EncodeElem(d, xs[0]) + EncodeElems(d, xs[1..]);
      assert bs[..s] == EncodeElem(d, xs[0]);
      assert bs[s..] == EncodeElems(d, xs[1..]);
      DecodeEncodeElem(d, xs[0]);
    }
  }

  /** Encoding the elements of a buffer made of whole elements gives the buffer. */
  lemma {:induction false} EncodeElemsElems(d: DataType, bs: seq<byte>)
    requires IsInteger(d) && |bs| % DataTypeToSize(d) == 0
    ensures EncodeElems(d, Elems(d, bs)) == bs
    decreases |bs|
  {
    var s := DataTypeToSize(d);
    ElemSize(d);
    if |bs| >= s {
      DivSub(|bs|, s);
      EncodeElemsElems(d, bs[s..]);
      EncodeDecodeElem(d, bs[..s]);
      var xs := Elems(d, bs);
      assert xs[0] == DecodeElem(d, bs[..s]);
      assert xs[1..] == Elems(d, bs[s..]);
      assert bs == bs[..s] + bs[s..];
    } else {
      DivLess(|bs|, s);
    }
  }

  lemma AllInRangeAppend(d: DataType, xs: seq<int>, ys: seq<int>)
    requires IsInteger(d) && AllInRange(d, xs) && AllInRange(d, ys)
    ensures AllInRange(d, xs + ys)
  {
  }

  lemma AllInRangeSlice(d: DataType, xs: seq<int>, lo: nat, hi: nat)
    requires IsInteger(d) && AllInRange(d, xs) && lo <= hi <= |xs|
    ensures AllInRange(d, xs[lo..hi])
  {
    forall i | 0 <= i < hi - lo
      ensures InRange(d, xs[lo..hi][i])
    {
      assert xs[lo..hi][i] == xs[lo + i];
    }
  }

  /** The bytes of two arrays laid end to end are the bytes of each in turn. */
  lemma {:induction false} EncodeElemsAppend(d: DataType, xs: seq<int>, ys: seq<int>)
    requires IsInteger(d) && AllInRange(d, xs) && AllInRange(d, ys)
    ensures AllInRange(d, xs + ys)
    ensures EncodeElems(d, xs + ys) == EncodeElems(d, xs) + EncodeElems(d, ys)
  {
    AllInRangeAppend(d, xs, ys);
    if xs == [] {
      assert xs + ys == ys;
    } else {
      EncodeElemsAppend(d, xs[1..], ys);
      DropAppend(xs, ys, 1);
      assert (xs + ys)[0] == xs[0];
    }
  }

  /** Reading a buffer of whole elements followed by more bytes gives the
      elements of each part in turn. */
  lemma {:induction false} ElemsConcat(d: DataType, a: seq<byte>, b: seq<byte>)
    requires IsInteger(d) && |a| % DataTypeToSize(d) == 0
    ensures Elems(d, a + b) == Elems(d, a) + Elems(d, b)
    decreases |a|
  {
    var s := DataTypeToSize(d);
    ElemSize(d);
    if |a| < s {
      assert a == [] by { DivLess(|a|, s); }
      assert a + b == b;
    } else {
      assert (|a| - s) % s == 0 by { DivSub(|a|, s); }
      ElemsConcat(d, a[s..], b);
      ElemsCons(d, a + b);
      ElemsCons(d, a);
      TakeAppend(a, b, s);
      DropAppend(a, b, s);
    }
  }

  lemma WholeOf(n: nat, s: nat)
    requires IsElemSize(s)
    ensures n / s * s <= n < n / s * s + s && (n / s * s) % s == 0
  {
    if s == 2 {} else if s == 4 {} else {}
  }

  /** The bytes of the whole elements that `n` bytes hold: `n / sizeof(T)`
      elements of `sizeof(T)` bytes each. */
  function WholeBytes(d: DataType, n: nat): (r: nat)
    requires IsInteger(d)
    ensures r <= n < r + DataTypeToSize(d)
    ensures r % DataTypeToSize(d) == 0
  {
    match d
    case UShort => WholeOf(n, 2); n / 2 * 2
    case Short => WholeOf(n, 2); n / 2 * 2
    case UInt => WholeOf(n, 4); n / 4 * 4
    case Int => WholeOf(n, 4); n / 4 * 4
    case ULong => WholeOf(n, 8); n / 8 * 8
    case Long => WholeOf(n, 8); n / 8 * 8
  }

  /** Reading the whole elements of the first `WholeBytes(d, n)` bytes
      yields `n / sizeof(T)` of them. */
  lemma ElemsWholeBytes(d: DataType, bs: seq<byte>, n: nat)
    requires IsInteger(d) && WholeBytes(d, n) <= |bs|
    ensures |Elems(d, bs[..WholeBytes(d, n)])| == n / DataTypeToSize(d)
    ensures n / DataTypeToSize(d) * DataTypeToSize(d) == WholeBytes(d, n)
  {
    ElemsLength(d, bs[..WholeBytes(d, n)]);
    match d
    case UShort =>
    case Short =>
    case UInt =>
    case Int =>
    case ULong =>
    case Long =>
  }
}
