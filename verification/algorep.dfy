/** The two loops a worker runs over the bytes of its chunk (`include/algorep.h`):
    `applyCallback` rewrites every whole element in place with a map
    callback, and `applyReduce` folds every whole element into an
    accumulator held in the first bytes of `out`. */
module Algorep {
  import opened Bytes
  import opened Callback
  import opened ElemBytes

  /** Every element rewritten by the map callback `op`. */
  function MapAll(op: MapOp, d: DataType, xs: seq<int>): (r: seq<int>)
    requires IsInteger(d) && AllInRange(d, xs)
    ensures |r| == |xs| && AllInRange(d, r)
    ensures forall i | 0 <= i < |xs| :: r[i] == MapValue(op, d, xs[i])
  {
    seq(|xs|, i requires 0 <= i < |xs| => MapValue(op, d, xs[i]))
  }

  /** Negating every element twice gives back the array, the minimum of a
      signed type included. */
  lemma MapAllNegateTwice(d: DataType, xs: seq<int>)
    requires IsInteger(d) && AllInRange(d, xs)
    ensures MapAll(Negate, d, MapAll(Negate, d, xs)) == xs
  {
    forall i | 0 <= i < |xs|
      ensures MapAll(Negate, d, MapAll(Negate, d, xs))[i] == xs[i]
    {
      NegateInvolutive(d, xs[i]);
    }
  }

  // ---------------------------------------------------------------------
  // Walking a buffer one whole element at a time. Both loops of a worker
  // visit the elements at offsets 0, s, 2s, ... for the element size s; the
  // two functions below say what such a walk computes, for any per-element
  // step, and the lemmas after them are the facts the loops need.

  /** The buffer with each whole chunk of `s` bytes replaced by its image
      under `f`, first chunk first; bytes after the last whole chunk stay. */
  function MapChunks(f: seq<byte> -> seq<byte>, s: nat, bs: seq<byte>): seq<byte>
    requires s > 0
    decreases |bs|
  {
    if |bs| < s then bs else f(bs[..s]) + MapChunks(f, s, bs[s..])
  }

  /** The accumulator after each whole chunk of `s` bytes has been combined
      into it by `g`, first chunk first. */
  function FoldChunks(g: (int, seq<byte>) -> int, s: nat, acc: int, bs: seq<byte>): int
    requires s > 0
    decreases |bs|
  {
    if |bs| < s then acc else FoldChunks(g, s, g(acc, bs[..s]), bs[s..])
  }

  ghost predicate KeepsLength(f: seq<byte> -> seq<byte>)
  {
    forall e :: |f(e)| == |e|
  }

  lemma {:induction false} MapChunksLength(f: seq<byte> -> seq<byte>, s: nat, bs: seq<byte>)
    requires s > 0 && KeepsLength(f)
    ensures |MapChunks(f, s, bs)| == |bs|
    decreases |bs|
  {
    if |bs| >= s {
      MapChunksLength(f, s, bs[s..]);
    }
  }

  /** Rewriting a whole number of chunks followed by more bytes rewrites
      each part on its own. */
  lemma {:induction false} MapChunksConcat(f: seq<byte> -> seq<byte>, s: nat, a: seq<byte>, b: seq<byte>)
    requires IsElemSize(s) && |a| % s == 0
    ensures MapChunks(f, s, a + b) == MapChunks(f, s, a) + MapChunks(f, s, b)
    decreases |a|
  {
    if |a| < s {
      assert a == [] by { DivLess(|a|, s); }
      assert a + b == b;
    } else {
      assert (|a| - s) % s == 0 by { DivSub(|a|, s); }
      MapChunksConcat(f, s, a[s..], b);
      TakeAppend(a, b, s);
      DropAppend(a, b, s);
    }
  }

  /** Combining a whole number of chunks and then one more chunk `e` is
      combining `e` into the accumulator reached after the first part. */
  lemma {:induction false} FoldChunksSnoc(g: (int, seq<byte>) -> int, s: nat, acc: int, a: seq<byte>, e: seq<byte>)
    requires IsElemSize(s) && |a| % s == 0 && |e| == s
    ensures FoldChunks(g, s, acc, a + e) == g(FoldChunks(g, s, acc, a), e)
    decreases |a|
  {
    if |a| < s {
      assert a == [] by { DivLess(|a|, s); }
      assert a + e == e;
      assert e[..s] == e && e[s..] == [];
    } else {
      assert (|a| - s) % s == 0 by { DivSub(|a|, s); }
      FoldChunksSnoc(g, s, g(acc, a[..s]), a[s..], e);
      TakeAppend(a, e, s);
      DropAppend(a, e, s);
    }
  }

  /** One step of an in-place walk: the chunk at `off` is still the original
      one, and overwriting it with its image extends the rewritten prefix. */
  lemma MapChunksStep(f: seq<byte> -> seq<byte>, s: nat, orig: seq<byte>, cur: seq<byte>, off: nat)
    requires IsElemSize(s) && KeepsLength(f) && off % s == 0 && off + s <= |orig|
    requires cur == MapChunks(f, s, orig[..off]) + orig[off..]
    ensures |cur| == |orig|
    ensures cur[off..off + s] == orig[off..off + s]
    ensures cur[..off] + f(cur[off..off + s]) + cur[off + s..] == MapChunks(f, s, orig[..off + s]) + orig[off + s..]
  {
    var done := MapChunks(f, s, orig[..off]);
    var e := orig[off..off + s];
    MapChunksLength(f, s, orig[..off]);
    assert cur[off..off + s] == e by {
      AfterPrefix(done, orig[off..], s);
      SliceOfDrop(orig, off, 0, s);
    }
    assert cur[..off] + f(e) + cur[off + s..] == done + f(e) + orig[off + s..] by {
      Splice(done, f(e), orig[off..]);
      SliceOfDrop(orig, off, s, |orig| - off);
    }
    assert MapChunks(f, s, orig[..off + s]) == done + f(e) by {
      TakeTake(orig, off, off + s);
      MapChunksConcat(f, s, orig[..off], e);
      assert e[..s] == e && e[s..] == [];
    }
  }

  // ---------------------------------------------------------------------
  // applyCallback

  /** What one iteration of `applyCallback` writes over the bytes `e` of an
      element: the image of the callback's result. */
  function Image(op: MapOp, d: DataType, e: seq<byte>): (r: seq<byte>)
    requires IsInteger(d)
    ensures |r| == |e|
  {
    if |e| == DataTypeToSize(d) then EncodeElem(d, MapValue(op, d, DecodeElem(d, e))) else e
  }

  function ImageOf(op: MapOp, d: DataType): seq<byte> -> seq<byte>
    requires IsInteger(d)
  {
    e => Image(op, d, e)
  }

  lemma ImageOfKeepsLength(op: MapOp, d: DataType)
    requires IsInteger(d)
    ensures KeepsLength(ImageOf(op, d))
  {
  }

  lemma ImageOfElem(op: MapOp, d: DataType, e: seq<byte>)
    requires IsInteger(d) && |e| == DataTypeToSize(d)
    ensures ImageOf(op, d)(e) == EncodeElem(d, MapValue(op, d, DecodeElem(d, e)))
  {
  }

  lemma MapAllCons(op: MapOp, d: DataType, xs: seq<int>)
    requires IsInteger(d) && AllInRange(d, xs) && xs != []
    ensures MapAll(op, d, xs) == [MapValue(op, d, xs[0])] + MapAll(op, d, xs[1..])
  {
  }

  lemma EncodeElemsCons(d: DataType, xs: seq<int>)
    requires IsInteger(d) && AllInRange(d, xs) && xs != []
    ensures EncodeElems(d, xs) == EncodeElem(d, xs[0]) + EncodeElems(d, xs[1..])
  {
  }

  lemma MapChunksCons(f: seq<byte> -> seq<byte>, s: nat, bs: seq<byte>)
    requires 0 < s <= |bs|
    ensures MapChunks(f, s, bs) == f(bs[..s]) + MapChunks(f, s, bs[s..])
  {
  }

  /** Rewriting the chunks of a buffer of whole elements gives the images of
      its elements, each rewritten by the callback. */
  lemma {:induction false} MapChunksMeaning(op: MapOp, d: DataType, bs: seq<byte>)
    requires IsInteger(d) && |bs| % DataTypeToSize(d) == 0
    ensures MapChunks(ImageOf(op, d), DataTypeToSize(d), bs) == EncodeElems(d, MapAll(op, d, Elems(d, bs)))
    decreases |bs|
  {
    var s := DataTypeToSize(d);
    var f := ImageOf(op, d);
    ElemSize(d);
    if |bs| < s {
      assert bs == [] by { DivLess(|bs|, s); }
    } else {
      assert (|bs| - s) % s == 0 by { DivSub(|bs|, s); }
      var xs := Elems(d, bs);
      var ys := MapAll(op, d, xs);
      MapChunksMeaning(op, d, bs[s..]);
      ElemsCons(d, bs);
      assert xs[0] == DecodeElem(d, bs[..s]) && xs[1..] == Elems(d, bs[s..]);
      MapChunksCons(f, s, bs);
      ImageOfElem(op, d, bs[..s]);
      MapAllCons(op, d, xs);
      assert ys[0] == MapValue(op, d, xs[0]) && ys[1..] == MapAll(op, d, xs[1..]);
      EncodeElemsCons(d, ys);
    }
  }

  /** One iteration of `applyCallback`: the element at `off` is still the
      original one, and storing its image extends the rewritten prefix. */
  lemma MapLoopStep(op: MapOp, d: DataType, orig: seq<byte>, cur: seq<byte>, off: nat, e: seq<byte>)
    requires IsInteger(d) && off % DataTypeToSize(d) == 0 && off + DataTypeToSize(d) <= |orig|
    requires cur == MapChunks(ImageOf(op, d), DataTypeToSize(d), orig[..off]) + orig[off..]
    requires |cur| == |orig|
    requires e == EncodeElem(d, MapValue(op, d, DecodeElem(d, cur[off..off + DataTypeToSize(d)])))
    ensures off + |e| <= |cur|
    ensures cur[..off] + e + cur[off + |e|..]
      == MapChunks(ImageOf(op, d), DataTypeToSize(d), orig[..off + DataTypeToSize(d)]) + orig[off + DataTypeToSize(d)..]
  {
    var s := DataTypeToSize(d);
    ElemSize(d);
    ImageOfKeepsLength(op, d);
    MapChunksStep(ImageOf(op, d), s, orig, cur, off);
    ImageOfElem(op, d, cur[off..off + s]);
  }

  /** `applyCallback<T>(input, nb_elt, call_id)`: the first `nb_elt / sizeof(T)`
      elements of `input` are each replaced by the result of the callback
      `MAPS[call_id]`; the bytes after them are left as they were. */
  method ApplyCallback(d: DataType, callId: nat, input: array<byte>, nbElt: nat)
    requires IsInteger(d) && callId < |MAPS| && MAPS[callId].ty == d
    requires WholeBytes(d, nbElt) <= input.Length
    modifies input
    ensures input[..] ==
      EncodeElems(d, MapAll(MAPS[callId].op, d, Elems(d, old(input[..WholeBytes(d, nbElt)]))))
      + old(input[WholeBytes(d, nbElt)..])
    ensures |Elems(d, old(input[..WholeBytes(d, nbElt)]))| == nbElt / DataTypeToSize(d)
    ensures nbElt < DataTypeToSize(d) ==> input[..] == old(input[..])
  {
    MapElements(d, MAPS[callId].op, input, nbElt);
  }

  /** The loop of `applyCallback` once the callback has been looked up. */
  method MapElements(d: DataType, op: MapOp, input: array<byte>, nbElt: nat)
    requires IsInteger(d) && WholeBytes(d, nbElt) <= input.Length
    modifies input
    ensures input[..] ==
      EncodeElems(d, MapAll(op, d, Elems(d, old(input[..WholeBytes(d, nbElt)]))))
      + old(input[WholeBytes(d, nbElt)..])
    ensures |Elems(d, old(input[..WholeBytes(d, nbElt)]))| == nbElt / DataTypeToSize(d)
    ensures nbElt < DataTypeToSize(d) ==> input[..] == old(input[..])
  {
    var s := DataTypeToSize(d);
    var count := nbElt / s;
    ghost var orig := input[..];
    assert orig[..0] == [];
    var i := 0;
    var off := 0;
    while i < count
      invariant 0 <= i <= count && off == i * s && off % s == 0
      invariant input[..] == MapChunks(ImageOf(op, d), s, orig[..off]) + orig[off..]
    {
      OffsetStep(d, nbElt, i, off);
      var cur := input[..];
      var a := DecodeElem(d, cur[off..off + s]);
      var e := EncodeElem(d, MapValue(op, d, a));
      MapLoopStep(op, d, orig, cur, off, e);
      Store(input, off, e);
      i := i + 1;
      off := off + s;
    }
    MapDone(op, d, orig, nbElt, off);
  }

  /** Element `i < nb_elt / sizeof(T)` lies within the whole elements, and
      the next one starts a whole element further on. */
  lemma OffsetStep(d: DataType, nbElt: nat, i: nat, off: nat)
    requires IsInteger(d) && i < nbElt / DataTypeToSize(d) && off == i * DataTypeToSize(d)
    ensures off + DataTypeToSize(d) <= WholeBytes(d, nbElt)
    ensures off + DataTypeToSize(d) == (i + 1) * DataTypeToSize(d)
    ensures (off + DataTypeToSize(d)) % DataTypeToSize(d) == 0
  {
    match d
    case UShort =>
    case Short =>
    case UInt =>
    case Int =>
    case ULong =>
    case Long =>
  }

  lemma MapDone(op: MapOp, d: DataType, orig: seq<byte>, nbElt: nat, off: nat)
    requires IsInteger(d) && WholeBytes(d, nbElt) <= |orig|
    requires off == nbElt / DataTypeToSize(d) * DataTypeToSize(d)
    ensures MapChunks(ImageOf(op, d), DataTypeToSize(d), orig[..off]) + orig[off..] ==
      EncodeElems(d, MapAll(op, d, Elems(d, orig[..WholeBytes(d, nbElt)]))) + orig[WholeBytes(d, nbElt)..]
    ensures |Elems(d, orig[..WholeBytes(d, nbElt)])| == nbElt / DataTypeToSize(d)
    ensures nbElt < DataTypeToSize(d) ==>
      MapChunks(ImageOf(op, d), DataTypeToSize(d), orig[..off]) + orig[off..] == orig
  {
    ElemsWholeBytes(d, orig, nbElt);
    MapChunksMeaning(op, d, orig[..off]);
    if nbElt < DataTypeToSize(d) {
      assert orig[..0] + orig[0..] == orig;
    }
  }

  // ---------------------------------------------------------------------
  // applyReduce

  /** What one iteration of `applyReduce` makes of the accumulator and the
      bytes `e` of the next element. */
  function StepOf(op: ReduceOp, d: DataType): (int, seq<byte>) -> int
    requires IsInteger(d)
  {
    (acc: int, e: seq<byte>) =>
      if |e| == DataTypeToSize(d) && InRange(d, acc) then ReduceValue(op, d, DecodeElem(d, e), acc) else acc
  }

  /** Combining the chunks of a buffer folds its whole elements, in order. */
  lemma {:induction false} FoldChunksMeaning(op: ReduceOp, d: DataType, init: int, bs: seq<byte>)
    requires IsInteger(d) && InRange(d, init)
    ensures FoldChunks(StepOf(op, d), DataTypeToSize(d), init, bs) == Fold(op, d, init, Elems(d, bs))
    decreases |bs|
  {
    var s := DataTypeToSize(d);
    if |bs| >= s {
      var next := ReduceValue(op, d, DecodeElem(d, bs[..s]), init);
      FoldChunksMeaning(op, d, next, bs[s..]);
      ElemsCons(d, bs);
      FoldCons(op, d, init, Elems(d, bs));
    }
  }

  /** `applyReduce<T>(input, nb_elt, call_id, out)`: the accumulator in the
      first `sizeof(T)` bytes of `out` becomes the fold, in ascending order,
      of the first `nb_elt / sizeof(T)` elements of `input` into its old
      value; nothing else changes. */
  method ApplyReduce(d: DataType, callId: nat, input: array<byte>, nbElt: nat, out: array<byte>)
    requires IsInteger(d) && callId < |REDUCE| && REDUCE[callId].rty == d
    requires WholeBytes(d, nbElt) <= input.Length && DataTypeToSize(d) <= out.Length
    requires input != out
    modifies out
    ensures out[..] ==
      EncodeElem(d, Fold(REDUCE[callId].rop, d, DecodeElem(d, old(out[..DataTypeToSize(d)])),
                         Elems(d, input[..WholeBytes(d, nbElt)])))
      + old(out[DataTypeToSize(d)..])
    ensures nbElt < DataTypeToSize(d) ==> out[..] == old(out[..])
  {
    FoldElements(d, REDUCE[callId].rop, input, nbElt, out);
  }

  /** The loop of `applyReduce` once the callback has been looked up. */
  method FoldElements(d: DataType, op: ReduceOp, input: array<byte>, nbElt: nat, out: array<byte>)
    requires IsInteger(d)
    requires WholeBytes(d, nbElt) <= input.Length && DataTypeToSize(d) <= out.Length
    requires input != out
    modifies out
    ensures out[..] ==
      EncodeElem(d, Fold(op, d, DecodeElem(d, old(out[..DataTypeToSize(d)])),
                         Elems(d, input[..WholeBytes(d, nbElt)])))
      + old(out[DataTypeToSize(d)..])
    ensures nbElt < DataTypeToSize(d) ==> out[..] == old(out[..])
  {
    var s := DataTypeToSize(d);
    var count := nbElt / s;
    ghost var init := DecodeElem(d, out[..s]);
    ghost var tail := out[s..];
    ghost var acc := init;
    AccStart(d, out[..]);
    assert input[..][..0] == [];
    var i := 0;
    var off := 0;
    while i < count
      invariant 0 <= i <= count && off == i * s && off % s == 0
      invariant InRange(d, acc) && acc == FoldChunks(StepOf(op, d), s, init, input[..][..off])
      invariant out[..] == EncodeElem(d, acc) + tail
    {
      OffsetStep(d, nbElt, i, off);
      var cur := out[..];
      ReduceLoopStep(op, d, init, acc, tail, input[..], off);
      var x := DecodeElem(d, cur[..s]);
      var a := DecodeElem(d, input[off..off + s]);
      Store(out, 0, EncodeElem(d, ReduceValue(op, d, a, x)));
      acc := ReduceValue(op, d, a, x);
      i := i + 1;
      off := off + s;
    }
    ReduceDone(op, d, input[..], nbElt, init, off);
  }

  /** One iteration of `applyReduce`: the accumulator read from `out` is the
      fold so far, and storing its combination with the element at `off`
      gives the fold one element further on. */
  lemma ReduceLoopStep(op: ReduceOp, d: DataType, init: int, acc: int, tail: seq<byte>, inp: seq<byte>, off: nat)
    requires IsInteger(d) && InRange(d, acc)
    requires off % DataTypeToSize(d) == 0 && off + DataTypeToSize(d) <= |inp|
    requires acc == FoldChunks(StepOf(op, d), DataTypeToSize(d), init, inp[..off])
    ensures
      var s := DataTypeToSize(d);
      var cur := EncodeElem(d, acc) + tail;
      var y := ReduceValue(op, d, DecodeElem(d, inp[off..off + s]), DecodeElem(d, cur[..s]));
      y == FoldChunks(StepOf(op, d), s, init, inp[..off + s]) &&
      cur[..0] + EncodeElem(d, y) + cur[0 + s..] == EncodeElem(d, y) + tail
  {
    var s := DataTypeToSize(d);
    ElemSize(d);
    AccBytes(d, acc, tail);
    TakeTake(inp, off, off + s);
    FoldChunksSnoc(StepOf(op, d), s, init, inp[..off], inp[off..off + s]);
  }

  /** The accumulator bytes at the head of `out`. */
  lemma AccBytes(d: DataType, acc: int, tail: seq<byte>)
    requires IsInteger(d) && InRange(d, acc)
    ensures (EncodeElem(d, acc) + tail)[..DataTypeToSize(d)] == EncodeElem(d, acc)
    ensures (EncodeElem(d, acc) + tail)[DataTypeToSize(d)..] == tail
    ensures (EncodeElem(d, acc) + tail)[..0] == []
    ensures DecodeElem(d, EncodeElem(d, acc)) == acc
  {
    DecodeEncodeElem(d, acc);
  }

  lemma AccStart(d: DataType, cur: seq<byte>)
    requires IsInteger(d) && DataTypeToSize(d) <= |cur|
    ensures cur == EncodeElem(d, DecodeElem(d, cur[..DataTypeToSize(d)])) + cur[DataTypeToSize(d)..]
  {
    EncodeDecodeElem(d, cur[..DataTypeToSize(d)]);
    TakeDrop(cur, DataTypeToSize(d));
  }

  lemma ReduceDone(op: ReduceOp, d: DataType, inp: seq<byte>, nbElt: nat, init: int, off: nat)
    requires IsInteger(d) && InRange(d, init) && WholeBytes(d, nbElt) <= |inp|
    requires off == nbElt / DataTypeToSize(d) * DataTypeToSize(d)
    ensures FoldChunks(StepOf(op, d), DataTypeToSize(d), init, inp[..off])
      == Fold(op, d, init, Elems(d, inp[..WholeBytes(d, nbElt)]))
    ensures nbElt < DataTypeToSize(d) ==> FoldChunks(StepOf(op, d), DataTypeToSize(d), init, inp[..off]) == init
  {
    ElemsWholeBytes(d, inp, nbElt);
    FoldChunksMeaning(op, d, init, inp[..off]);
  }
}
