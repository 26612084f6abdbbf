/** The callback registry of `include/constant/callback.h`: the numeric type
    tags, their sizes, the element-wise map callbacks and the folding reduce
    callbacks, and the two tables that index them by small integers.

    Only the integer instantiations are modelled. Each integer type is taken
    in its LP64 two's-complement form (short 2 bytes, int 4, long 8), and a
    value that leaves the type's range wraps around modulo 2^bits. For the
    unsigned types this is C++ unsigned arithmetic; for `short` and
    `unsigned short` it is the narrowing of the `int` result back to the
    element type; for `int` and `long` the overflow is undefined in C++ and
    the model takes the hardware wrap-around. */
module Callback {
  import opened Bytes

  /** `DataType`: the handled element types, in enumerator order. */
  datatype DataType = UShort | Short | UInt | Int | ULong | Long | Float | Double | End

  /** The enumerator's value, which is also the tag carried on the wire. */
  function TypeTag(d: DataType): (n: nat)
    ensures n <= 8
    ensures n == 8 <==> d.End?
  {
    match d
    case UShort => 0
    case Short => 1
    case UInt => 2
    case Int => 3
    case ULong => 4
    case Long => 5
    case Float => 6
    case Double => 7
    case End => 8
  }

  /** The type a received tag names, if any. */
  function TypeOfTag(n: nat): (r: Option<DataType>)
    ensures r.Some? <==> n <= 8
  {
    if n == 0 then Some(UShort)
    else if n == 1 then Some(Short)
    else if n == 2 then Some(UInt)
    else if n == 3 then Some(Int)
    else if n == 4 then Some(ULong)
    else if n == 5 then Some(Long)
    else if n == 6 then Some(Float)
    else if n == 7 then Some(Double)
    else if n == 8 then Some(End)
    else None
  }

  /** Every type has its own tag, so a receiver recovers the type exactly. */
  lemma TagRoundTrip(d: DataType, n: nat)
    ensures TypeOfTag(TypeTag(d)) == Some(d)
    ensures TypeOfTag(n).Some? ==> TypeTag(TypeOfTag(n).value) == n
  {
  }

  /** `DataTypeToSize`: the size in bytes of each handled type; `END` has size 0. */
  function DataTypeToSize(d: DataType): (s: nat)
    ensures s == 0 <==> d.End?
    ensures s <= 8
  {
    match d
    case UShort => 2
    case Short => 2
    case UInt => 4
    case Int => 4
    case ULong => 8
    case Long => 8
    case Float => 4
    case Double => 8
    case End => 0
  }

  predicate IsInteger(d: DataType)
  {
    !(d.Float? || d.Double? || d.End?)
  }

  predicate IsSigned(d: DataType)
  {
    d.Short? || d.Int? || d.Long?
  }

  /** Number of distinct values of an integer type: 256 to the power of its size. */
  function Modulus(d: DataType): (m: nat)
    requires IsInteger(d)
    ensures m == Pow256(DataTypeToSize(d))
    ensures m >= 0x1_0000
  {
    assert Pow256(2) == 0x1_0000;
    assert Pow256(4) == 0x1_0000_0000;
    assert Pow256(8) == 0x1_0000_0000_0000_0000;
    match d
    case UShort => 0x1_0000
    case Short => 0x1_0000
    case UInt => 0x1_0000_0000
    case Int => 0x1_0000_0000
    case ULong => 0x1_0000_0000_0000_0000
    case Long => 0x1_0000_0000_0000_0000
  }

  /** `std::numeric_limits<T>::min()`: minus half the modulus for a signed
      type, 0 for an unsigned one. */
  function MinValue(d: DataType): (m: int)
    requires IsInteger(d)
    ensures m == if IsSigned(d) then -(Modulus(d) / 2) else 0
  {
    match d
    case UShort => 0
    case Short => -0x8000
    case UInt => 0
    case Int => -0x8000_0000
    case ULong => 0
    case Long => -0x8000_0000_0000_0000
  }

  /** `std::numeric_limits<T>::max()`: one less than the modulus above the minimum. */
  function MaxValue(d: DataType): (m: int)
    requires IsInteger(d)
    ensures m == MinValue(d) + Modulus(d) - 1
  {
    match d
    case UShort => 0xFFFF
    case Short => 0x7FFF
    case UInt => 0xFFFF_FFFF
    case Int => 0x7FFF_FFFF
    case ULong => 0xFFFF_FFFF_FFFF_FFFF
    case Long => 0x7FFF_FFFF_FFFF_FFFF
  }

  predicate InRange(d: DataType, x: int)
    requires IsInteger(d)
  {
    MinValue(d) <= x <= MaxValue(d)
  }

  /** The value of type `d` that a mathematical integer `x` becomes once it is
      stored: the one value in range that differs from `x` by a multiple of
      the modulus. */
  function Wrap(d: DataType, x: int): (r: int)
    requires IsInteger(d)
    ensures InRange(d, r)
    ensures Congruent(d, x, r)
    ensures InRange(d, x) ==> r == x
  {
    match d
    case UShort => WrapUnsigned16(x)
    case Short => WrapSigned16(x)
    case UInt => WrapUnsigned32(x)
    case Int => WrapSigned32(x)
    case ULong => WrapUnsigned64(x)
    case Long => WrapSigned64(x)
  }

  /** Wrapping has one answer: a value in range that agrees with `x` modulo
      the type's modulus is the wrapped value. */
  lemma {:induction false} WrapUnique(d: DataType, x: int, y: int)
    requires IsInteger(d) && InRange(d, y)
    requires Congruent(d, x, y)
    ensures Wrap(d, x) == y
  {
    match d
    case UShort => UniqueUnsigned16(x, y);
    case Short => UniqueSigned16(x, y);
    case UInt => UniqueUnsigned32(x, y);
    case Int => UniqueSigned32(x, y);
    case ULong => UniqueUnsigned64(x, y);
    case Long => UniqueSigned64(x, y);
  }

  /** `x` and `y` differ by a multiple of the type's modulus, so they are
      the same value once stored in the type. */
  predicate Congruent(d: DataType, x: int, y: int)
    requires IsInteger(d)
  {
    match d
    case UShort => (x - y) % 0x1_0000 == 0
    case Short => (x - y) % 0x1_0000 == 0
    case UInt => (x - y) % 0x1_0000_0000 == 0
    case Int => (x - y) % 0x1_0000_0000 == 0
    case ULong => (x - y) % 0x1_0000_0000_0000_0000 == 0
    case Long => (x - y) % 0x1_0000_0000_0000_0000 == 0
  }

  lemma CongruentTrans(d: DataType, x: int, y: int, z: int)
    requires IsInteger(d) && Congruent(d, x, y) && Congruent(d, y, z)
    ensures Congruent(d, x, z)
  {
    assert (x - y) + (y - z) == x - z;
    match d
    case UShort => ModSumZero16(x - y, y - z);
    case Short => ModSumZero16(x - y, y - z);
    case UInt => ModSumZero32(x - y, y - z);
    case Int => ModSumZero32(x - y, y - z);
    case ULong => ModSumZero64(x - y, y - z);
    case Long => ModSumZero64(x - y, y - z);
  }

  // Wrapping at each width, with the literal modulus spelled out.

  function WrapUnsigned16(x: int): (r: int)
    ensures 0 <= r < 0x1_0000 && (x - r) % 0x1_0000 == 0
    ensures 0 <= x < 0x1_0000 ==> r == x
  {
    x % 0x1_0000
  }

  function WrapSigned16(x: int): (r: int)
    ensures -0x8000 <= r < 0x8000 && (x - r) % 0x1_0000 == 0
    ensures -0x8000 <= x < 0x8000 ==> r == x
  {
    var q := (x + 0x8000) / 0x1_0000;
    assert x + 0x8000 == q * 0x1_0000 + (x + 0x8000) % 0x1_0000;
    (x + 0x8000) % 0x1_0000 - 0x8000
  }

  lemma UniqueUnsigned16(x: int, y: int)
    requires 0 <= y < 0x1_0000 && (x - y) % 0x1_0000 == 0
    ensures WrapUnsigned16(x) == y
  {
  }

  lemma UniqueSigned16(x: int, y: int)
    requires -0x8000 <= y < 0x8000 && (x - y) % 0x1_0000 == 0
    ensures WrapSigned16(x) == y
  {
  }

  lemma ModSumZero16(a: int, b: int)
    requires a % 0x1_0000 == 0 && b % 0x1_0000 == 0
    ensures (a + b) % 0x1_0000 == 0
  {
  }

  function WrapUnsigned32(x: int): (r: int)
    ensures 0 <= r < 0x1_0000_0000 && (x - r) % 0x1_0000_0000 == 0
    ensures 0 <= x < 0x1_0000_0000 ==> r == x
  {
    x % 0x1_0000_0000
  }

  function WrapSigned32(x: int): (r: int)
    ensures -0x8000_0000 <= r < 0x8000_0000 && (x - r) % 0x1_0000_0000 == 0
    ensures -0x8000_0000 <= x < 0x8000_0000 ==> r == x
  {
    var q := (x + 0x8000_0000) / 0x1_0000_0000;
    assert x + 0x8000_0000 == q * 0x1_0000_0000 + (x + 0x8000_0000) % 0x1_0000_0000;
    (x + 0x8000_0000) % 0x1_0000_0000 - 0x8000_0000
  }

  lemma UniqueUnsigned32(x: int, y: int)
    requires 0 <= y < 0x1_0000_0000 && (x - y) % 0x1_0000_0000 == 0
    ensures WrapUnsigned32(x) == y
  {
  }

  lemma UniqueSigned32(x: int, y: int)
    requires -0x8000_0000 <= y < 0x8000_0000 && (x - y) % 0x1_0000_0000 == 0
    ensures WrapSigned32(x) == y
  {
  }

  lemma ModSumZero32(a: int, b: int)
    requires a % 0x1_0000_0000 == 0 && b % 0x1_0000_0000 == 0
    ensures (a + b) % 0x1_0000_0000 == 0
  {
  }

  function WrapUnsigned64(x: int): (r: int)
    ensures 0 <= r < 0x1_0000_0000_0000_0000 && (x - r) % 0x1_0000_0000_0000_0000 == 0
    ensures 0 <= x < 0x1_0000_0000_0000_0000 ==> r == x
  {
    x % 0x1_0000_0000_0000_0000
  }

  function WrapSigned64(x: int): (r: int)
    ensures -0x8000_0000_0000_0000 <= r < 0x8000_0000_0000_0000 && (x - r) % 0x1_0000_0000_0000_0000 == 0
    ensures -0x8000_0000_0000_0000 <= x < 0x8000_0000_0000_0000 ==> r == x
  {
    var q := (x + 0x8000_0000_0000_0000) / 0x1_0000_0000_0000_0000;
    assert x + 0x8000_0000_0000_0000 == q * 0x1_0000_0000_0000_0000 + (x + 0x8000_0000_0000_0000) % 0x1_0000_0000_0000_0000;
    (x + 0x8000_0000_0000_0000) % 0x1_0000_0000_0000_0000 - 0x8000_0000_0000_0000
  }

  lemma UniqueUnsigned64(x: int, y: int)
    requires 0 <= y < 0x1_0000_0000_0000_0000 && (x - y) % 0x1_0000_0000_0000_0000 == 0
    ensures WrapUnsigned64(x) == y
  {
  }

  lemma UniqueSigned64(x: int, y: int)
    requires -0x8000_0000_0000_0000 <= y < 0x8000_0000_0000_0000 && (x - y) % 0x1_0000_0000_0000_0000 == 0
    ensures WrapSigned64(x) == y
  {
  }

  lemma ModSumZero64(a: int, b: int)
    requires a % 0x1_0000_0000_0000_0000 == 0 && b % 0x1_0000_0000_0000_0000 == 0
    ensures (a + b) % 0x1_0000_0000_0000_0000 == 0
  {
  }

  // ---------------------------------------------------------------------
  // Map callbacks: each rewrites one element in place.

  datatype MapOp = Abs | Negate | Pow

  /** `abs`: `a` when positive, `-a` otherwise. */
  function AbsValue(d: DataType, a: int): (r: int)
    requires IsInteger(d) && InRange(d, a)
    ensures InRange(d, r)
    ensures a != MinValue(d) || !IsSigned(d) ==> r >= 0 && (r == a || r == -a)
    ensures IsSigned(d) && a == MinValue(d) ==> r == a
  {
    Wrap(d, if a > 0 then a else -a)
  }

  /** `negate`: `-a`. */
  function NegateValue(d: DataType, a: int): (r: int)
    requires IsInteger(d) && InRange(d, a)
    ensures InRange(d, r)
    ensures IsSigned(d) && a != MinValue(d) ==> r == -a
    ensures IsSigned(d) && a == MinValue(d) ==> r == a
    ensures !IsSigned(d) ==> r == if a == 0 then 0 else Modulus(d) - a
  {
    var r := Wrap(d, -a);
    assert !IsSigned(d) && a != 0 ==> r == Modulus(d) - a by {
      if !IsSigned(d) && a != 0 { WrapUnique(d, -a, Modulus(d) - a); }
    }
    r
  }

  /** `pow`: `a * a`. */
  function PowValue(d: DataType, a: int): (r: int)
    requires IsInteger(d) && InRange(d, a)
    ensures InRange(d, r)
    ensures InRange(d, a * a) ==> r == a * a
    ensures Congruent(d, a * a, r)
  {
    Wrap(d, a * a)
  }

  function MapValue(op: MapOp, d: DataType, a: int): (r: int)
    requires IsInteger(d) && InRange(d, a)
    ensures InRange(d, r)
  {
    match op
    case Abs => AbsValue(d, a)
    case Negate => NegateValue(d, a)
    case Pow => PowValue(d, a)
  }

  /** Negating twice gives back the value for every value of the type,
      including the minimum of a signed type, which is its own negation. */
  lemma NegateInvolutive(d: DataType, a: int)
    requires IsInteger(d) && InRange(d, a)
    ensures NegateValue(d, NegateValue(d, a)) == a
  {
  }

  // ---------------------------------------------------------------------
  // Reduce callbacks: each folds one element into the accumulator `out`.

  datatype ReduceOp = Sum | CountEven

  /** `sum`: `out + a`, stored back into the element type. */
  function SumValue(d: DataType, a: int, out: int): (r: int)
    requires IsInteger(d)
    ensures InRange(d, r)
  {
    Wrap(d, out + a)
  }

  /** `sum` is exact when the total fits the type, and otherwise agrees
      with it modulo the type's modulus. */
  lemma SumMeaning(d: DataType, a: int, out: int)
    requires IsInteger(d)
    ensures InRange(d, out + a) ==> SumValue(d, a, out) == out + a
    ensures Congruent(d, out + a, SumValue(d, a, out))
  {
  }

  /** `count_even`: `out` plus one exactly when `a` is even. */
  function CountEvenValue(d: DataType, a: int, out: int): (r: int)
    requires IsInteger(d)
    ensures InRange(d, r)
  {
    Wrap(d, out + if a % 2 == 0 then 1 else 0)
  }

  /** `count_even` leaves an odd element's accumulator alone and bumps it by
      one for an even element, the maximum of the type wrapping to its
      minimum. */
  lemma CountEvenMeaning(d: DataType, a: int, out: int)
    requires IsInteger(d) && InRange(d, out)
    ensures a % 2 != 0 ==> CountEvenValue(d, a, out) == out
    ensures a % 2 == 0 && out < MaxValue(d) ==> CountEvenValue(d, a, out) == out + 1
    ensures a % 2 == 0 && out == MaxValue(d) ==> CountEvenValue(d, a, out) == MinValue(d)
  {
    if a % 2 == 0 && out == MaxValue(d) {
      WrapUnique(d, out + 1, MinValue(d));
    }
  }

  function ReduceValue(op: ReduceOp, d: DataType, a: int, out: int): (r: int)
    requires IsInteger(d)
    ensures InRange(d, r)
  {
    match op
    case Sum => SumValue(d, a, out)
    case CountEven => CountEvenValue(d, a, out)
  }

  // ---------------------------------------------------------------------
  // The tables.

  /** A registered callback: what it does and which element type it is
      instantiated for. */
  datatype MapCallback = MapCallback(op: MapOp, ty: DataType)
  datatype ReduceCallback = ReduceCallback(rop: ReduceOp, rty: DataType)

  /** `MAPS`, in declaration order. */
  const MAPS: seq<MapCallback> := [
    MapCallback(Abs, Short), MapCallback(Abs, Int), MapCallback(Abs, Float),
    MapCallback(Abs, Double), MapCallback(Abs, Long),
    MapCallback(Negate, Short), MapCallback(Negate, Int), MapCallback(Negate, Float),
    MapCallback(Negate, Double), MapCallback(Negate, Long),
    MapCallback(Pow, UShort), MapCallback(Pow, UInt), MapCallback(Pow, ULong),
    MapCallback(Pow, Short), MapCallback(Pow, Int), MapCallback(Pow, Float),
    MapCallback(Pow, Double), MapCallback(Pow, Long)
  ]

  /** `REDUCE`, in declaration order: only the eight sums are registered. */
  const REDUCE: seq<ReduceCallback> := [
    ReduceCallback(Sum, UShort), ReduceCallback(Sum, UInt), ReduceCallback(Sum, ULong),
    ReduceCallback(Sum, Short), ReduceCallback(Sum, Int), ReduceCallback(Sum, Float),
    ReduceCallback(Sum, Double), ReduceCallback(Sum, Long)
  ]

  /** `MapID`: the names by which callers pick a map callback. */
  datatype MapId =
    | SAbs | IAbs | FAbs | DAbs | LAbs
    | SNegate | INegate | FNegate | DNegate | LNegate
    | USPow | UIPow | ULPow | SPow | IPow | FPow | DPow | LPow

  /** The enumerator's value. */
  function MapIdValue(id: MapId): nat
  {
    match id
    case SAbs => 0 case IAbs => 1 case FAbs => 2 case DAbs => 3 case LAbs => 4
    case SNegate => 5 case INegate => 6 case FNegate => 7 case DNegate => 8 case LNegate => 9
    case USPow => 10 case UIPow => 11 case ULPow => 12 case SPow => 13 case IPow => 14
    case FPow => 15 case DPow => 16 case LPow => 17
  }

  /** What an enumerator's name promises: the operation after the type prefix. */
  function MapIdMeaning(id: MapId): MapCallback
  {
    match id
    case SAbs => MapCallback(Abs, Short)
    case IAbs => MapCallback(Abs, Int)
    case FAbs => MapCallback(Abs, Float)
    case DAbs => MapCallback(Abs, Double)
    case LAbs => MapCallback(Abs, Long)
    case SNegate => MapCallback(Negate, Short)
    case INegate => MapCallback(Negate, Int)
    case FNegate => MapCallback(Negate, Float)
    case DNegate => MapCallback(Negate, Double)
    case LNegate => MapCallback(Negate, Long)
    case USPow => MapCallback(Pow, UShort)
    case UIPow => MapCallback(Pow, UInt)
    case ULPow => MapCallback(Pow, ULong)
    case SPow => MapCallback(Pow, Short)
    case IPow => MapCallback(Pow, Int)
    case FPow => MapCallback(Pow, Float)
    case DPow => MapCallback(Pow, Double)
    case LPow => MapCallback(Pow, Long)
  }

  /** Every `MapID` indexes the `MAPS` entry its name describes. */
  lemma MapsAlignWithMapId(id: MapId)
    ensures MapIdValue(id) < |MAPS| && MAPS[MapIdValue(id)] == MapIdMeaning(id)
  {
  }

  /** `ReduceID`: sixteen names, of which only the first eight have a table entry. */
  datatype ReduceId =
    | USSum | UISum | ULSum | SSum | ISum | FSum | DSum | LSum
    | USCountEven | UICountEven | ULCountEven | SCountEven
    | ICountEven | FCountEven | DCountEven | LCountEven

  function ReduceIdValue(id: ReduceId): nat
  {
    match id
    case USSum => 0 case UISum => 1 case ULSum => 2 case SSum => 3
    case ISum => 4 case FSum => 5 case DSum => 6 case LSum => 7
    case USCountEven => 8 case UICountEven => 9 case ULCountEven => 10 case SCountEven => 11
    case ICountEven => 12 case FCountEven => 13 case DCountEven => 14 case LCountEven => 15
  }

  function ReduceIdMeaning(id: ReduceId): ReduceCallback
  {
    match id
    case USSum => ReduceCallback(Sum, UShort)
    case UISum => ReduceCallback(Sum, UInt)
    case ULSum => ReduceCallback(Sum, ULong)
    case SSum => ReduceCallback(Sum, Short)
    case ISum => ReduceCallback(Sum, Int)
    case FSum => ReduceCallback(Sum, Float)
    case DSum => ReduceCallback(Sum, Double)
    case LSum => ReduceCallback(Sum, Long)
    case USCountEven => ReduceCallback(CountEven, UShort)
    case UICountEven => ReduceCallback(CountEven, UInt)
    case ULCountEven => ReduceCallback(CountEven, ULong)
    case SCountEven => ReduceCallback(CountEven, Short)
    case ICountEven => ReduceCallback(CountEven, Int)
    case FCountEven => ReduceCallback(CountEven, Float)
    case DCountEven => ReduceCallback(CountEven, Double)
    case LCountEven => ReduceCallback(CountEven, Long)
  }

  /** The sum ids index the `REDUCE` entry their name describes; the
      count-even ids lie past the end of the table. */
  lemma ReduceAlignsWithReduceId(id: ReduceId)
    ensures ReduceIdMeaning(id).rop.Sum? ==>
      ReduceIdValue(id) < |REDUCE| && REDUCE[ReduceIdValue(id)] == ReduceIdMeaning(id)
    ensures ReduceIdMeaning(id).rop.CountEven? ==> ReduceIdValue(id) >= |REDUCE|
  {
  }

  // ---------------------------------------------------------------------
  // Folding a sequence of elements, in ascending order, into an accumulator.

  predicate AllInRange(d: DataType, xs: seq<int>)
    requires IsInteger(d)
  {
    forall i | 0 <= i < |xs| :: InRange(d, xs[i])
  }

  /** `out` after applying the reduce callback to `xs[0]`, then `xs[1]`, ... */
  function Fold(op: ReduceOp, d: DataType, out: int, xs: seq<int>): (r: int)
    requires IsInteger(d) && InRange(d, out)
    ensures InRange(d, r)
    decreases xs
  {
    if xs == [] then out else Fold(op, d, ReduceValue(op, d, xs[0], out), xs[1..])
  }

  lemma FoldCons(op: ReduceOp, d: DataType, out: int, xs: seq<int>)
    requires IsInteger(d) && InRange(d, out) && xs != []
    ensures Fold(op, d, out, xs) == Fold(op, d, ReduceValue(op, d, xs[0], out), xs[1..])
  {
  }

  /** Folding a concatenation is folding the second part into the result of
      folding the first: a chain of owners, each folding its own chunk in
      turn, computes the fold of the whole array. */
  lemma {:induction false} FoldConcat(op: ReduceOp, d: DataType, out: int, xs: seq<int>, ys: seq<int>)
    requires IsInteger(d) && InRange(d, out)
    ensures Fold(op, d, out, xs + ys) == Fold(op, d, Fold(op, d, out, xs), ys)
    decreases xs
  {
    if xs != [] {
      assert (xs + ys)[0] == xs[0];
      assert (xs + ys)[1..] == xs[1..] + ys;
      var next := ReduceValue(op, d, xs[0], out);
      FoldConcat(op, d, next, xs[1..], ys);
      assert Fold(op, d, out, xs + ys) == Fold(op, d, next, xs[1..] + ys);
    } else {
      assert xs + ys == ys;
    }
  }

  function SeqSum(xs: seq<int>): int
  {
    if xs == [] then 0 else xs[0] + SeqSum(xs[1..])
  }

  function EvenCount(xs: seq<int>): nat
  {
    if xs == [] then 0 else (if xs[0] % 2 == 0 then 1 else 0) + EvenCount(xs[1..])
  }

  /** Adding the same amount to two numbers that agree modulo the type's
      modulus gives numbers that wrap to the same value. */
  /** What one element adds to the accumulator before wrapping. */
  function Contribution(op: ReduceOp, a: int): int
  {
    match op
    case Sum => a
    case CountEven => if a % 2 == 0 then 1 else 0
  }

  /** What a whole sequence adds to the accumulator before wrapping: its sum,
      or the number of its even elements. */
  function Total(op: ReduceOp, xs: seq<int>): int
  {
    match op
    case Sum => SeqSum(xs)
    case CountEven => EvenCount(xs)
  }

  lemma TotalCons(op: ReduceOp, xs: seq<int>)
    requires xs != []
    ensures Total(op, xs) == Contribution(op, xs[0]) + Total(op, xs[1..])
  {
  }

  lemma ReduceStep(op: ReduceOp, d: DataType, a: int, out: int)
    requires IsInteger(d)
    ensures ReduceValue(op, d, a, out) == Wrap(d, out + Contribution(op, a))
  {
  }

  lemma CongruentShift(d: DataType, x: int, y: int, t: int)
    requires IsInteger(d) && Congruent(d, x, y)
    ensures Congruent(d, x + t, y + t)
  {
    assert (x + t) - (y + t) == x - y;
  }

  /** A fold stays congruent to the accumulator plus the total of the
      sequence: the callbacks only ever lose multiples of the modulus. */
  lemma {:induction false} FoldCongruent(op: ReduceOp, d: DataType, out: int, xs: seq<int>)
    requires IsInteger(d) && InRange(d, out)
    ensures Congruent(d, out + Total(op, xs), Fold(op, d, out, xs))
    decreases xs
  {
    if xs == [] {
      assert Total(op, xs) == 0;
      assert out - out == 0;
    } else {
      var next := ReduceValue(op, d, xs[0], out);
      var c := Contribution(op, xs[0]);
      var t := Total(op, xs[1..]);
      FoldCongruent(op, d, next, xs[1..]);
      ReduceStep(op, d, xs[0], out);
      CongruentShift(d, out + c, next, t);
      CongruentTrans(d, out + c + t, next + t, Fold(op, d, next, xs[1..]));
      FoldCons(op, d, out, xs);
      TotalCons(op, xs);
    }
  }

  /** Folding with `sum` adds every element to the accumulator, modulo the type. */
  lemma FoldSum(d: DataType, out: int, xs: seq<int>)
    requires IsInteger(d) && InRange(d, out)
    ensures Fold(Sum, d, out, xs) == Wrap(d, out + SeqSum(xs))
  {
    FoldCongruent(Sum, d, out, xs);
    WrapUnique(d, out + SeqSum(xs), Fold(Sum, d, out, xs));
  }

  /** Folding with `count_even` adds the number of even elements, modulo the type. */
  lemma FoldCountEven(d: DataType, out: int, xs: seq<int>)
    requires IsInteger(d) && InRange(d, out)
    ensures Fold(CountEven, d, out, xs) == Wrap(d, out + EvenCount(xs))
  {
    FoldCongruent(CountEven, d, out, xs);
    WrapUnique(d, out + EvenCount(xs), Fold(CountEven, d, out, xs));
  }
}
