/** `Allocator` (`include/data/allocator.h`, `include/data/allocator.hxx`,
    `src/data/allocator.cpp`): the coordinator's view of the cluster. It
    keeps the remaining memory budget of every worker, places arrays on the
    workers, and turns each operation on a distributed array into the
    messages it sends.

    The transport is not modelled. An operation returns the messages it
    sends, in order, and what the workers answer is passed in: the ids
    returned by an allocation, the values returned by a read, the status
    bytes acknowledging a write, the value returned by a reduction. An
    array's chunk list (what `getIds`, `getIntIds` and `getBounds` give) is
    passed in as a sequence of `Chunk`s. Element values are integers of the
    array's `DataType`. */
module Allocation {
  import opened Bytes
  import opened Constants
  import opened Callback
  import opened ElemBytes
  import opened Elements
  import opened Storage
  import opened Placement
  import opened Wire

  /** One chunk of a distributed array: its id, the rank of the worker that
      holds it and its element bounds. */
  datatype Chunk = Chunk(id: string, span: Span)

  /** The number of elements of a chunk, `upper - lower + 1` in `size_t`. */
  function Count(c: Chunk): uint64
  {
    SpanCount(c.span)
  }

  function Ids(cs: seq<Chunk>): (r: seq<string>)
    ensures |r| == |cs| && forall k | 0 <= k < |cs| :: r[k] == cs[k].id
  {
    seq(|cs|, k requires 0 <= k < |cs| => cs[k].id)
  }

  predicate ByteIds(cs: seq<Chunk>)
  {
    forall k | 0 <= k < |cs| :: IsByteString(cs[k].id)
  }

  /** `k` copies of `v`, none when `k` is not positive: what a loop
      `for (int i = 0; i < k; ++i) v.push_back(x)` appends. */
  function Repeat(v: uint64, k: int): (r: seq<uint64>)
    ensures |r| == if k > 0 then k else 0
    ensures forall j | 0 <= j < |r| :: r[j] == v
  {
    seq(if k > 0 then k else 0, _ => v)
  }

  // ---------------------------------------------------------------------
  // reserve

  /** The chunks `reserve` records: the `k`-th placed span under the `k`-th
      id received. */
  function Zip(ids: seq<string>, r: seq<Span>): (cs: seq<Chunk>)
    requires |ids| == |r|
    ensures |cs| == |r| && forall k | 0 <= k < |r| :: cs[k] == Chunk(ids[k], r[k])
  {
    seq(|r|, k requires 0 <= k < |r| => Chunk(ids[k], r[k]))
  }

  lemma ZipSnoc(ids: seq<string>, r: seq<Span>, k: nat)
    requires |ids| == |r| && k < |r|
    ensures Zip(ids[..k + 1], r[..k + 1]) == Zip(ids[..k], r[..k]) + [Chunk(ids[k], r[k])]
  {
    var lhs := Zip(ids[..k + 1], r[..k + 1]);
    var rhs := Zip(ids[..k], r[..k]) + [Chunk(ids[k], r[k])];
    assert |lhs| == |rhs|;
    forall j | 0 <= j < |lhs|
      ensures lhs[j] == rhs[j]
    {
      if j < k {
        assert rhs[j] == Zip(ids[..k], r[..k])[j];
      }
    }
  }

  /** The table `addId` builds from the chunks in turn: a later chunk under
      the same id replaces an earlier one. */
  function IdsMap(cs: seq<Chunk>): map<string, Bounds>
    decreases |cs|
  {
    if cs == [] then map[]
    else
      var c := cs[|cs| - 1];
      IdsMap(cs[..|cs| - 1])[c.id := Bounds(c.span.lower, c.span.upper)]
  }

  /** The values of `elt` that chunk `c` holds, starting at `lower`. */
  predicate InArray(c: Span, n: nat)
  {
    c.lower + SpanCount(c) <= n
  }

  /** The ALLOCATION messages: each chunk's worker gets the bytes of the
      initial values of its chunk. */
  function AllocationSends(d: DataType, elt: seq<int>, r: seq<Span>): (m: seq<Send>)
    requires IsInteger(d) && AllInRange(d, elt)
    requires forall k | 0 <= k < |r| :: InArray(r[k], |elt|)
    ensures |m| == |r|
    ensures forall k | 0 <= k < |r| :: m[k].dest == r[k].rank && m[k].tag == Allocation
  {
    seq(|r|, k requires 0 <= k < |r| && InArray(r[k], |elt|) =>
      Send(r[k].rank, Allocation, EncodeElems(d, elt[r[k].lower..r[k].lower + SpanCount(r[k])])))
  }

  /** The first loop sending ALLOCATION messages. */
  method SendAllocations(d: DataType, elt: seq<int>, nodes: seq<Span>) returns (sends: seq<Send>)
    requires IsInteger(d) && AllInRange(d, elt)
    requires forall k | 0 <= k < |nodes| :: InArray(nodes[k], |elt|)
    ensures sends == AllocationSends(d, elt, nodes)
  {
    sends := [];
    var k := 0;
    while k < |nodes|
      invariant 0 <= k <= |nodes|
      invariant sends == AllocationSends(d, elt, nodes[..k])
    {
      var c := nodes[k];
      AllInRangeSlice(d, elt, c.lower, c.lower + SpanCount(c));
      var bytes := EncodeElems(d, elt[c.lower..c.lower + SpanCount(c)]);
      sends := sends + [Send(c.rank, Allocation, bytes)];
      k := k + 1;
    }
    assert nodes[..k] == nodes;
  }

  /** Each ALLOCATION message carries whole elements, and they are the
      chunk's initial values. */
  lemma AllocationPayloads(d: DataType, elt: seq<int>, r: seq<Span>)
    requires IsInteger(d) && AllInRange(d, elt)
    requires forall k | 0 <= k < |r| :: InArray(r[k], |elt|)
    ensures forall k | 0 <= k < |r| ::
      var m := AllocationSends(d, elt, r)[k];
      m.dest == r[k].rank && m.tag == Allocation
      && |m.payload| == SpanCount(r[k]) * DataTypeToSize(d)
      && Elems(d, m.payload) == elt[r[k].lower..r[k].lower + SpanCount(r[k])]
  {
    forall k | 0 <= k < |r|
      ensures |AllocationSends(d, elt, r)[k].payload| == SpanCount(r[k]) * DataTypeToSize(d)
      ensures Elems(d, AllocationSends(d, elt, r)[k].payload) == elt[r[k].lower..r[k].lower + SpanCount(r[k])]
    {
      var xs := elt[r[k].lower..r[k].lower + SpanCount(r[k])];
      EncodeElemsLength(d, xs);
      ElemsEncodeElems(d, xs);
    }
  }

  /** Every chunk `reserve` places lies inside the array. */
  lemma PlanInArray(budgets: seq<uint64>, nbNodes: int, s: nat, n: uint64)
    requires s > 0 && nbNodes <= |budgets|
    ensures var r := Plan(budgets, nbNodes, s, 0, 0, n);
      forall k | 0 <= k < |r| :: InArray(r[k], n)
  {
    PlanFits(budgets, nbNodes, s, n);
  }

  // ---------------------------------------------------------------------
  // Recording chunks in an Element

  lemma IdsMapSnoc(cs: seq<Chunk>, c: Chunk)
    ensures IdsMap(cs + [c]) == IdsMap(cs)[c.id := Bounds(c.span.lower, c.span.upper)]
  {
    assert (cs + [c])[..|cs|] == cs;
  }

  predicate DistinctIds(cs: seq<Chunk>)
  {
    forall j, k | 0 <= j < k < |cs| :: cs[j].id != cs[k].id
  }

  /** When the ids are distinct, the table holds every chunk's bounds under
      its id, and nothing else. */
  lemma {:induction false} IdsMapLookup(cs: seq<Chunk>)
    requires DistinctIds(cs)
    ensures forall k | 0 <= k < |cs| ::
      cs[k].id in IdsMap(cs) && IdsMap(cs)[cs[k].id] == Bounds(cs[k].span.lower, cs[k].span.upper)
    ensures forall id | id in IdsMap(cs) :: id in Ids(cs)
    decreases |cs|
  {
    if cs != [] {
      var p := cs[..|cs| - 1];
      assert forall k | 0 <= k < |p| :: p[k] == cs[k];
      IdsMapLookup(p);
      assert Ids(cs) == Ids(p) + [cs[|cs| - 1].id];
    }
  }

  /** `reserve` takes exactly the bytes of its chunk from each worker that
      got one, and nothing from the others. */
  lemma ReserveDebits(budgets: seq<uint64>, nbNodes: int, s: nat, n: uint64, r: seq<Span>)
    requires s > 0 && nbNodes <= |budgets| && r == Plan(budgets, nbNodes, s, 0, 0, n)
    ensures RanksWithin(r, |budgets|)
    ensures forall k | 0 <= k < |r| ::
      DebitAll(budgets, r, s)[r[k].rank - 1] == budgets[r[k].rank - 1] - s * SpanCount(r[k])
    ensures forall j | 0 <= j < |budgets| && (forall k | 0 <= k < |r| :: r[k].rank != j + 1) ::
      DebitAll(budgets, r, s)[j] == budgets[j]
  {
    PlanFits(budgets, nbNodes, s, n);
    DebitsExact(budgets, r, s);
  }

  /** The ids the workers hand out, one per rank, are distinct across the
      chunks of a placement, so the Element `reserve` returns records every
      chunk. */
  lemma ReserveRecordsEveryChunk(budgets: seq<uint64>, nbNodes: int, s: nat, n: uint64)
    requires s > 0 && nbNodes <= |budgets|
    ensures var r := Plan(budgets, nbNodes, s, 0, 0, n);
      var cs := Zip(seq(|r|, k requires 0 <= k < |r| => ChunkId(r[k].rank)), r);
      forall k | 0 <= k < |r| ::
        ChunkId(r[k].rank) in IdsMap(cs) && IdsMap(cs)[ChunkId(r[k].rank)] == Bounds(r[k].lower, r[k].upper)
  {
    var r := Plan(budgets, nbNodes, s, 0, 0, n);
    var cs := Zip(seq(|r|, k requires 0 <= k < |r| => ChunkId(r[k].rank)), r);
    PlanRanks(budgets, nbNodes, s, 0, 0, n);
    forall j, k | 0 <= j < k < |cs|
      ensures cs[j].id != cs[k].id
    {
      if cs[j].id == cs[k].id {
        ChunkIdInjective(r[j].rank, r[k].rank);
      }
    }
    IdsMapLookup(cs);
  }

  // ---------------------------------------------------------------------
  // read

  /** `memcpy(result + lower, xs, ...)` on the values of an array. */
  function Paste(a: seq<int>, lower: nat, xs: seq<int>): (r: seq<int>)
    requires lower + |xs| <= |a|
    ensures |r| == |a|
  {
    a[..lower] + xs + a[lower + |xs|..]
  }

  /** Pasting leaves the values outside the pasted range as they were. */
  lemma PasteKeeps(a: seq<int>, lower: nat, xs: seq<int>)
    requires lower + |xs| <= |a|
    ensures forall p | 0 <= p < |a| && (p < lower || lower + |xs| <= p) :: Paste(a, lower, xs)[p] == a[p]
  {
  }

  /** What `read` demands: every chunk lies in the array, and every worker
      answers with at least the chunk's values. */
  predicate ReadFits(cs: seq<Chunk>, replies: seq<seq<int>>, n: nat)
  {
    |replies| >= |cs|
    && forall k | 0 <= k < |cs| :: cs[k].span.lower + Count(cs[k]) <= n && Count(cs[k]) <= |replies[k]|
  }

  /** Position `p` lies outside each of the first `m` chunks. */
  predicate Untouched(cs: seq<Chunk>, m: nat, p: nat)
    requires m <= |cs|
  {
    forall k | 0 <= k < m :: p < cs[k].span.lower || cs[k].span.lower + Count(cs[k]) <= p
  }

  /** The array `read` returns: `base` with each chunk's reply copied over
      it at the chunk's lower bound, chunk by chunk. */
  function Assemble(base: seq<int>, cs: seq<Chunk>, replies: seq<seq<int>>, m: nat): (r: seq<int>)
    requires ReadFits(cs, replies, |base|) && m <= |cs|
    ensures |r| == |base|
  {
    if m == 0 then base
    else Paste(Assemble(base, cs, replies, m - 1), cs[m - 1].span.lower, replies[m - 1][..Count(cs[m - 1])])
  }

  /** A value of the array outside every chunk copied so far keeps its
      initial value. */
  lemma {:induction false} AssembleKeeps(base: seq<int>, cs: seq<Chunk>, replies: seq<seq<int>>, m: nat, p: nat)
    requires ReadFits(cs, replies, |base|) && m <= |cs|
    requires p < |base| && Untouched(cs, m, p)
    ensures Assemble(base, cs, replies, m)[p] == base[p]
  {
    if m > 0 {
      var prev := Assemble(base, cs, replies, m - 1);
      AssembleKeeps(base, cs, replies, m - 1, p);
      PasteKeeps(prev, cs[m - 1].span.lower, replies[m - 1][..Count(cs[m - 1])]);
    }
  }

  /** The READ requests: each chunk's id, sent to its worker. */
  function ReadRequests(cs: seq<Chunk>): (m: seq<Send>)
    requires ByteIds(cs)
    ensures |m| == |cs| && forall k | 0 <= k < |cs| :: m[k] == Send(cs[k].span.rank, Read, StringBytes(cs[k].id))
  {
    seq(|cs|, k requires 0 <= k < |cs| => Send(cs[k].span.rank, Read, StringBytes(cs[k].id)))
  }

  /** Chunks that cover `[0, n)` one after the other. */
  predicate Tiles(cs: seq<Chunk>, n: nat)
  {
    |cs| >= 1 && cs[0].span.lower == 0
    && (forall k | 0 <= k < |cs| - 1 :: cs[k + 1].span.lower == cs[k].span.lower + Count(cs[k]))
    && cs[|cs| - 1].span.lower + Count(cs[|cs| - 1]) == n
  }

  lemma {:induction false} TilesEnd(cs: seq<Chunk>, n: nat, k: nat)
    requires Tiles(cs, n) && k < |cs|
    ensures cs[k].span.lower + Count(cs[k]) <= n
    decreases |cs| - k
  {
    if k < |cs| - 1 {
      TilesEnd(cs, n, k + 1);
    }
  }

  /** The values of `data` each chunk holds. */
  function Slices(cs: seq<Chunk>, data: seq<int>): (r: seq<seq<int>>)
    requires forall k | 0 <= k < |cs| :: cs[k].span.lower + Count(cs[k]) <= |data|
    ensures |r| == |cs|
    ensures forall k | 0 <= k < |cs| :: |r[k]| == Count(cs[k])
  {
    seq(|cs|, k requires 0 <= k < |cs| && cs[k].span.lower + Count(cs[k]) <= |data| =>
      data[cs[k].span.lower..cs[k].span.lower + Count(cs[k])])
  }

  /** Chunk `k` starts just after chunk `k - 1` ends. */
  predicate Follows(cs: seq<Chunk>, k: nat)
    requires 1 <= k < |cs|
  {
    cs[k].span.lower == cs[k - 1].span.lower + Count(cs[k - 1])
  }

  lemma {:induction false} AssemblePrefix(base: seq<int>, cs: seq<Chunk>, data: seq<int>, rs: seq<seq<int>>, m: nat)
    requires |base| == |data| && 1 <= m <= |cs| && cs[0].span.lower == 0
    requires forall k | 1 <= k < m :: Follows(cs, k)
    requires forall k | 0 <= k < |cs| :: cs[k].span.lower + Count(cs[k]) <= |data|
    requires rs == Slices(cs, data) && ReadFits(cs, rs, |base|)
    ensures var e := cs[m - 1].span.lower + Count(cs[m - 1]);
      Assemble(base, cs, rs, m) == data[..e] + base[e..]
    decreases m
  {
    var lo := cs[m - 1].span.lower;
    var e := lo + Count(cs[m - 1]);
    var prev := Assemble(base, cs, rs, m - 1);
    assert rs[m - 1] == data[lo..e];
    assert rs[m - 1][..Count(cs[m - 1])] == data[lo..e];
    assert Assemble(base, cs, rs, m) == Paste(prev, lo, data[lo..e]);
    if m == 1 {
      assert prev == data[..lo] + base[lo..];
    } else {
      AssemblePrefix(base, cs, data, rs, m - 1);
      assert Follows(cs, m - 1);
    }
    PasteAfterPrefix(prev, data, base, lo, e);
  }

  /** Pasting the next slice of `data` over an array whose prefix already
      holds `data` extends that prefix. */
  lemma PasteAfterPrefix(prev: seq<int>, data: seq<int>, base: seq<int>, lo: nat, e: nat)
    requires |base| == |data| && lo <= e <= |data| && prev == data[..lo] + base[lo..]
    ensures Paste(prev, lo, data[lo..e]) == data[..e] + base[e..]
  {
    assert prev[..lo] == data[..lo];
    assert prev[e..] == base[e..];
    assert data[..e] == data[..lo] + data[lo..e];
  }

  /** Reading back chunks that tile the array, each worker answering with
      its chunk's values, gives the array: nothing of the initial contents
      of the result survives. */
  lemma ReadReassembles(base: seq<int>, cs: seq<Chunk>, data: seq<int>)
    requires |base| == |data| && Tiles(cs, |data|)
    ensures forall k | 0 <= k < |cs| :: cs[k].span.lower + Count(cs[k]) <= |data|
    ensures ReadFits(cs, Slices(cs, data), |base|)
    ensures Assemble(base, cs, Slices(cs, data), |cs|) == data
  {
    forall k | 0 <= k < |cs|
      ensures cs[k].span.lower + Count(cs[k]) <= |data|
    {
      TilesEnd(cs, |data|, k);
    }
    var rs := Slices(cs, data);
    assert ReadFits(cs, rs, |base|);
    forall k | 1 <= k < |cs|
      ensures Follows(cs, k)
    {
      assert cs[(k - 1) + 1] == cs[k];
    }
    AssemblePrefix(base, cs, data, rs, |cs|);
  }

  /** The chunks of a placement that holds the whole array tile it. */
  lemma PlanTiles(budgets: seq<uint64>, nbNodes: int, s: nat, n: uint64, ids: seq<string>)
    requires s > 0 && nbNodes <= |budgets|
    requires 1 <= n <= Capacity(budgets, nbNodes, s, 0)
    requires |ids| == |Plan(budgets, nbNodes, s, 0, 0, n)|
    ensures Tiles(Zip(ids, Plan(budgets, nbNodes, s, 0, 0, n)), n)
  {
    var r := Plan(budgets, nbNodes, s, 0, 0, n);
    var cs := Zip(ids, r);
    PlanEmpty(budgets, nbNodes, s, 0, 0, n);
    PlanContiguous(budgets, nbNodes, s, 0, 0, n);
    PlanCounts(budgets, nbNodes, s, 0, 0, n);
    PlanCoverage(budgets, nbNodes, s, 0, 0, n);
    PlanLast(budgets, nbNodes, s, 0, 0, n);
  }

  /** The values each ALLOCATION message carries are the chunk's slice of
      the array. */
  lemma PayloadsAreSlices(d: DataType, elt: seq<int>, r: seq<Span>, ids: seq<string>)
    requires IsInteger(d) && AllInRange(d, elt) && |ids| == |r|
    requires forall k | 0 <= k < |r| :: InArray(r[k], |elt|)
    ensures forall k | 0 <= k < |r| :: Zip(ids, r)[k].span.lower + Count(Zip(ids, r)[k]) <= |elt|
    ensures forall k | 0 <= k < |r| :: Elems(d, AllocationSends(d, elt, r)[k].payload) == Slices(Zip(ids, r), elt)[k]
  {
    var cs := Zip(ids, r);
    AllocationPayloads(d, elt, r);
    forall k | 0 <= k < |r|
      ensures Elems(d, AllocationSends(d, elt, r)[k].payload) == Slices(cs, elt)[k]
    {
      assert cs[k].span == r[k];
    }
  }

  /** Reserving an array on workers that can hold it all, then reading it
      back while every worker answers with the values it was sent, gives
      the initial values back. */
  lemma ReserveThenRead(d: DataType, budgets: seq<uint64>, nbNodes: int, elt: seq<int>, ids: seq<string>)
    requires IsInteger(d) && AllInRange(d, elt) && nbNodes <= |budgets|
    requires 1 <= |elt| <= Capacity(budgets, nbNodes, DataTypeToSize(d), 0) && |elt| < SIZE_T_MODULUS
    requires |ids| == |Plan(budgets, nbNodes, DataTypeToSize(d), 0, 0, |elt|)|
    ensures var r := Plan(budgets, nbNodes, DataTypeToSize(d), 0, 0, |elt|);
      var cs := Zip(ids, r);
      (forall k | 0 <= k < |r| :: InArray(r[k], |elt|))
      && (forall k | 0 <= k < |cs| :: cs[k].span.lower + Count(cs[k]) <= |elt|)
      && (forall k | 0 <= k < |r| :: Elems(d, AllocationSends(d, elt, r)[k].payload) == Slices(cs, elt)[k])
      && ReadFits(cs, Slices(cs, elt), |elt|)
      && Assemble(seq(|elt|, _ => 0), cs, Slices(cs, elt), |r|) == elt
  {
    var s := DataTypeToSize(d);
    var r := Plan(budgets, nbNodes, s, 0, 0, |elt|);
    var cs := Zip(ids, r);
    PlanInArray(budgets, nbNodes, s, |elt|);
    PayloadsAreSlices(d, elt, r, ids);
    PlanTiles(budgets, nbNodes, s, |elt|, ids);
    ReadReassembles(seq(|elt|, _ => 0), cs, elt);
  }

  // ---------------------------------------------------------------------
  // write

  /** `nb_elts`, where 0 stands for the whole array. */
  function Target(nbElts: uint64, nbValues: uint64): uint64
  {
    if nbElts == 0 then nbValues else nbElts
  }

  /** The number of elements the fragment loop of `write` copies into each
      chunk's fragment, from the first chunk on, while `n` elements remain
      to be written. The loop runs while `n > 0`. When the rest fits in a
      chunk it copies the rest, sets `n` to 0, and then still subtracts the
      chunk's size in `size_t`, which wraps `n` around to `2^64 - sub`: the
      loop goes on to the next chunks. */
  function FragmentCounts(cs: seq<Chunk>, n: uint64): (r: seq<nat>)
    ensures |r| <= |cs|
  {
    if cs == [] || n == 0 then []
    else
      var sub := Count(cs[0]);
      if n <= sub then [n] + FragmentCounts(cs[1..], SizeSub(0, sub))
      else [sub] + FragmentCounts(cs[1..], n - sub)
  }

  /** The loop never copies more values into a fragment than its chunk
      holds. */
  lemma {:induction false} FragmentCountsWithin(cs: seq<Chunk>, n: uint64)
    ensures forall k | 0 <= k < |FragmentCounts(cs, n)| :: FragmentCounts(cs, n)[k] <= Count(cs[k])
    decreases |cs|
  {
    if cs != [] && n != 0 {
      var sub := Count(cs[0]);
      var next := if n <= sub then SizeSub(0, sub) else n - sub;
      var rest := FragmentCounts(cs[1..], next);
      FragmentCountsWithin(cs[1..], next);
      forall k | 1 <= k < |FragmentCounts(cs, n)|
        ensures FragmentCounts(cs, n)[k] <= Count(cs[k])
      {
        assert FragmentCounts(cs, n)[k] == rest[k - 1] && cs[k] == cs[1..][k - 1];
      }
    }
  }

  /** Chunk ids fit the id field of a fragment. */
  predicate IdsFit(cs: seq<Chunk>)
  {
    forall k | 0 <= k < |cs| :: IsByteString(cs[k].id) && |cs[k].id| <= ID_LEN
  }

  /** The first `|counts|` chunks can read `counts[k]` values of `data` from
      their lower bound on. */
  predicate DataFits(cs: seq<Chunk>, counts: seq<nat>, n: nat)
  {
    |counts| <= |cs| && forall k | 0 <= k < |counts| :: cs[k].span.lower + counts[k] <= n
  }

  /** The fragment `write` builds for chunk `c` when it copies `cnt` values:
      `cnt` values of `data` from the chunk's lower bound on, the chunk id
      and the clock. */
  function FragmentOf(d: DataType, data: seq<int>, c: Chunk, cnt: nat, clock: uint64): (f: seq<byte>)
    requires IsInteger(d) && AllInRange(d, data)
    requires IsByteString(c.id) && |c.id| <= ID_LEN && c.span.lower + cnt <= |data|
    ensures |f| > 0
  {
    AllInRangeSlice(d, data, c.span.lower, c.span.lower + cnt);
    Fragment(EncodeElems(d, data[c.span.lower..c.span.lower + cnt]), c.id, clock)
  }

  /** The fragments of the chunks the loop reaches, in chunk order. */
  function Fragments(d: DataType, data: seq<int>, cs: seq<Chunk>, counts: seq<nat>, clock: uint64): (f: seq<seq<byte>>)
    requires IsInteger(d) && AllInRange(d, data) && IdsFit(cs) && DataFits(cs, counts, |data|)
    ensures |f| == |counts|
    ensures forall k | 0 <= k < |counts| :: f[k] == FragmentOf(d, data, cs[k], counts[k], clock)
  {
    seq(|counts|, k requires 0 <= k < |counts| => FragmentOf(d, data, cs[k], counts[k], clock))
  }

  /** The WRITE messages: fragment `k` to the worker of chunk `k`. */
  function WriteSends(cs: seq<Chunk>, f: seq<seq<byte>>): (m: seq<Send>)
    requires |f| <= |cs|
    ensures |m| == |f| && forall k | 0 <= k < |f| :: m[k] == Send(cs[k].span.rank, Write, f[k])
  {
    seq(|f|, k requires 0 <= k < |f| => Send(cs[k].span.rank, Write, f[k]))
  }

  /** When the chunks tile the array and every chunk holds at least one
      element, writing the whole array copies every chunk in full. */
  lemma {:induction false} FragmentCountsFull(cs: seq<Chunk>, n: uint64)
    requires forall k | 0 <= k < |cs| :: Count(cs[k]) >= 1
    requires n == Covered(seq(|cs|, k requires 0 <= k < |cs| => cs[k].span))
    ensures FragmentCounts(cs, n) == seq(|cs|, k requires 0 <= k < |cs| => Count(cs[k]))
    decreases |cs|
  {
    var spans := seq(|cs|, k requires 0 <= k < |cs| => cs[k].span);
    if cs != [] {
      var rest := cs[1..];
      var restSpans := seq(|rest|, k requires 0 <= k < |rest| => rest[k].span);
      assert spans == [spans[0]] + restSpans;
      CoveredCons(spans[0], restSpans);
      if rest == [] {
        assert n == Count(cs[0]);
      } else {
        assert Covered(restSpans) >= 1 by {
          CoveredCons(restSpans[0], restSpans[1..]);
          assert [restSpans[0]] + restSpans[1..] == restSpans;
        }
        FragmentCountsFull(rest, n - Count(cs[0]));
      }
    }
  }

  /** `nb_elts` never reaches 0 inside the loop: once some elements remain,
      every chunk gets a fragment, however few elements were asked for. */
  lemma {:induction false} FragmentCountsEveryChunk(cs: seq<Chunk>, n: uint64)
    requires n >= 1
    ensures |FragmentCounts(cs, n)| == |cs|
    decreases |cs|
  {
    if cs != [] {
      var sub := Count(cs[0]);
      if n <= sub {
        FragmentCountsEveryChunk(cs[1..], SizeSub(0, sub));
      } else {
        FragmentCountsEveryChunk(cs[1..], n - sub);
      }
    }
  }

  /** The underflow on a concrete array: two chunks of three elements and a
      request to write two. The second chunk still gets a fragment of three
      values, read from `data[3..6]`, past the two values asked for. */
  lemma WriteTwoOfSix()
    ensures FragmentCounts([Chunk("1_0", Span(1, 0, 2)), Chunk("2_0", Span(2, 3, 5))], 2) == [2, 3]
  {
    var cs := [Chunk("1_0", Span(1, 0, 2)), Chunk("2_0", Span(2, 3, 5))];
    assert Count(cs[0]) == 3 && Count(cs[1]) == 3;
    assert cs[1..][1..] == [];
  }

  /** In that case a `data` array of the 2 values asked for is too short:
      the second fragment reads 3 values from index 3 on. */
  lemma WriteTwoOfSixOverreads()
    ensures !DataFits([Chunk("1_0", Span(1, 0, 2)), Chunk("2_0", Span(2, 3, 5))],
      FragmentCounts([Chunk("1_0", Span(1, 0, 2)), Chunk("2_0", Span(2, 3, 5))], 2), 2)
  {
    WriteTwoOfSix();
  }

  /** The fragment counts the loop was meant to produce: as `FragmentCounts`,
      but stopping after the chunk the remaining values fit in, as setting
      `nb_elts` to 0 is meant to do. */
  function IntendedCounts(cs: seq<Chunk>, n: uint64): (r: seq<nat>)
    ensures |r| <= |cs|
  {
    if cs == [] || n == 0 then []
    else
      var sub := Count(cs[0]);
      if n <= sub then [n]
      else [sub] + IntendedCounts(cs[1..], n - sub)
  }

  /** The number of values a list of counts copies. */
  function CountsSum(counts: seq<nat>): nat
  {
    if counts == [] then 0 else counts[0] + CountsSum(counts[1..])
  }

  /** The number of values the chunks hold. */
  function Held(cs: seq<Chunk>): nat
  {
    if cs == [] then 0 else Count(cs[0]) + Held(cs[1..])
  }

  /** The intended loop copies exactly the values asked for, or all the
      chunks hold when they hold fewer. */
  lemma {:induction false} IntendedCountsSum(cs: seq<Chunk>, n: uint64)
    ensures CountsSum(IntendedCounts(cs, n)) == Min(n, Held(cs))
    decreases |cs|
  {
    if cs != [] && n != 0 {
      var sub := Count(cs[0]);
      if n > sub {
        IntendedCountsSum(cs[1..], n - sub);
        assert IntendedCounts(cs, n)[1..] == IntendedCounts(cs[1..], n - sub);
      }
    }
  }

  /** The loop as written agrees with the intended one on every chunk the
      intended one fills: the intended counts are a prefix of the counts as
      written. */
  lemma {:induction false} IntendedCountsPrefix(cs: seq<Chunk>, n: uint64)
    ensures IntendedCounts(cs, n) <= FragmentCounts(cs, n)
    decreases |cs|
  {
    if cs != [] && n != 0 {
      var sub := Count(cs[0]);
      if n > sub {
        IntendedCountsPrefix(cs[1..], n - sub);
      }
    }
  }

  /** Once the intended loop stops with chunks left over, the loop as written
      goes on: it copies into at least one more chunk. */
  lemma {:induction false} IntendedCountsStopEarly(cs: seq<Chunk>, n: uint64)
    requires n >= 1 && |IntendedCounts(cs, n)| < |cs|
    ensures |IntendedCounts(cs, n)| < |FragmentCounts(cs, n)|
    decreases |cs|
  {
    var sub := Count(cs[0]);
    if n <= sub {
      assert SizeSub(0, sub) >= 1;
      assert FragmentCounts(cs, n) == [n] + FragmentCounts(cs[1..], SizeSub(0, sub));
      assert FragmentCounts(cs[1..], SizeSub(0, sub)) != [];
    } else {
      IntendedCountsStopEarly(cs[1..], n - sub);
    }
  }

  /** Writing 2 values over two chunks of 3: the intended loop fills only
      the first fragment, with 2 values. */
  lemma IntendedTwoOfSix()
    ensures IntendedCounts([Chunk("1_0", Span(1, 0, 2)), Chunk("2_0", Span(2, 3, 5))], 2) == [2]
  {
    var cs := [Chunk("1_0", Span(1, 0, 2)), Chunk("2_0", Span(2, 3, 5))];
    assert Count(cs[0]) == 3;
  }

  // ---------------------------------------------------------------------
  // map and reduce

  /** The MAP requests: `"<id>-<callback id>-<type tag>"` to each chunk's worker. */
  function MapRequests(d: DataType, cs: seq<Chunk>, callbackId: nat): (m: seq<Send>)
    requires ByteIds(cs)
    ensures |m| == |cs|
    ensures forall k | 0 <= k < |cs| :: m[k].dest == cs[k].span.rank && m[k].tag == Map
  {
    seq(|cs|, k requires 0 <= k < |cs| =>
      Send(cs[k].span.rank, Map, StringBytes(Descriptor(cs[k].id, callbackId, d))))
  }

  /** A chain of byte-string ids is a byte string; without NUL in the ids
      it holds no NUL either. */
  lemma {:induction false} JoinBytes(ids: seq<string>)
    requires forall k | 0 <= k < |ids| :: IsByteString(ids[k])
    ensures IsByteString(Join(ids, '-'))
    ensures (forall k | 0 <= k < |ids| :: IsCString(ids[k])) ==> IsCString(Join(ids, '-'))
  {
    if |ids| > 1 {
      JoinBytes(ids[1..]);
    }
  }

  // ---------------------------------------------------------------------

  class Allocator {
    var nbNodes: int
    var maxMemory: uint64
    /** `memory_per_node_[i]`: the bytes the worker of rank `i + 1` can still take. */
    var memoryPerNode: seq<uint64>
    /** The `static size_t CLOCK` of each `write<T>`, one per element type. */
    var clocks: map<DataType, uint64>

    /** Every worker the placement loop visits has a budget. */
    predicate Valid()
      reads this
    {
      nbNodes <= |memoryPerNode|
    }

    function Clock(d: DataType): uint64
      reads this
    {
      if d in clocks then clocks[d] else 0
    }

    /** The private constructor `instance()` uses: no node, no memory. */
    constructor Init()
      ensures nbNodes == 0 && maxMemory == 0 && memoryPerNode == [] && clocks == map[]
      ensures Valid()
    {
      nbNodes := 0;
      maxMemory := 0;
      memoryPerNode := [];
      clocks := map[];
    }

    /** `Allocator(nb_nodes, max_memory)`: rank 0 is the coordinator, so
        there are `nb_nodes - 1` workers, each with `max_memory` bytes.
        `max_memory_` is left uninitialised. */
    constructor (nbNodesTotal: int, maxMemoryPerNode: uint64)
      ensures nbNodes == nbNodesTotal - 1
      ensures memoryPerNode == Repeat(maxMemoryPerNode, nbNodesTotal - 1)
      ensures clocks == map[]
      ensures Valid()
    {
      nbNodes := nbNodesTotal - 1;
      clocks := map[];
      var budgets: seq<uint64> := [];
      var i := 0;
      while i < nbNodesTotal - 1
        invariant 0 <= i && (i <= nbNodesTotal - 1 || i == 0)
        invariant budgets == Repeat(maxMemoryPerNode, i)
        decreases nbNodesTotal - 1 - i
      {
        budgets := budgets + [maxMemoryPerNode];
        i := i + 1;
      }
      memoryPerNode := budgets;
    }

    /** `setMaxMemory(nb_bytes)`. */
    method SetMaxMemory(nbBytes: uint64)
      modifies this
      ensures maxMemory == nbBytes
      ensures nbNodes == old(nbNodes) && memoryPerNode == old(memoryPerNode) && clocks == old(clocks)
    {
      maxMemory := nbBytes;
    }

    /** `setNbNodes(nb_nodes)`: sets the node count and APPENDS `nb_nodes`
        budgets of `max_memory_` bytes to those already there. */
    method SetNbNodes(n: int)
      modifies this
      ensures nbNodes == n
      ensures memoryPerNode == old(memoryPerNode) + Repeat(maxMemory, n)
      ensures maxMemory == old(maxMemory) && clocks == old(clocks)
      ensures Valid()
    {
      nbNodes := n;
      var i := 0;
      while i < n
        invariant 0 <= i && (i <= n || i == 0)
        invariant memoryPerNode == old(memoryPerNode) + Repeat(maxMemory, i)
        invariant nbNodes == n && maxMemory == old(maxMemory) && clocks == old(clocks)
        decreases n - i
      {
        memoryPerNode := memoryPerNode + [maxMemory];
        i := i + 1;
      }
    }

    /** `getMemoryStatus()`. */
    function GetMemoryStatus(): seq<uint64>
      reads this
    {
      memoryPerNode
    }

    /** `getNbNodes()`. */
    function GetNbNodes(): int
      reads this
    {
      nbNodes
    }

    /** `reserve<T>(nb_elements, elt)`: places the array with the greedy
        loop, returns null when no chunk was placed, and otherwise sends each
        chunk's initial values to its worker, records the id each worker
        returns with the chunk's bounds, and debits each worker's budget by
        the bytes of its chunk. */
    method Reserve(d: DataType, nbElements: uint64, elt: seq<int>, replies: seq<string>)
      returns (result: Element?, chunks: seq<Chunk>, sends: seq<Send>)
      requires Valid() && IsInteger(d) && |elt| == nbElements && AllInRange(d, elt)
      requires |replies| == |Plan(memoryPerNode, nbNodes, DataTypeToSize(d), 0, 0, nbElements)|
      modifies this
      ensures Valid() && nbNodes == old(nbNodes) && maxMemory == old(maxMemory) && clocks == old(clocks)
      ensures var r := Plan(old(memoryPerNode), nbNodes, DataTypeToSize(d), 0, 0, nbElements);
        (result == null <==> r == [])
        && (forall k | 0 <= k < |r| :: InArray(r[k], |elt|))
        && sends == AllocationSends(d, elt, r)
        && chunks == Zip(replies, r)
        && (result != null ==> fresh(result) && result.nbValues == nbElements && result.vars == IdsMap(chunks))
        && RanksWithin(r, |old(memoryPerNode)|)
        && memoryPerNode == DebitAll(old(memoryPerNode), r, DataTypeToSize(d))
    {
      var s := DataTypeToSize(d);
      var nodes := PlaceChunks(memoryPerNode, nbNodes, s, nbElements);
      PlanFits(memoryPerNode, nbNodes, s, nbElements);
      chunks := [];
      sends := [];
      if |nodes| == 0 {
        assert DebitAll(memoryPerNode, nodes, s) == memoryPerNode;
        result := null;
        return;
      }
      result := new Element(nbElements);
      sends := SendAllocations(d, elt, nodes);
      var budgets;
      chunks, budgets := ReceiveIds(result, memoryPerNode, nodes, replies, s);
      memoryPerNode := budgets;
    }

    /** `read<T>(elt)`: asks each chunk's worker for the chunk and copies
        the answer into a new array of `getNbValues()` values at the chunk's
        lower bound. */
    method Read(elt: Element, chunks: seq<Chunk>, replies: seq<seq<int>>)
      returns (result: array<int>, requests: seq<Send>)
      requires ByteIds(chunks) && ReadFits(chunks, replies, elt.nbValues)
      ensures fresh(result) && result.Length == elt.nbValues
      ensures result[..] == Assemble(seq(elt.nbValues, _ => 0), chunks, replies, |chunks|)
      ensures requests == ReadRequests(chunks)
    {
      result := new int[elt.nbValues](_ => 0);
      assert result[..] == seq(elt.nbValues, _ => 0);
      requests := FetchChunks(result, chunks, replies);
    }

    /** `write<T>(elt, data, nb_elts)`: fails when more values are asked
        for than the array holds; otherwise builds one fragment per chunk
        the loop reaches, sends them, and succeeds when every worker that
        got one acknowledges it, bumping this type's clock. */
    method Write(d: DataType, elt: Element, chunks: seq<Chunk>, data: seq<int>, acks: seq<byte>, nbElts: uint64 := 0)
      returns (ok: bool, sends: seq<Send>)
      requires IsInteger(d) && AllInRange(d, data) && IdsFit(chunks) && |acks| == |chunks|
      requires nbElts <= elt.nbValues ==>
        DataFits(chunks, FragmentCounts(chunks, Target(nbElts, elt.nbValues)), |data|)
      modifies this
      ensures nbNodes == old(nbNodes) && maxMemory == old(maxMemory) && memoryPerNode == old(memoryPerNode)
      ensures nbElts > elt.nbValues ==> !ok && sends == [] && clocks == old(clocks)
      ensures nbElts <= elt.nbValues ==>
        var counts := FragmentCounts(chunks, Target(nbElts, elt.nbValues));
        sends == WriteSends(chunks, Fragments(d, data, chunks, counts, old(Clock(d))))
        && (ok <==> forall k | 0 <= k < |counts| :: acks[k] != FAIL)
        && clocks == if ok then old(clocks)[d := SizeInc(old(Clock(d)))] else old(clocks)
    {
      sends := [];
      if nbElts > elt.nbValues {
        return false, [];
      }
      var n: uint64 := if nbElts == 0 then elt.nbValues else nbElts;
      var clock := Clock(d);
      ghost var counts := FragmentCounts(chunks, n);
      var formatted := BuildFragments(d, chunks, data, n, clock);
      FragmentsPrefix(d, data, chunks, counts, clock, formatted);
      sends := SendFragments(chunks, formatted, |counts|);
      ok := AwaitAcks(formatted, acks, |counts|);
      if !ok {
        return;
      }
      clocks := clocks[d := SizeInc(clock)];
      ok := true;
    }

    /** `map<T>(elt, callback_id)`: asks every chunk's worker to apply
        callback `callback_id` to its chunk; the acknowledgements are
        awaited and ignored. Returns this allocator. */
    method Map(d: DataType, chunks: seq<Chunk>, callbackId: nat) returns (self: Allocator, sends: seq<Send>)
      requires ByteIds(chunks) && callbackId < UINT_MODULUS
      ensures self == this
      ensures sends == MapRequests(d, chunks, callbackId)
      ensures forall k | 0 <= k < |chunks| && '-' !in chunks[k].id ::
        ParseDescriptor(BytesString(sends[k].payload)) == Some(DescriptorParts(chunks[k].id, callbackId, TypeTag(d)))
    {
      sends := [];
      var i := 0;
      while i < |chunks|
        invariant 0 <= i <= |chunks|
        invariant sends == MapRequests(d, chunks[..i], callbackId)
      {
        var id := chunks[i].id + "-" + NatToString(callbackId);
        id := id + "-" + NatToString(TypeTag(d));
        sends := sends + [Send(chunks[i].span.rank, Tag.Map, StringBytes(id))];
        i := i + 1;
      }
      assert chunks[..i] == chunks;
      forall k | 0 <= k < |chunks| && '-' !in chunks[k].id
        ensures ParseDescriptor(BytesString(sends[k].payload)) == Some(DescriptorParts(chunks[k].id, callbackId, TypeTag(d)))
      {
        BytesStringOfStringBytes(Descriptor(chunks[k].id, callbackId, d));
        DescriptorRoundTrip(chunks[k].id, callbackId, d);
      }
      self := this;
    }

    /** `reduce<T>(elt, callback_id, init_val)`: null when the array has no
        chunk; otherwise sends the reduce message, carrying the chain of all
        chunk ids, to the first chunk's worker and returns what the last
        chunk's worker answers. */
    method Reduce(d: DataType, chunks: seq<Chunk>, callbackId: nat, reply: int, initVal: int := 0)
      returns (result: Option<int>, sends: seq<Send>, from: Option<nat>)
      requires IsInteger(d) && InRange(d, initVal) && callbackId < UINT_MODULUS && ByteIds(chunks)
      ensures IsByteString(Join(Ids(chunks), '-'))
      ensures chunks == [] ==> result == None && sends == [] && from == None
      ensures chunks != [] ==>
        result == Some(reply) && from == Some(chunks[|chunks| - 1].span.rank)
        && sends == [Send(chunks[0].span.rank, Tag.Reduce, ReduceMessage(d, initVal, callbackId, Join(Ids(chunks), '-')))]
      ensures chunks != [] && (forall k | 0 <= k < |chunks| :: IsCString(chunks[k].id) && '-' !in chunks[k].id) ==>
        var p := ParseReduceMessage(sends[0].payload);
        p.Some? && p.value.tag == TypeTag(d) && p.value.callbackId == callbackId
        && Split(p.value.chain, '-') == Ids(chunks)
        && DecodeElem(d, p.value.acc[..DataTypeToSize(d)]) == initVal
    {
      JoinBytes(Ids(chunks));
      if |chunks| == 0 {
        return None, [], None;
      }
      var dest := chunks[0].span.rank;
      var last := chunks[|chunks| - 1].span.rank;
      var chain := BuildChain(Ids(chunks));
      sends := [Send(dest, Tag.Reduce, ReduceMessage(d, initVal, callbackId, chain))];
      if forall k | 0 <= k < |chunks| :: IsCString(chunks[k].id) && '-' !in chunks[k].id {
        ReduceMessageRoundTrip(d, initVal, callbackId, chain);
        ChainRoundTrip(Ids(chunks));
      }
      result := Some(reply);
      from := Some(last);
    }
  }

  /** The static `instance_` pointer behind `Allocator::instance()`: empty
      until the first call creates the allocator. */
  class Instance {
    var slot: Allocator?

    constructor ()
      ensures slot == null
    {
      slot := null;
    }

    /** `instance()`: the first call creates an allocator with no node and
        no memory; every later call returns that same allocator. */
    method Get() returns (a: Allocator)
      modifies this
      ensures old(slot) != null ==> a == old(slot)
      ensures old(slot) == null ==>
        fresh(a) && a.nbNodes == 0 && a.maxMemory == 0 && a.memoryPerNode == [] && a.clocks == map[]
      ensures slot == a
    {
      if slot == null {
        slot := new Allocator.Init();
      }
      a := slot;
    }
  }

  /** One turn of the fragment loop: the count it copies and the `nb_elts`
      it leaves, as `FragmentCounts` unfolds. */
  lemma CountsStep(cs: seq<Chunk>, i: nat, n: uint64, sub: uint64, cnt: nat, next: uint64)
    requires i < |cs| && n > 0 && sub == Count(cs[i])
    requires cnt == if n <= sub then n else sub
    requires next == SizeSub(if n <= sub then 0 else n, sub)
    ensures FragmentCounts(cs[i..], n) == [cnt] + FragmentCounts(cs[i + 1..], next)
  {
    assert cs[i..][1..] == cs[i + 1..];
  }

  /** The fragment loop of `write`: fragment `k` for each chunk `k` the loop
      reaches, and an empty buffer (capacity 0) for every chunk after. */
  method BuildFragments(d: DataType, chunks: seq<Chunk>, data: seq<int>, nbElts: uint64, clock: uint64)
    returns (formatted: seq<seq<byte>>)
    requires IsInteger(d) && AllInRange(d, data) && IdsFit(chunks)
    requires DataFits(chunks, FragmentCounts(chunks, nbElts), |data|)
    ensures var counts := FragmentCounts(chunks, nbElts);
      |formatted| == |chunks|
      && (forall k | 0 <= k < |counts| :: formatted[k] == FragmentOf(d, data, chunks[k], counts[k], clock))
      && (forall k | |counts| <= k < |chunks| :: formatted[k] == [])
  {
    ghost var counts := FragmentCounts(chunks, nbElts);
    formatted := seq(|chunks|, _ => []);
    var n: uint64 := nbElts;
    var i := 0;
    assert chunks[0..] == chunks;
    while i < |chunks| && n > 0
      invariant 0 <= i <= |chunks| && |formatted| == |chunks|
      invariant i <= |counts| && counts[i..] == FragmentCounts(chunks[i..], n)
      invariant forall k | 0 <= k < i :: formatted[k] == FragmentOf(d, data, chunks[k], counts[k], clock)
      invariant forall k | i <= k < |chunks| :: formatted[k] == []
    {
      ghost var sub := Count(chunks[i]);
      ghost var cnt := if n <= sub then n else sub;
      ghost var next := SizeSub(if n <= sub then 0 else n, sub);
      CountsStep(chunks, i, n, sub, cnt, next);
      DropCons(counts, i, cnt, FragmentCounts(chunks[i + 1..], next));
      var f;
      f, n := FormatChunk(d, data, chunks[i], n, clock);
      formatted := formatted[i := f];
      i := i + 1;
    }
    assert FragmentCounts(chunks[i..], n) == [];
  }

  /** One turn of the fragment loop of `write`: copies the whole chunk, or
      only the `n` values left when they fit in it, and subtracts the
      chunk's size from `n` in `size_t`. */
  method FormatChunk(d: DataType, data: seq<int>, c: Chunk, n: uint64, clock: uint64) returns (f: seq<byte>, next: uint64)
    requires IsInteger(d) && AllInRange(d, data) && IsByteString(c.id) && |c.id| <= ID_LEN
    requires c.span.lower + (if n <= Count(c) then n else Count(c)) <= |data|
    ensures f == FragmentOf(d, data, c, if n <= Count(c) then n else Count(c), clock)
    ensures next == SizeSub(if n <= Count(c) then 0 else n, Count(c))
  {
    var sub := Count(c);
    var cnt := sub;
    var left := n;
    if n <= sub {
      cnt := n;
      left := 0;
    }
    f := FragmentOf(d, data, c, cnt, clock);
    next := SizeSub(left, sub);
  }

  /** The fragments `BuildFragments` returns are those of `Fragments`,
      followed by empty buffers. */
  lemma FragmentsPrefix(d: DataType, data: seq<int>, chunks: seq<Chunk>, counts: seq<nat>, clock: uint64,
                        formatted: seq<seq<byte>>)
    requires IsInteger(d) && AllInRange(d, data) && IdsFit(chunks) && DataFits(chunks, counts, |data|)
    requires |formatted| == |chunks|
    requires forall k | 0 <= k < |counts| :: formatted[k] == FragmentOf(d, data, chunks[k], counts[k], clock)
    ensures formatted[..|counts|] == Fragments(d, data, chunks, counts, clock)
    ensures forall k | 0 <= k < |counts| :: |formatted[k]| > 0
  {
  }

  /** The send loop of `write`: one WRITE message per fragment, in chunk
      order, stopping at the first empty buffer. */
  method SendFragments(chunks: seq<Chunk>, formatted: seq<seq<byte>>, ghost m: nat) returns (sends: seq<Send>)
    requires |formatted| == |chunks| && m <= |chunks|
    requires forall k | 0 <= k < m :: |formatted[k]| > 0
    requires m < |chunks| ==> formatted[m] == []
    ensures sends == WriteSends(chunks, formatted[..m])
  {
    sends := [];
    var i := 0;
    while i < |chunks|
      invariant 0 <= i <= m && |sends| == i
      invariant forall k | 0 <= k < i :: sends[k] == Send(chunks[k].span.rank, Write, formatted[k])
    {
      if |formatted[i]| == 0 {
        break;
      }
      sends := sends + [Send(chunks[i].span.rank, Write, formatted[i])];
      i := i + 1;
    }
  }

  /** The acknowledgement loop of `write`: false at the first FAIL from a
      worker that was sent a fragment. */
  method AwaitAcks(formatted: seq<seq<byte>>, acks: seq<byte>, ghost m: nat) returns (ok: bool)
    requires |formatted| == |acks| && m <= |acks|
    requires forall k | 0 <= k < m :: |formatted[k]| > 0
    requires m < |acks| ==> formatted[m] == []
    ensures ok <==> forall k | 0 <= k < m :: acks[k] != FAIL
  {
    var i := 0;
    while i < |acks|
      invariant 0 <= i <= m
      invariant forall k | 0 <= k < i :: acks[k] != FAIL
    {
      if |formatted[i]| == 0 {
        break;
      }
      if acks[i] == FAIL {
        return false;
      }
      i := i + 1;
    }
    return true;
  }

  /** The loop of `read`: for each chunk in turn, sends its id to its
      worker and copies the worker's answer into `result` at the chunk's
      lower bound. */
  method FetchChunks(result: array<int>, chunks: seq<Chunk>, replies: seq<seq<int>>) returns (requests: seq<Send>)
    requires ByteIds(chunks) && ReadFits(chunks, replies, result.Length)
    modifies result
    ensures result[..] == Assemble(old(result[..]), chunks, replies, |chunks|)
    ensures requests == ReadRequests(chunks)
  {
    ghost var base := result[..];
    requests := [];
    var i := 0;
    while i < |chunks|
      invariant 0 <= i <= |chunks|
      invariant result[..] == Assemble(base, chunks, replies, i)
      invariant |requests| == i
      invariant forall k | 0 <= k < i :: requests[k] == Send(chunks[k].span.rank, Read, StringBytes(chunks[k].id))
    {
      var c := chunks[i];
      requests := requests + [Send(c.span.rank, Read, StringBytes(c.id))];
      var read := replies[i];
      var count := Count(c);
      Store(result, c.span.lower, read[..count]);
      i := i + 1;
    }
  }

  /** The receive loop of `reserve`: records the id each worker returns
      with its chunk's bounds, and debits the worker's budget by the bytes
      of its chunk (`memory_per_node_[node_id - 1] -= bytes`). */
  method ReceiveIds(result: Element, budgets: seq<uint64>, nodes: seq<Span>, replies: seq<string>, s: nat)
    returns (chunks: seq<Chunk>, after: seq<uint64>)
    requires |replies| == |nodes| && RanksWithin(nodes, |budgets|) && result.vars == map[]
    modifies result
    ensures chunks == Zip(replies, nodes)
    ensures result.vars == IdsMap(chunks) && result.nbValues == old(result.nbValues)
    ensures after == DebitAll(budgets, nodes, s)
  {
    chunks := [];
    after := budgets;
    var k := 0;
    while k < |nodes|
      invariant 0 <= k <= |nodes|
      invariant RanksWithin(nodes[..k], |budgets|)
      invariant after == DebitAll(budgets, nodes[..k], s)
      invariant chunks == Zip(replies[..k], nodes[..k])
      invariant result.vars == IdsMap(chunks) && result.nbValues == old(result.nbValues)
    {
      var c := nodes[k];
      var id := replies[k];
      result.AddId(id, Bounds(c.lower, c.upper));
      IdsMapSnoc(chunks, Chunk(id, c));
      ZipSnoc(replies, nodes, k);
      chunks := chunks + [Chunk(id, c)];
      DebitAllSnoc(budgets, nodes, k, s);
      after := Debit(after, c, s);
      k := k + 1;
    }
    assert nodes[..k] == nodes && replies[..k] == replies;
  }
}
