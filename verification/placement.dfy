/** How `Allocator::reserve` (`include/data/allocator.hxx`) places an array
    on the workers: it walks the workers in rank order and gives each, in
    turn, as many whole elements as its remaining budget holds, until the
    array is placed or the workers run out; then it debits each chosen
    worker's budget by the bytes placed on it. */
module Placement {
  import opened Bytes

  /** A placed chunk: the worker's rank (1-based, rank 0 being the
      coordinator) and the element indices it holds, both included. */
  datatype Span = Span(rank: nat, lower: nat, upper: nat)

  /** `upper - lower + 1`, computed in `size_t`. */
  function SpanCount(c: Span): nat
  {
    (c.upper - c.lower + 1) % SIZE_T_MODULUS
  }

  /** `start + free - 1` in `size_t`: the upper bound of the chunk that
      completes the placement. */
  function LastIndex(start: nat, free: nat): nat
  {
    (start + free + SIZE_T_MODULUS - 1) % SIZE_T_MODULUS
  }

  lemma LastIndexNoWrap(start: nat, free: nat)
    requires 1 <= free && start + free < SIZE_T_MODULUS
    ensures LastIndex(start, free) == start + free - 1
    ensures SpanCount(Span(0, start, start + free - 1)) == free
  {
  }

  /** The chunks the placement loop produces from worker index `i` on, with
      `free` elements still to place starting at element `start`. */
  function Plan(budgets: seq<uint64>, nbNodes: int, s: nat, i: nat, start: nat, free: nat): (r: seq<Span>)
    requires s > 0 && nbNodes <= |budgets|
    ensures r == [] || |r| + i <= nbNodes
    decreases nbNodes - i
  {
    if i >= nbNodes then []
    else
      var max := budgets[i] / s;
      if max < 1 then Plan(budgets, nbNodes, s, i + 1, start, free)
      else if max >= free then [Span(i + 1, start, LastIndex(start, free))]
      else [Span(i + 1, start, start + max - 1)] + Plan(budgets, nbNodes, s, i + 1, start + max, free - max)
  }

  /** The number of whole elements workers `i ..` can still hold. */
  function Capacity(budgets: seq<uint64>, nbNodes: int, s: nat, i: nat): nat
    requires s > 0 && nbNodes <= |budgets|
    decreases nbNodes - i
  {
    if i >= nbNodes then 0 else budgets[i] / s + Capacity(budgets, nbNodes, s, i + 1)
  }

  /** The number of elements a list of chunks holds. */
  function Covered(r: seq<Span>): nat
  {
    if r == [] then 0 else SpanCount(r[0]) + Covered(r[1..])
  }

  function Min(a: nat, b: nat): nat
  {
    if a <= b then a else b
  }

  /** The placement loop (`reserve`, first loop): `sizeof(T)` is `s`, and
      `budgets[i]` is the remaining budget of the worker of rank `i + 1`. */
  method PlaceChunks(budgets: seq<uint64>, nbNodes: int, s: nat, nbElements: uint64) returns (nodes: seq<Span>)
    requires s > 0 && nbNodes <= |budgets|
    ensures nodes == Plan(budgets, nbNodes, s, 0, 0, nbElements)
  {
    nodes := [];
    var i: nat := 0;
    var startIdx: nat := 0;
    var freeElt: nat := nbElements;
    while i < nbNodes
      invariant nodes + Plan(budgets, nbNodes, s, i, startIdx, freeElt) == Plan(budgets, nbNodes, s, 0, 0, nbElements)
      decreases nbNodes - i
    {
      var max := budgets[i] / s;
      if max < 1 {
        i := i + 1;
        continue;
      }
      if max >= freeElt {
        nodes := nodes + [Span(i + 1, startIdx, LastIndex(startIdx, freeElt))];
        break;
      }
      nodes := nodes + [Span(i + 1, startIdx, startIdx + max - 1)];
      freeElt := freeElt - max;
      startIdx := startIdx + max;
      i := i + 1;
    }
  }

  // ---------------------------------------------------------------------
  // What the placement guarantees

  /** The rule the loop follows at worker index `i` (the three branches of
      its body), stated once for the proofs below. */
  lemma PlanAt(budgets: seq<uint64>, nbNodes: int, s: nat, i: nat, start: nat, free: nat)
    requires s > 0 && nbNodes <= |budgets| && i < nbNodes
    ensures var max := budgets[i] / s;
      var r := Plan(budgets, nbNodes, s, i, start, free);
      (max < 1 ==> r == Plan(budgets, nbNodes, s, i + 1, start, free))
      && (1 <= max && free <= max ==>
            r == [Span(i + 1, start, LastIndex(start, free))])
      && (1 <= max < free ==>
            var rest := Plan(budgets, nbNodes, s, i + 1, start + max, free - max);
            r == [Span(i + 1, start, start + max - 1)] + rest && r[0] == Span(i + 1, start, start + max - 1) && r[1..] == rest)
  {
  }

  predicate Increasing(r: seq<Span>)
  {
    forall j, k | 0 <= j < k < |r| :: r[j].rank < r[k].rank
  }

  /** Every chunk goes to a worker of index `i ..< nbNodes` whose budget
      holds at least one element. */
  predicate Eligible(r: seq<Span>, budgets: seq<uint64>, nbNodes: int, s: nat, i: nat)
    requires s > 0 && nbNodes <= |budgets|
  {
    forall k | 0 <= k < |r| :: i < r[k].rank <= nbNodes && budgets[r[k].rank - 1] / s >= 1
  }

  /** Chunks go to workers `i + 1 ..` in strictly increasing rank order, and
      only to workers whose budget holds at least one element. */
  lemma PlanRanks(budgets: seq<uint64>, nbNodes: int, s: nat, i: nat, start: nat, free: nat)
    requires s > 0 && nbNodes <= |budgets|
    ensures Eligible(Plan(budgets, nbNodes, s, i, start, free), budgets, nbNodes, s, i)
    ensures Increasing(Plan(budgets, nbNodes, s, i, start, free))
  {
    PlanEligible(budgets, nbNodes, s, i, start, free);
    PlanIncreasing(budgets, nbNodes, s, i, start, free);
  }

  lemma {:induction false} PlanEligible(budgets: seq<uint64>, nbNodes: int, s: nat, i: nat, start: nat, free: nat)
    requires s > 0 && nbNodes <= |budgets|
    ensures Eligible(Plan(budgets, nbNodes, s, i, start, free), budgets, nbNodes, s, i)
    decreases nbNodes - i
  {
    if i < nbNodes {
      var max := budgets[i] / s;
      var r := Plan(budgets, nbNodes, s, i, start, free);
      if max < 1 {
        PlanEligible(budgets, nbNodes, s, i + 1, start, free);
      } else {
        assert r[0].rank == i + 1;
        if max < free {
          var rest := Plan(budgets, nbNodes, s, i + 1, start + max, free - max);
          assert r == [r[0]] + rest;
          PlanEligible(budgets, nbNodes, s, i + 1, start + max, free - max);
          forall k | 1 <= k < |r|
            ensures i < r[k].rank <= nbNodes && budgets[r[k].rank - 1] / s >= 1
          {
            assert r[k] == rest[k - 1];
          }
        }
      }
    }
  }

  lemma {:induction false} PlanIncreasing(budgets: seq<uint64>, nbNodes: int, s: nat, i: nat, start: nat, free: nat)
    requires s > 0 && nbNodes <= |budgets|
    ensures Increasing(Plan(budgets, nbNodes, s, i, start, free))
    decreases nbNodes - i
  {
    if i < nbNodes {
      var max := budgets[i] / s;
      PlanAt(budgets, nbNodes, s, i, start, free);
      if max < 1 {
        PlanIncreasing(budgets, nbNodes, s, i + 1, start, free);
      } else if max < free {
        var rest := Plan(budgets, nbNodes, s, i + 1, start + max, free - max);
        PlanIncreasing(budgets, nbNodes, s, i + 1, start + max, free - max);
        PlanEligible(budgets, nbNodes, s, i + 1, start + max, free - max);
        ConsIncreasing(Span(i + 1, start, start + max - 1), rest);
      }
    }
  }

  lemma ConsIncreasing(c: Span, rest: seq<Span>)
    requires Increasing(rest) && forall k | 0 <= k < |rest| :: c.rank < rest[k].rank
    ensures Increasing([c] + rest)
  {
    var r := [c] + rest;
    forall j, k | 0 <= j < k < |r|
      ensures r[j].rank < r[k].rank
    {
      assert r[k] == rest[k - 1];
      if j > 0 {
        assert r[j] == rest[j - 1];
      }
    }
  }

  /** The chunks are contiguous: the first starts at `start` and each next
      one starts just after the previous one ends. */
  lemma {:induction false} PlanContiguous(budgets: seq<uint64>, nbNodes: int, s: nat, i: nat, start: nat, free: nat)
    requires s > 0 && nbNodes <= |budgets|
    ensures var r := Plan(budgets, nbNodes, s, i, start, free);
      (r != [] ==> r[0].lower == start)
      && (forall k | 0 <= k < |r| - 1 :: r[k + 1].lower == r[k].upper + 1)
    decreases nbNodes - i
  {
    if i < nbNodes {
      var max := budgets[i] / s;
      PlanAt(budgets, nbNodes, s, i, start, free);
      if max < 1 {
        PlanContiguous(budgets, nbNodes, s, i + 1, start, free);
      } else if max < free {
        PlanContiguous(budgets, nbNodes, s, i + 1, start + max, free - max);
      }
    }
  }

  /** A worker's budget holds a whole number of elements, never negative. */
  lemma Quotient(b: nat, s: nat)
    requires s > 0
    ensures 0 <= b / s
  {
    var q := b / s;
    assert b == s * q + b % s && b % s < s;
  }

  lemma NoWrap(x: int)
    requires 0 <= x < SIZE_T_MODULUS
    ensures x % SIZE_T_MODULUS == x
  {
  }

  /** With at least one element to place, every chunk is a non-empty range
      inside the array, no larger than its worker's budget allows. */
  lemma {:induction false} PlanCounts(budgets: seq<uint64>, nbNodes: int, s: nat, i: nat, start: nat, free: nat)
    requires s > 0 && nbNodes <= |budgets|
    requires 1 <= free && start + free < SIZE_T_MODULUS
    ensures var r := Plan(budgets, nbNodes, s, i, start, free);
      forall k | 0 <= k < |r| ::
        start <= r[k].lower <= r[k].upper < start + free
        && SpanCount(r[k]) == r[k].upper - r[k].lower + 1
        && 1 <= r[k].rank <= nbNodes
        && SpanCount(r[k]) <= budgets[r[k].rank - 1] / s
    decreases nbNodes - i
  {
    if i < nbNodes {
      var max := budgets[i] / s;
      PlanAt(budgets, nbNodes, s, i, start, free);
      if max < 1 {
        PlanCounts(budgets, nbNodes, s, i + 1, start, free);
      } else if max < free {
        NoWrap(max);
        var rest := Plan(budgets, nbNodes, s, i + 1, start + max, free - max);
        var r := Plan(budgets, nbNodes, s, i, start, free);
        PlanCounts(budgets, nbNodes, s, i + 1, start + max, free - max);
        assert r == [Span(i + 1, start, start + max - 1)] + rest;
        assert SpanCount(r[0]) == max;
        forall k | 1 <= k < |r|
          ensures start <= r[k].lower <= r[k].upper < start + free
          ensures SpanCount(r[k]) == r[k].upper - r[k].lower + 1
          ensures 1 <= r[k].rank <= nbNodes && SpanCount(r[k]) <= budgets[r[k].rank - 1] / s
        {
          assert r[k] == rest[k - 1];
        }
      } else {
        LastIndexNoWrap(start, free);
      }
    }
  }

  lemma CoveredCons(c: Span, rest: seq<Span>)
    ensures Covered([c] + rest) == SpanCount(c) + Covered(rest)
  {
    assert ([c] + rest)[1..] == rest;
  }

  /** The chunks hold as many elements as were asked for when the workers
      can hold them all, and otherwise all the workers can hold: a request
      larger than the total capacity is only partly placed. */
  lemma {:induction false} PlanCoverage(budgets: seq<uint64>, nbNodes: int, s: nat, i: nat, start: nat, free: nat)
    requires s > 0 && nbNodes <= |budgets|
    requires 1 <= free && start + free < SIZE_T_MODULUS
    ensures Covered(Plan(budgets, nbNodes, s, i, start, free)) == Min(free, Capacity(budgets, nbNodes, s, i))
    decreases nbNodes - i
  {
    var r := Plan(budgets, nbNodes, s, i, start, free);
    if i < nbNodes {
      var max := budgets[i] / s;
      var cap := Capacity(budgets, nbNodes, s, i + 1);
      assert Capacity(budgets, nbNodes, s, i) == max + cap;
      Quotient(budgets[i], s);
      PlanAt(budgets, nbNodes, s, i, start, free);
      if max < 1 {
        PlanCoverage(budgets, nbNodes, s, i + 1, start, free);
        assert max == 0 && Covered(r) == Min(free, cap);
      } else if max < free {
        NoWrap(max);
        var head := Span(i + 1, start, start + max - 1);
        var rest := Plan(budgets, nbNodes, s, i + 1, start + max, free - max);
        PlanCoverage(budgets, nbNodes, s, i + 1, start + max, free - max);
        assert Covered(rest) == Min(free - max, cap);
        CoveredCons(head, rest);
        assert SpanCount(head) == max;
        assert Covered(r) == max + Min(free - max, cap);
      } else {
        LastIndexNoWrap(start, free);
        var head := Span(i + 1, start, start + free - 1);
        assert r == [head] + [];
        CoveredCons(head, []);
        assert Covered(r) == free;
      }
      assert Covered(r) == Min(free, max + cap);
    } else {
      assert r == [];
    }
  }

  /** The last chunk ends just before `start` plus the number of elements
      placed. */
  lemma {:induction false} PlanLast(budgets: seq<uint64>, nbNodes: int, s: nat, i: nat, start: nat, free: nat)
    requires s > 0 && nbNodes <= |budgets|
    requires 1 <= free && start + free < SIZE_T_MODULUS
    ensures var r := Plan(budgets, nbNodes, s, i, start, free);
      r != [] ==> r[|r| - 1].upper + 1 == start + Covered(r)
    decreases nbNodes - i
  {
    if i < nbNodes {
      var max := budgets[i] / s;
      PlanAt(budgets, nbNodes, s, i, start, free);
      if max < 1 {
        PlanLast(budgets, nbNodes, s, i + 1, start, free);
      } else if max < free {
        var c := Span(i + 1, start, start + max - 1);
        var rest := Plan(budgets, nbNodes, s, i + 1, start + max, free - max);
        NoWrap(max);
        PlanLast(budgets, nbNodes, s, i + 1, start + max, free - max);
        CoveredCons(c, rest);
        if rest == [] {
          assert Covered([]) == 0;
        } else {
          assert ([c] + rest)[|rest|] == rest[|rest| - 1];
        }
      } else {
        LastIndexNoWrap(start, free);
        CoveredCons(Span(i + 1, start, start + free - 1), []);
      }
    }
  }

  /** No chunk is produced, and `reserve` returns null, exactly when no
      worker's budget holds a single element. */
  lemma {:induction false} PlanEmpty(budgets: seq<uint64>, nbNodes: int, s: nat, i: nat, start: nat, free: nat)
    requires s > 0 && nbNodes <= |budgets|
    ensures Plan(budgets, nbNodes, s, i, start, free) == [] <==> Capacity(budgets, nbNodes, s, i) == 0
    decreases nbNodes - i
  {
    if i < nbNodes {
      PlanAt(budgets, nbNodes, s, i, start, free);
      if budgets[i] / s < 1 {
        PlanEmpty(budgets, nbNodes, s, i + 1, start, free);
      }
    }
  }

  /** A request for no element still yields one chunk when some worker has
      room, and its upper bound wraps around to `SIZE_MAX`: the chunk holds
      zero elements once counted in `size_t`. */
  lemma {:induction false} PlanNoElements(budgets: seq<uint64>, nbNodes: int, s: nat, i: nat, start: nat)
    requires s > 0 && nbNodes <= |budgets| && start < SIZE_T_MODULUS
    ensures var r := Plan(budgets, nbNodes, s, i, start, 0);
      r == [] || (|r| == 1 && r[0].lower == start && SpanCount(r[0]) == 0
                  && (start == 0 ==> r[0].upper == SIZE_T_MODULUS - 1))
    decreases nbNodes - i
  {
    if i < nbNodes {
      PlanAt(budgets, nbNodes, s, i, start, 0);
      if budgets[i] / s < 1 {
        PlanNoElements(budgets, nbNodes, s, i + 1, start);
      }
    }
  }

  // ---------------------------------------------------------------------
  // Budget accounting

  /** `memory_per_node_[node_id - 1] -= bytes` for one chunk, where
      `bytes = sizeof(T) * (upper - lower + 1)`, all in 64-bit unsigned
      arithmetic. */
  function Debit(budgets: seq<uint64>, c: Span, s: nat): (r: seq<uint64>)
    requires 1 <= c.rank <= |budgets|
    ensures |r| == |budgets|
    ensures forall j | 0 <= j < |budgets| && j != c.rank - 1 :: r[j] == budgets[j]
    ensures s * SpanCount(c) <= budgets[c.rank - 1] ==> r[c.rank - 1] == budgets[c.rank - 1] - s * SpanCount(c)
  {
    var bytes := (s * SpanCount(c)) % SIZE_T_MODULUS;
    budgets[c.rank - 1 := (budgets[c.rank - 1] - bytes) % SIZE_T_MODULUS]
  }

  predicate RanksWithin(cs: seq<Span>, n: nat)
  {
    forall k | 0 <= k < |cs| :: 1 <= cs[k].rank <= n
  }

  /** The budgets after the chunks `cs` have been debited one by one. */
  function DebitAll(budgets: seq<uint64>, cs: seq<Span>, s: nat): (r: seq<uint64>)
    requires RanksWithin(cs, |budgets|)
    ensures |r| == |budgets|
    ensures forall j | 0 <= j < |budgets| && (forall k | 0 <= k < |cs| :: cs[k].rank != j + 1) :: r[j] == budgets[j]
    decreases |cs|
  {
    if cs == [] then budgets else Debit(DebitAll(budgets, cs[..|cs| - 1], s), cs[|cs| - 1], s)
  }

  /** Debiting one more chunk. */
  lemma DebitAllSnoc(budgets: seq<uint64>, cs: seq<Span>, k: nat, s: nat)
    requires RanksWithin(cs, |budgets|) && k < |cs|
    ensures RanksWithin(cs[..k], |budgets|) && RanksWithin(cs[..k + 1], |budgets|)
    ensures DebitAll(budgets, cs[..k + 1], s) == Debit(DebitAll(budgets, cs[..k], s), cs[k], s)
  {
    assert cs[..k + 1][..k] == cs[..k];
  }

  /** The bytes the chunks `cs` take from the worker at index `j`. */
  function Taken(cs: seq<Span>, j: nat, s: nat): nat
    decreases |cs|
  {
    if cs == [] then 0
    else Taken(cs[..|cs| - 1], j, s) + (if cs[|cs| - 1].rank == j + 1 then s * SpanCount(cs[|cs| - 1]) else 0)
  }

  /** When the chunks do not take more than a worker has, the debits leave
      it its budget minus what the chunks take, with no wrap-around. */
  lemma {:induction false} DebitAllAt(budgets: seq<uint64>, cs: seq<Span>, s: nat, j: nat)
    requires RanksWithin(cs, |budgets|) && j < |budgets|
    requires Taken(cs, j, s) <= budgets[j]
    ensures DebitAll(budgets, cs, s)[j] == budgets[j] - Taken(cs, j, s)
    decreases |cs|
  {
    if cs != [] {
      var p := cs[..|cs| - 1];
      var c := cs[|cs| - 1];
      assert RanksWithin(p, |budgets|) by {
        assert forall k | 0 <= k < |p| :: p[k] == cs[k];
      }
      DebitAllAt(budgets, p, s, j);
      if c.rank == j + 1 {
        var before := DebitAll(budgets, p, s);
        var bytes := s * SpanCount(c);
        NoWrap(bytes);
        NoWrap(before[j] - bytes);
      }
    }
  }

  /** Chunks on other workers take nothing from worker `j`. */
  lemma {:induction false} TakenNone(cs: seq<Span>, j: nat, s: nat)
    requires forall k | 0 <= k < |cs| :: cs[k].rank != j + 1
    ensures Taken(cs, j, s) == 0
    decreases |cs|
  {
    if cs != [] {
      var p := cs[..|cs| - 1];
      assert forall k | 0 <= k < |p| :: p[k] == cs[k];
      TakenNone(p, j, s);
    }
  }

  /** In a list of chunks with distinct ranks, a chunk's worker gives
      exactly that chunk's bytes. */
  lemma {:induction false} TakenUnique(cs: seq<Span>, k: nat, s: nat)
    requires Increasing(cs) && k < |cs| && cs[k].rank >= 1
    ensures Taken(cs, cs[k].rank - 1, s) == s * SpanCount(cs[k])
    decreases |cs|
  {
    var p := cs[..|cs| - 1];
    assert forall m | 0 <= m < |p| :: p[m] == cs[m];
    if k == |cs| - 1 {
      TakenNone(p, cs[k].rank - 1, s);
    } else {
      TakenUnique(p, k, s);
    }
  }

  lemma MulDivBelow(b: nat, s: nat, n: nat)
    requires s > 0 && n <= b / s
    ensures s * n <= b
  {
    assert s * n <= s * (b / s);
  }

  /** Every chunk of a placement fits its worker's budget, so no debit of
      `reserve` wraps around. */
  lemma PlanFits(budgets: seq<uint64>, nbNodes: int, s: nat, n: uint64)
    requires s > 0 && nbNodes <= |budgets|
    ensures var r := Plan(budgets, nbNodes, s, 0, 0, n);
      RanksWithin(r, |budgets|) && Increasing(r)
      && (forall k | 0 <= k < |r| :: r[k].lower + SpanCount(r[k]) <= n)
      && (forall k | 0 <= k < |r| :: s * SpanCount(r[k]) <= budgets[r[k].rank - 1])
  {
    var r := Plan(budgets, nbNodes, s, 0, 0, n);
    PlanRanks(budgets, nbNodes, s, 0, 0, n);
    if n == 0 {
      PlanNoElements(budgets, nbNodes, s, 0, 0);
    } else {
      PlanCounts(budgets, nbNodes, s, 0, 0, n);
      forall k | 0 <= k < |r|
        ensures s * SpanCount(r[k]) <= budgets[r[k].rank - 1]
      {
        MulDivBelow(budgets[r[k].rank - 1], s, SpanCount(r[k]));
      }
    }
  }

  /** Debiting chunks on distinct workers, each no larger than its worker's
      budget, takes exactly each chunk's bytes from its worker and leaves
      every other worker's budget as it was. */
  lemma DebitsExact(budgets: seq<uint64>, cs: seq<Span>, s: nat)
    requires RanksWithin(cs, |budgets|) && Increasing(cs)
    requires forall k | 0 <= k < |cs| :: s * SpanCount(cs[k]) <= budgets[cs[k].rank - 1]
    ensures forall k | 0 <= k < |cs| ::
      DebitAll(budgets, cs, s)[cs[k].rank - 1] == budgets[cs[k].rank - 1] - s * SpanCount(cs[k])
    ensures forall j | 0 <= j < |budgets| && (forall k | 0 <= k < |cs| :: cs[k].rank != j + 1) ::
      DebitAll(budgets, cs, s)[j] == budgets[j]
  {
    forall k | 0 <= k < |cs|
      ensures DebitAll(budgets, cs, s)[cs[k].rank - 1] == budgets[cs[k].rank - 1] - s * SpanCount(cs[k])
    {
      TakenUnique(cs, k, s);
      DebitAllAt(budgets, cs, s, cs[k].rank - 1);
    }
    forall j | 0 <= j < |budgets| && (forall k | 0 <= k < |cs| :: cs[k].rank != j + 1)
      ensures DebitAll(budgets, cs, s)[j] == budgets[j]
    {
      TakenNone(cs, j, s);
      DebitAllAt(budgets, cs, s, j);
    }
  }
}
