/** `Memory` (`include/data/memory.h`, `src/data/memory.cpp`): a worker's
    storage table. Chunk buffers are kept by id; a separate table keeps, per
    id, two `(clock, length)` packs for the write history. */
module Storage {
  import opened Bytes

  /** `Pack`: the clock of a message (a `size_t`) and its size (an `int`). */
  datatype Pack = Pack(clock: uint64, length: int)

  /** The value of the counter `reserve` numbers its ids with. It is
      declared `static` in `reserve` and never incremented. */
  const ID: nat := 0

  /** The id `reserve` gives a chunk on rank `rank`: the rank and the
      counter in decimal, joined by `_`. */
  function ChunkId(rank: int): (id: string)
    ensures rank >= 0 ==> '-' !in id
  {
    IntToString(rank) + "_" + NatToString(ID)
  }

  class Memory {
    var data: map<string, seq<byte>>
    var history: map<string, (Pack, Pack)>

    constructor ()
      ensures data == map[] && history == map[]
    {
      data := map[];
      history := map[];
    }

    /** `reserve(node_rank, nb_bytes)`: stores a buffer of `nb_bytes` zero
        bytes under the rank's id, replacing any buffer kept under that id,
        and returns the id. */
    method Reserve(nodeRank: int, nbBytes: nat) returns (id: string)
      modifies this
      ensures id == ChunkId(nodeRank)
      ensures data == old(data)[id := Zeros(nbBytes)]
      ensures |data[id]| == nbBytes && forall k | 0 <= k < nbBytes :: data[id][k] == 0
      ensures history == old(history)
    {
      id := IntToString(nodeRank) + "_" + NatToString(ID);
      var vec := Zeros(nbBytes);
      data := data[id := vec];
    }

    /** `get(id)`: the buffer kept under `id`; an id not yet in the table is
        first given an empty buffer. */
    method Get(id: string) returns (buf: seq<byte>)
      modifies this
      ensures data == old(data)[id := buf]
      ensures id in old(data) ==> buf == old(data)[id] && data == old(data)
      ensures id !in old(data) ==> buf == []
      ensures history == old(history)
    {
      if id !in data {
        data := data[id := []];
      }
      buf := data[id];
    }

    /** `getConst(id)`: the buffer kept under `id`; `None` stands for the
        `std::out_of_range` that `at` throws for an unknown id. */
    function GetConst(id: string): (r: Option<seq<byte>>)
      reads this
      ensures r.Some? <==> id in data
      ensures r.Some? ==> r.value == data[id]
    {
      if id in data then Some(data[id]) else None
    }

    /** `history()`: the history table. */
    function History(): map<string, (Pack, Pack)>
      reads this
    {
      history
    }
  }

  /** Ids of distinct non-negative ranks differ, so workers never hand out
      the same id. */
  lemma {:induction false} ChunkIdInjective(r1: nat, r2: nat)
    requires ChunkId(r1) == ChunkId(r2)
    ensures r1 == r2
  {
    var s1 := NatToString(r1);
    var s2 := NatToString(r2);
    assert ChunkId(r1) == s1 + "_" + NatToString(ID);
    assert ChunkId(r2) == s2 + "_" + NatToString(ID);
    assert |s1| == |s2|;
    assert s1 == ChunkId(r1)[..|s1|];
    assert s2 == ChunkId(r2)[..|s2|];
    NatToStringInjective(r1, r2);
  }
}
