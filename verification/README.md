# algorep: a model of the coordinator of a distributed array allocator

algorep runs one coordinator process (MPI rank 0) and a set of worker
processes (ranks 1 ..). The coordinator, an `Allocator`, keeps the number of
bytes every worker can still take. It places a logical array on the workers
in chunks of whole elements. It then reads, writes, maps and reduces that
array by exchanging messages with the workers that own the chunks. A worker
keeps its chunks in a `Memory` table of byte buffers, and applies map and
reduce callbacks, picked from two tables by their integer ids, to the
elements of a buffer.

This project models, in Dafny:

- **Placement and budgets.** The greedy placement loop of `reserve`, the
  budget debits, and the constructor and setters that build the budget
  vector. Modules: `Placement` and `Allocation`.
- **Coordinator messages.** What `reserve`, `read`, `write`, `map` and
  `reduce` send, with the exact byte and text layouts:
  - the write fragment `[data][id, zero-padded to 23 bytes][size_t clock]`;
  - the map descriptor `"<id>-<callback id>-<type tag>"`;
  - the reduce message: a 64-byte accumulator area, two `unsigned int`s and
    the NUL-terminated, `-`-joined chain of ids.

  The worker side is not part of the source files, so for each layout the
  model defines its own inverse, a parser, and proves a round-trip lemma
  against it. `read` has its reassembly loop. Modules: `Wire` and
  `Allocation`.
- **The element handle** `Element` (module `Elements`) and **the worker
  storage table** `Memory` (module `Storage`).
- **The callback registry and the apply loops.** The integer
  instantiations of `abs`, `negate`, `pow`, `sum` and `count_even`, the
  `MAPS`/`REDUCE` tables and their id enums, and the in-place loops
  `applyCallback` and `applyReduce` over a byte buffer viewed as elements.
  Modules: `Callback`, `ElemBytes` and `Algorep`.

Shared building blocks live in `Bytes` and `Constants`:
- little-endian integers;
- `size_t` subtraction and increment, which wrap around;
- `std::to_string`;
- splitting and joining on a separator;
- message tags.

The MPI transport is not modelled. An operation returns the messages it
would send, as `Send(dest, tag, payload)` records in sending order. What the
workers answer is passed in: the ids returned for an allocation, the values
returned for a read, the acknowledgement bytes of a write, and the value
returned by a reduction.

`Element` has no list of its chunks in the source files. The chunk list
that `read`, `write`, `map` and `reduce` walk (`getIds`, `getBounds`,
`getIntIds`) is therefore passed in as a sequence of `Chunk(id, Span(rank,
lower, upper))`.

Integer types use their LP64 widths: short 2 bytes, int 4, long 8. Values
are two's-complement and stored little-endian. The model assumes that a
callback result leaving its type's range wraps around modulo 2^bits:
- for `unsigned int` and `unsigned long` this is C++ unsigned arithmetic;
- for `short` and `unsigned short` the operands are promoted to `int`, and
  the result is narrowed back to `T` on assignment;
- for `int` and `long`, an overflow of `-a`, `a * a` or `out += a` is
  undefined behaviour in C++, and the model takes the usual hardware
  wrap-around instead (see "## Left out").

The getters `getMemoryStatus`, `getNbNodes`, `getVariables`, `getNbValues`
and `history` are read-only functions of the fields they return:
`Allocation.Allocator.GetMemoryStatus`, `Allocation.Allocator.GetNbNodes`,
`Elements.Element.GetVariables`, `Elements.Element.GetNbValues` and
`Storage.Memory.History`.

## Behaviour of the code that the model makes explicit

- **`reserve` can succeed with only part of the array placed.** When the
  workers cannot hold the whole array, `reserve` places the prefix they can
  hold and returns a non-null handle. It returns null only when no chunk
  was placed (`Placement.PlanCoverage`, `Placement.PlanEmpty`). The budgets
  of the workers that got a chunk stay debited.
- **`reserve(0, …)` still places one chunk** when some worker has room. The
  chunk's upper bound wraps around to `SIZE_MAX`
  (`Placement.PlanNoElements`).
- **`setNbNodes` appends.** It adds budgets to the vector instead of
  replacing it, so calling it twice leaves more budgets than nodes
  (`Allocation.Allocator.SetNbNodes`).
- **`write` does not stop at `nb_elts`.**
  - When the remaining values fit in a chunk, the loop sets `nb_elts` to 0.
    It then still subtracts the chunk's size, which wraps `nb_elts` around
    in `size_t`.
  - So every chunk gets a fragment, whatever was asked for
    (`Allocation.FragmentCountsEveryChunk`, with the concrete case
    `Allocation.WriteTwoOfSix`).
  - The source's own comment on `nb_elts = 0` ("Makes the for loop stop
    after this iteration", `include/data/allocator.hxx:157`) shows the stop
    was intended. The loop condition `nb_elts > 0` is tested again only
    after the subtraction at line 173.
  - The intended loop is `Allocation.IntendedCounts`. It copies exactly
    `min(nb_elts, values held)` values (`Allocation.IntendedCountsSum`). It
    agrees with the loop as written on every chunk it fills
    (`Allocation.IntendedCountsPrefix`). Where it stops with chunks left,
    the loop as written goes on (`Allocation.IntendedCountsStopEarly`).
    For 2 values over two chunks of 3, it fills only `[2]`
    (`Allocation.IntendedTwoOfSix`), where the code fills `[2, 3]`.
  - The extra fragments read past the values asked for: with a `data` array
    of only those 2 values, the second fragment reads `data[3..6)`
    (`Allocation.WriteTwoOfSixOverreads`).
- **The write clock is not strictly increasing per call.** It is a
  per-element-type `static` that is bumped only when every worker
  acknowledged. A failed write's clock is used again by the next write of
  that type.
- **`map` ignores the acknowledgements** and returns the allocator in every
  case.
- **`REDUCE` is shorter than `ReduceID`.** The table has the 8 sums, while
  the enum also names 8 count-even callbacks, whose ids fall past the end of
  the table (`Callback.ReduceAlignsWithReduceId`).
- **`Memory::reserve` always issues the same id on a rank.** Its counter
  `ID` is never incremented, so every id on rank `r` is `"r_0"`, and a
  second reservation replaces the first buffer (`Storage.ChunkId`,
  `Storage.Memory.Reserve`). Distinct ranks still get distinct ids
  (`Storage.ChunkIdInjective`). So the chunks of one array have distinct
  ids (`Allocation.ReserveRecordsEveryChunk`).

## Model

| member | source | states |
|---|---|---|
| Bytes.SizeSub | include/data/allocator.hxx:173 | `size_t` subtraction: the difference modulo 2^64 |
| Bytes.SizeInc | include/data/allocator.hxx:215 | `CLOCK++` on a `size_t`: the successor modulo 2^64 |
| Bytes.FromToLittleEndian | include/data/allocator.hxx:170-171 | a `size_t` stored by `memcpy` on a little-endian host reads back as the same number |
| Bytes.ToFromLittleEndian | include/data/allocator.hxx:170-171 | every byte string of a fixed width is the image of the number it reads as |
| Bytes.Store | include/data/allocator.hxx:120 | `memcpy` into an array overwrites exactly the target range; every other item keeps its value |
| Bytes.NatToString | src/data/memory.cpp:9 | `std::to_string` of a non-negative number is a non-empty string of digits without a leading zero |
| Bytes.ParseNatToString | src/data/memory.cpp:9 | the decimal text of a number reads back as that number |
| Bytes.NatToStringInjective | src/data/memory.cpp:9 | distinct numbers have distinct decimal texts |
| Bytes.SplitJoin | include/data/allocator.hxx:268-275 | splitting on `-` undoes joining with `-` when no part contains `-` |
| Bytes.JoinLength | include/data/allocator.hxx:280 | a joined chain is as long as its parts plus one separator between neighbours |
| Constants.TagValue | include/data/tag_data.h:16-24 | every message kind's tag value is below 7; distinct kinds get distinct values by `Constants.TagValueInjective` |
| Constants.TagValueInjective | include/data/tag_data.h:16-24 | distinct message kinds travel under distinct tags |
| Callback.TypeTag | include/constant/callback.h:22-33 | type tags are 0..8, and 8 is exactly `END` |
| Callback.TypeOfTag | include/constant/callback.h:22-33 | a number names a type exactly when it is at most 8 |
| Callback.TagRoundTrip | include/constant/callback.h:22-33 | tags and types correspond one to one, so every element type has its own tag |
| Callback.DataTypeToSize | include/constant/callback.h:38-46 | the size of `END` is 0 and only that size is 0; no size exceeds 8 |
| Callback.Wrap | include/constant/callback.h:80-111 | narrowing to the element type gives the one in-range value congruent to the input modulo 2^bits, and leaves in-range values alone |
| Callback.WrapUnique | include/constant/callback.h:80-111 | that narrowed value is unique |
| Callback.AbsValue | include/constant/callback.h:80-85 | `abs` is non-negative and equal to `a` or `-a`, except at a signed type's minimum, which it returns unchanged |
| Callback.NegateValue | include/constant/callback.h:106-111 | `negate` is `-a` on signed types except at the minimum, which maps to itself; on unsigned types it is `2^bits - a` (0 for 0) |
| Callback.PowValue | include/constant/callback.h:93-98 | `pow` is `a * a` when that fits, and otherwise its wrapped value |
| Callback.NegateInvolutive | include/constant/callback.h:106-111 | negating twice gives the value back, for every in-range value of every integer type |
| Callback.SumValue | include/constant/callback.h:180-185 | `sum` leaves an in-range accumulator |
| Callback.SumMeaning | include/constant/callback.h:180-185 | `sum` sets `out` to `out + a`, wrapped to the type |
| Callback.CountEvenValue | include/constant/callback.h:194-199 | `count_even` leaves an in-range accumulator |
| Callback.CountEvenMeaning | include/constant/callback.h:194-199 | `count_even` adds 1 exactly when `a` is even, wrapping at the type's maximum, and adds nothing otherwise |
| Callback.MapsAlignWithMapId | include/constant/callback.h:118-166 | every `MapID` indexes the `MAPS` entry its name describes (e.g. `I_POW` = 14 is `pow<int>`) |
| Callback.ReduceAlignsWithReduceId | include/constant/callback.h:206-238 | the sum ids index the `REDUCE` entry they name; the count-even ids lie past the end of the table |
| Callback.Fold | include/algorep.h:61-63 | folding elements into an in-range accumulator keeps it in range |
| Callback.FoldConcat | include/algorep.h:62-63 | folding two runs of elements is folding the second into the result of the first |
| Callback.FoldCongruent | include/algorep.h:62-63 | a fold equals the start value plus the total contribution of the elements, modulo 2^bits |
| Callback.FoldSum | include/algorep.h:62-63 | reducing with `sum` gives the wrapped arithmetic sum of the start value and the elements |
| Callback.FoldCountEven | include/algorep.h:62-63 | reducing with `count_even` gives the start value plus the number of even elements, wrapped |
| ElemBytes.EncodeElem | include/algorep.h:38 | an element's image has exactly `sizeof(T)` bytes |
| ElemBytes.DecodeElem | include/algorep.h:38 | bytes read as an element give an in-range value |
| ElemBytes.DecodeEncodeElem | include/algorep.h:38 | an element read back from its bytes is itself |
| ElemBytes.EncodeDecodeElem | include/algorep.h:38 | `sizeof(T)` bytes are the image of the element they read as |
| ElemBytes.ElemsLength | include/algorep.h:39 | a buffer of `n` bytes holds `n / sizeof(T)` whole elements |
| ElemBytes.EncodeElemsLength | include/data/allocator.hxx:61 | the bytes of `k` elements number `sizeof(T) * k` |
| ElemBytes.ElemsIndex | include/algorep.h:41-42 | element `i` of a buffer is read from bytes `[i * sizeof(T), (i + 1) * sizeof(T))` |
| ElemBytes.ElemsEncodeElems | include/data/allocator.hxx:61-64 | the bytes of an array of elements read back as the array |
| ElemBytes.EncodeElemsElems | include/data/allocator.hxx:61-64 | a buffer of whole elements is the bytes of the elements it holds |
| ElemBytes.EncodeElemsAppend | include/data/allocator.hxx:61-64 | the bytes of two arrays end to end are the bytes of each, in turn |
| ElemBytes.ElemsConcat | include/algorep.h:41-42 | reading whole elements followed by more bytes yields the elements of each part, in turn |
| ElemBytes.WholeBytes | include/algorep.h:39 | the bytes of the whole elements in `n` bytes: a multiple of `sizeof(T)`, at most `n`, and less than one element short of it |
| ElemBytes.ElemsWholeBytes | include/algorep.h:39 | those bytes hold exactly `n / sizeof(T)` elements |
| Algorep.MapAll | include/algorep.h:41-42 | the mapped array has the same length, with element `i` being the callback applied to element `i` |
| Algorep.MapAllNegateTwice | include/constant/callback.h:106-111 | mapping `negate` twice over an array gives the array back |
| Algorep.MapChunksMeaning | include/algorep.h:41-42 | rewriting a buffer element by element is decoding it, mapping the callback and encoding the result |
| Algorep.ApplyCallback | include/algorep.h:34-43 | `applyCallback` handles exactly `nb_elt / sizeof(T)` elements, each replaced by `MAPS[call_id]` of its old value; bytes after the last whole element are unchanged; with fewer than `sizeof(T)` bytes it changes nothing |
| Algorep.MapElements | include/algorep.h:41-42 | the loop over the elements: the buffer becomes the mapped whole elements followed by the untouched tail |
| Algorep.FoldChunksMeaning | include/algorep.h:62-63 | folding a buffer element by element is folding its decoded elements in ascending order |
| Algorep.ApplyReduce | include/algorep.h:54-64 | `applyReduce` folds the whole elements of the first `nb_elt` bytes, in ascending order, with `REDUCE[call_id]` into the accumulator at the start of `out`; the rest of `out` and all of `input` are unchanged; with fewer than `sizeof(T)` bytes it changes nothing |
| Algorep.FoldElements | include/algorep.h:61-63 | the loop over the elements: `out` starts with the fold of the elements into its old accumulator |
| Wire.UntilNulOfCString | include/data/allocator.hxx:289-290 | a string without NUL, followed by a NUL, reads back as itself |
| Wire.IdField | include/data/allocator.hxx:167-168 | the id field of a fragment is exactly `ID_LEN` = 23 bytes: the id's bytes, then zeros up to the end of the field |
| Wire.Fragment | include/data/allocator.hxx:163-171 | a fragment has the data bytes plus 23 id bytes plus 8 clock bytes |
| Wire.ParseFragment | include/data/allocator.hxx:163-171 | the model's inverse of the fragment layout: given the data length, it accepts exactly the buffers of that length plus 31 bytes |
| Wire.FragmentRoundTrip | include/data/allocator.hxx:165-171 | a fragment reads back as its data, its id and its clock, for an id of at most 23 bytes without NUL |
| Wire.Descriptor | include/data/allocator.hxx:229-230 | a map descriptor made from a byte-string id is a byte string |
| Wire.ParseDescriptor | include/data/allocator.hxx:229-230 | the model's inverse of the descriptor layout: it accepts exactly the texts with three `-`-separated fields |
| Wire.DescriptorRoundTrip | include/data/allocator.hxx:229-230 | a descriptor reads back as the id, the callback id and the type tag it was made from, when the id holds no `-` |
| Wire.BuildChain | include/data/allocator.hxx:268-275 | the chain loop joins the ids with `-`, with no separator after the last |
| Wire.ChainRoundTrip | include/data/allocator.hxx:268-280 | the chain splits back into the ids, and its length is the ids' lengths plus one `-` between neighbours |
| Wire.ReduceMessage | include/data/allocator.hxx:280-290 | a reduce message has `72 + len(chain) + 1` bytes |
| Wire.ParseReduceMessage | include/data/allocator.hxx:280-290 | the model's inverse of the reduce message layout: it accepts exactly the messages longer than the 72-byte header |
| Wire.ReduceMessageRoundTrip | include/data/allocator.hxx:284-290 | the message reads back with the type tag at byte 64, the callback id at 68, the chain up to its NUL, and the first `sizeof(T)` bytes holding `init_val` with zeros up to byte 64 |
| Placement.LastIndexNoWrap | include/data/allocator.hxx:41 | the final chunk's upper bound is `start + free - 1` without wrap-around when `free >= 1`, so it holds `free` elements |
| Placement.Plan | include/data/allocator.hxx:30-47 | the greedy plan from worker index `i` is empty or has at most one chunk per remaining worker; its shape is stated by the `Plan*` lemmas below |
| Placement.PlaceChunks | include/data/allocator.hxx:30-47 | the placement loop produces the chunks of the greedy plan |
| Placement.PlanAt | include/data/allocator.hxx:35-46 | at each worker the plan skips a budget holding less than one element, ends with the rest when it fits, and otherwise fills the worker and moves on |
| Placement.PlanRanks | include/data/allocator.hxx:33-44 | chunks go to ranks `i + 1` in strictly increasing order, only to workers whose budget holds at least one element |
| Placement.PlanContiguous | include/data/allocator.hxx:40-46 | the first chunk starts at 0, and each next chunk starts just after the previous one ends |
| Placement.PlanCounts | include/data/allocator.hxx:35-46 | with at least one element to place, every chunk is a non-empty range inside the array, on a valid rank, no larger than `budget / sizeof(T)` |
| Placement.PlanCoverage | include/data/allocator.hxx:38-47 | the chunks hold `min(nb_elements, total capacity)` elements: the whole array when it fits, otherwise only a prefix |
| Placement.PlanLast | include/data/allocator.hxx:38-42 | the last chunk ends at the last element placed, i.e. at `nb_elements - 1` when everything fits |
| Placement.PlanEmpty | include/data/allocator.hxx:49 | the plan is empty, and `reserve` returns null, exactly when no worker's budget holds a single element |
| Placement.PlanNoElements | include/data/allocator.hxx:38-41 | with no element to place there is at most one chunk, holding zero elements; from index 0 its upper bound wraps to `SIZE_MAX` |
| Placement.Debit | include/data/allocator.hxx:84 | debiting a chunk changes only its worker's budget, and lowers it by exactly `sizeof(T) * (upper - lower + 1)`, without wrap-around, when those bytes fit the budget |
| Placement.DebitAll | include/data/allocator.hxx:70-87 | the debits of the receive loop keep one budget per worker, and a worker that holds none of the chunks keeps its budget |
| Placement.DebitAllAt | include/data/allocator.hxx:84 | when the chunks take no more than a worker has, its budget ends as the old one minus what they take, without wrap-around |
| Placement.TakenNone | include/data/allocator.hxx:84 | chunks on other workers take nothing from a worker |
| Placement.TakenUnique | include/data/allocator.hxx:81-84 | with distinct ranks, a chunk's worker gives exactly `sizeof(T) * (upper - lower + 1)` bytes |
| Placement.PlanFits | include/data/allocator.hxx:35-84 | every chunk of a plan lies in the array, on an existing worker, in increasing rank order, and takes no more bytes than its worker's budget, so no debit underflows |
| Placement.DebitsExact | include/data/allocator.hxx:70-87 | debiting such chunks takes exactly each chunk's bytes from its worker and leaves every other budget unchanged |
| Elements.Element.constructor | include/data/element.h:19-21 | a new handle holds `nb_values` and no chunk |
| Elements.Element.AddId | include/data/element.h:24-28 | `addId` maps the id to its bounds; other entries are unchanged; a new id adds one entry and a known id keeps the size; the value count never changes |
| Elements.MapUpdateSize | include/data/element.h:27 | storing under a new key adds one entry; under a known key the number of entries is unchanged |
| Storage.ChunkId | src/data/memory.cpp:8-9 | an id on a non-negative rank contains no `-`, so it is safe in a descriptor or a chain |
| Storage.ChunkIdInjective | src/data/memory.cpp:9 | distinct ranks get distinct ids |
| Storage.Memory.constructor | include/data/memory.h:98-103 | a new table has no buffer and no history |
| Storage.Memory.Reserve | src/data/memory.cpp:5-15 | `reserve` returns `"<rank>_0"` and stores `nb_bytes` zero bytes under it, replacing any buffer there; other buffers and the history are unchanged |
| Storage.Memory.Get | include/data/memory.h:64-68 | `get` returns the buffer of a known id without changing the table; an unknown id is first given an empty buffer; the history is unchanged |
| Storage.Memory.GetConst | include/data/memory.h:77-81 | `getConst` returns the buffer exactly when the id is present (otherwise `at` throws), and it is the buffer `get` returns |
| Allocation.Allocator.Init | include/data/allocator.h:169 | the private constructor starts with no node, `max_memory_` = 0, no budget and no write clock |
| Allocation.Repeat | src/data/allocator.cpp:9-10 | the push-back loop appends exactly `k` copies of the value, none when `k` is not positive |
| Allocation.Allocator.constructor | src/data/allocator.cpp:6-11 | `nb_nodes_` is `nb_nodes - 1`, and the budget vector holds `nb_nodes - 1` copies of `max_memory` (none when `nb_nodes <= 1`) |
| Allocation.Allocator.SetMaxMemory | include/data/allocator.h:134-138 | only `max_memory_` changes; the existing budgets stay as they were |
| Allocation.Allocator.SetNbNodes | include/data/allocator.h:146-152 | `nb_nodes_` becomes `k`, and `k` budgets of `max_memory_` are appended to the existing ones |
| Allocation.Instance.Get | include/data/allocator.h:31-37 | the first `instance()` creates an allocator with no node and no memory; every later call returns that same allocator |
| Allocation.Allocator.Reserve | include/data/allocator.hxx:20-90 | returns null exactly when the plan is empty. Otherwise it sends each chunk's initial values to its worker, in plan order, and returns a new handle of `nb_elements` values recording each returned id with its chunk's bounds. Each chunk's worker is debited by the chunk's bytes; nothing else changes |
| Allocation.SendAllocations | include/data/allocator.hxx:54-65 | the send loop sends, for each chunk in order, the bytes of `elt[lower..upper]` to its worker under `ALLOCATION` |
| Allocation.AllocationSends | include/data/allocator.hxx:54-65 | one ALLOCATION message per chunk, in placement order, each to its chunk's worker |
| Allocation.AllocationPayloads | include/data/allocator.hxx:61-64 | each ALLOCATION payload has `sizeof(T) * (upper - lower + 1)` bytes, which read back as the chunk's initial values |
| Allocation.ReceiveIds | include/data/allocator.hxx:70-87 | the receive loop records the `k`-th id with the `k`-th chunk's bounds and debits the chunks one by one |
| Allocation.IdsMapLookup | include/data/allocator.hxx:79 | with distinct ids, the handle maps each chunk's id to its bounds and holds no other id |
| Allocation.ReserveDebits | include/data/allocator.hxx:81-84 | after `reserve`, each chunk's worker has lost exactly `sizeof(T) * (upper - lower + 1)` bytes and every other worker's budget is unchanged |
| Allocation.ReserveRecordsEveryChunk | include/data/allocator.hxx:79 | with the ids workers hand out, the handle records every chunk of the placement under its own id |
| Allocation.Assemble | include/data/allocator.hxx:116-120 | copying the replies over the result array keeps its length |
| Allocation.AssembleKeeps | include/data/allocator.hxx:116-120 | a value outside every chunk copied so far keeps its initial value |
| Allocation.ReadRequests | include/data/allocator.hxx:106-110 | `read` sends chunk `k`'s id to chunk `k`'s worker under `READ` |
| Allocation.Allocator.Read | include/data/allocator.hxx:92-126 | `read` returns a new array of `getNbValues()` values, assembled from the replies at each chunk's lower bound, and sends one READ request per chunk |
| Allocation.FetchChunks | include/data/allocator.hxx:100-123 | the read loop copies reply `k` over `result[lower_k .. upper_k]`, chunk after chunk |
| Allocation.ReadReassembles | include/data/allocator.hxx:116-120 | when the chunks tile the array and each worker answers with its chunk's values, the assembled array is exactly the array; nothing of the initial contents survives |
| Allocation.PlanTiles | include/data/allocator.hxx:38-46 | when the workers can hold the whole array, the chunks of `reserve` tile it from 0 to `nb_elements` |
| Allocation.PayloadsAreSlices | include/data/allocator.hxx:61-64 | each ALLOCATION payload reads back as the chunk's slice of the array |
| Allocation.ReserveThenRead | include/data/allocator.hxx:20-126 | reserving an array that fits, then reading it back while each worker answers with the values it was sent, gives the array back |
| Allocation.Fragments | include/data/allocator.hxx:144-174 | fragment `k` is built from chunk `k` and the values it copies |
| Allocation.WriteSends | include/data/allocator.hxx:178-192 | WRITE message `k` carries fragment `k` to chunk `k`'s worker |
| Allocation.FragmentCounts | include/data/allocator.hxx:145-173 | the fragment loop fills at most one fragment per chunk; after the wrap of `nb_elts` at line 173 it goes on with `SizeSub(0, sub)` |
| Allocation.FragmentCountsWithin | include/data/allocator.hxx:152-157 | no fragment gets more values than its chunk holds |
| Allocation.FragmentCountsFull | include/data/allocator.hxx:145-173 | writing all the values of an array tiled by non-empty chunks copies every chunk in full |
| Allocation.FragmentCountsEveryChunk | include/data/allocator.hxx:154-173 | once at least one value is to be written, every chunk gets a fragment, because `nb_elts` wraps around instead of stopping the loop |
| Allocation.WriteTwoOfSix | include/data/allocator.hxx:154-173 | writing 2 values of an array held in two chunks of 3 sends the second chunk 3 values as well |
| Allocation.WriteTwoOfSixOverreads | include/data/allocator.hxx:145-173 | writing 2 values over two chunks of 3 needs more than 2 values of `data`: the second fragment reads past them |
| Allocation.IntendedCounts | include/data/allocator.hxx:154-158 | the loop as its comment at :157 intends, stopping after the chunk the rest fits in: at most one count per chunk |
| Allocation.IntendedCountsSum | include/data/allocator.hxx:145-173 | the intended loop copies exactly `min(nb_elts, values held by the chunks)` values |
| Allocation.IntendedCountsPrefix | include/data/allocator.hxx:145-173 | the loop as written agrees with the intended one on every chunk the intended one fills |
| Allocation.IntendedCountsStopEarly | include/data/allocator.hxx:157-173 | with at least one value asked for, where the intended loop stops with chunks left, the loop as written fills at least one more |
| Allocation.IntendedTwoOfSix | include/data/allocator.hxx:154-158 | for 2 values over two chunks of 3, the intended loop fills only the first fragment, with 2 values |
| Allocation.Allocator.Write | include/data/allocator.hxx:128-217 | `write` fails, sending nothing, when more values are asked for than the array holds; 0 means all values. Otherwise it sends the fragments of the chunks the loop reaches, each with this type's clock. It succeeds exactly when none of those workers acknowledges `FAIL`, and only then is the clock incremented |
| Allocation.BuildFragments | include/data/allocator.hxx:144-174 | the fragment loop builds the fragment of every chunk it reaches, and leaves the later buffers empty |
| Allocation.FormatChunk | include/data/allocator.hxx:152-173 | one turn copies the whole chunk, or only the values left when they fit, then subtracts the chunk's size from `nb_elts` in `size_t` |
| Allocation.FragmentsPrefix | include/data/allocator.hxx:144-174 | the built fragments are non-empty for the chunks the loop reached |
| Allocation.SendFragments | include/data/allocator.hxx:178-192 | the send loop sends the fragments in chunk order and stops at the first empty buffer |
| Allocation.AwaitAcks | include/data/allocator.hxx:198-213 | the acknowledgement loop succeeds exactly when no worker that got a fragment answered `FAIL` |
| Allocation.MapRequests | include/data/allocator.hxx:225-234 | one MAP message per chunk, in chunk order, each to its chunk's worker |
| Allocation.Allocator.Map | include/data/allocator.hxx:219-245 | `map` sends `"<id>-<callback id>-<type tag>"` to each chunk's worker under `MAP`, which the worker parses back into those three fields; it returns this allocator whatever the acknowledgements |
| Allocation.JoinBytes | include/data/allocator.hxx:268-275 | a chain of byte-string ids is a byte string, and holds no NUL when no id does |
| Allocation.Allocator.Reduce | include/data/allocator.hxx:247-301 | `reduce` returns null for an array with no chunk. Otherwise it sends one REDUCE message to the first chunk's worker and returns the value received from the last chunk's worker. The message parses back into the type tag, the callback id, `init_val` and the chain of all chunk ids, in order |

## Left out

- MPI transport (`message::send`, `rec_sync`, `rec_sync_ack`): foreign asynchronous calls. Sends are returned as records, and replies and acknowledgements are parameters. `include/message.h` declares signatures that no longer match their use and is not part of this model.
- The worker dispatch loop and the clock-based reconciliation of writes on a worker: no source file contains them. Only the history table they would use (`Storage.Memory.History`) is modelled.
- `float` and `double` instantiations of the callbacks: floating point is not modelled. Their entries are kept in the tables, so the table indices stay exact.
- `free` and `Memory::release`: declared but not defined in any source file.
- `Element::isAllocated`: it refers to a member that does not exist, so it does not compile.
- The `run` stub in `include/algorep.hxx`, `init`/`run`/`finalize`/`terminate`, `src/algorep.cpp`, and the samples and tests: process bootstrap and drivers.
- `ElementType<T>`: the model passes the element's `DataType` directly, so the mapping from `T` to its tag is the identity. `Callback.TagRoundTrip` states that distinct types have distinct tags.
- Allocation.Allocator.Read: the result starts zeroed, where `new T[n]` leaves it uninitialised. Values not covered by a chunk therefore read as 0 in the model. `Allocation.ReadReassembles` shows that none remain when the chunks tile the array.
- Allocation.Allocator.Read, Write, Map and Reduce: each takes the chunk list as a parameter. Its agreement with the handle's recorded ids is not checked, because the accessors that would give it do not exist.
- Allocation.Allocator.Write: a fragment is modelled as exactly `data_bytes + ID_LEN + 8` bytes. The source writes into a vector of size 0 whose capacity was reserved, and sends `capacity()` bytes, which may exceed the request. `sizeof(T) * count` is not reduced modulo 2^64, since the data array must hold the values it copies.
- Allocation.Allocator.Write: it requires `data` to hold every value the loop as written copies (`DataFits`), including the values past `nb_elts` that the wrap-around of `nb_elts` makes it copy. So a call with a `data` array of exactly `nb_elts` values, such as `write(elt, data, 2)` over two chunks of 3, is outside the model. In the source that call reads `data[3..6)`, past the end of `data` (`Allocation.WriteTwoOfSixOverreads`).
- Allocation.Allocator.Write: the `static size_t CLOCK` of `write<T>` is a field of the allocator, one per element type. The unsynchronised access to it (marked as a TODO) is not modelled.
- Allocation.Instance.Get: the `static Allocator* instance_` is modelled as the field of an `Instance` object.
- Allocation.Allocator.constructor: `max_memory_` is left uninitialised by the source. The model states nothing about its value.
- Allocation.Allocator.Reserve:
  - It requires `nb_nodes_ <= memory_per_node_.size()`, without which the source indexes past the budget vector.
  - It requires exactly one id reply per chunk placed.
  - The unused `nb_bytes` is left out.
- Allocation.Allocator.Reserve and SetNbNodes: `nb_nodes_` is an `int`, which the model takes as unbounded.
- Algorep.ApplyCallback: `call_id` must index `MAPS` with an entry instantiated for `T`. A mismatched or out-of-range id is undefined behaviour in the source and is not modelled.
- Algorep.ApplyReduce:
  - `call_id` must index `REDUCE` with an entry for `T`, so the count-even ids cannot be applied.
  - `input` and `out` are distinct arrays, while the source would accept overlapping buffers.
- Storage.Memory.Reserve: `nb_bytes` is taken as non-negative. A negative `int` (which `std::vector` rejects) is not modelled.
- Callback.AbsValue: at the minimum of `int` or `long`, `-a` overflows, which is undefined behaviour in C++. The model returns the two's-complement wrap, the minimum itself.
- Callback.NegateValue: the same undefined overflow of `-a` at the minimum of `int` or `long` is modelled as the two's-complement wrap.
- Callback.PowValue: an overflow of `a * a` for `int` or `long` is undefined behaviour in C++, and so is `pow<unsigned short>` for operands above 46340, because the product is computed in `int`. The model takes the result modulo 2^bits in each case.
- Callback.SumValue: an overflow of `out += a` for `int` or `long` is undefined behaviour in C++. The model wraps it modulo 2^bits.
- Callback.CountEvenValue: an overflow of `out += 1` for `int` or `long` is undefined behaviour in C++. The model wraps it modulo 2^bits.
- Elements.Element.AddId: the bounds it records are `nat`s. The source stores them as `size_t`. A chunk's bounds lie inside an array of `size_t` elements, so they never reach 2^64.
- Storage.Memory.Get: `get` returns a reference, so a caller can change the stored buffer through it. The model returns the buffer's value and does not capture that aliasing.
