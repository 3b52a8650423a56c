# rolling-list, modelled in Dafny

`rolling-list` is an append-only singly linked list of fixed-capacity chunks,
written in Rust. A `List<T, CHUNK_CAPACITY>` owns a chain of `Chunk`s from
`head`. Each chunk holds a buffer of `CHUNK_CAPACITY` slots, of which
`[0, len)` are initialised, plus a `next` link. `last` is a non-owning
shortcut to the tail chunk. Elements are never moved or removed: a push
writes only to the tail, so every earlier run stays as it was. `iter`
borrows the list shared, and a traversal cursor stays valid as long as the
list is left unchanged (`Kept`).

The model follows the code's own shape:

- `concat.dfy`, module `Concatenation`: the abstract contents of a chain. It
  is the concatenation of each chunk's live run `buffer[..len]`. The module
  also holds the sequence facts the list operations need: joining chains,
  growing the last run, offsets of an element, and the length and chunk
  count of a chain built by pushes alone.
- `rolling_list.dfy`, module `RollingList`: the heap structure.
  - `Chunk` is a class with a constant `buf: array<T>` and mutable `len` and
    `next`.
  - `List` is a class with `cap` (the `CHUNK_CAPACITY` parameter), `head` and
    `last`. Its ghost state records the chain `chunks`, each chunk's live run
    `slices`, the contents `Elems` and the footprint `Repr`.
  - `Valid()` is the safety invariant the source's `unsafe` blocks rely on:
    - the chain from `head` is finite and acyclic and ends at `last`, whose
      `next` is null;
    - `head` and `last` are null together;
    - every chunk has `1 <= len <= cap`;
    - the contents are the concatenation of the live runs.
  - `push`, `append`, `extend`, `from_iter` and the `Drop` walk are methods.
    Each is proved against these ghost fields.
  - `ListIter` is the state of the `iter` closure (`(chunk, idx)` or `None`).
    Its `Next` is proved to yield the contents in order.
- `scenarios.dfy`, module `Scenarios`: the repository's two tests, restated
  as programs over the model whose results are proved, and the empty-donor
  `append` input of the finding below.

A push either writes slot `len` of the tail, links a fresh one-element chunk
after a full tail, or creates the first chunk. `append` splices the donor's
chain after the tail without copying. `iter` walks the chain slot by slot.
`Drop` reads each chunk's `next` before releasing the chunk.

## Model

| member | source | states |
|---|---|---|
| RollingList.Chunk.constructor | src/lib.rs:30-45 | a chunk of `cap` slots whose only live slot is slot 0, holding the first element, with no successor; a capacity of 0 is rejected |
| RollingList.List.Valid | src/lib.rs:48-52 | the safety invariant: acyclic chain of distinct chunks from head ending at last (next null), head and last null together, every chunk 1 <= len <= cap, contents = concatenation of live runs |
| RollingList.List.constructor | src/lib.rs:57-64 | the empty list: head and last null, no contents, valid; a capacity of 0 is rejected |
| RollingList.List.Last | src/lib.rs:67-75 | the chunk `last` points to; it is null exactly for an empty list; otherwise it has no successor and its live run is the last `len` elements of the contents |
| RollingList.List.Push | src/lib.rs:78-110 | contents gain `x` at the end and the invariant and the packed shape are kept. Every run but the old tail's is unchanged, and the old tail's run is a prefix of its new one, so no element moves, and the old chain is a prefix of the new one. With room in the tail, `x` goes into slot old len and no chunk is allocated. With a full tail, a fresh one-element chunk becomes the tail's next and the new last. With an empty list, a fresh chunk becomes both head and last |
| RollingList.List.PushIntoTail | src/lib.rs:80-95 | room in the tail: slot old len receives `x`, len grows by one, head, last, chain and footprint are unchanged, the tail's run gains `x` and every other run is unchanged, contents gain `x` |
| RollingList.List.TailGrown | src/lib.rs:93-95 | after the tail gains one live slot, with nothing else touched, the invariant and the packed shape hold again |
| RollingList.List.LinkTail | src/lib.rs:96-102 | full tail: the new chunk is linked as the old tail's next and becomes last; head unchanged, chain, runs and contents extended by it and nothing else |
| RollingList.List.TailLinked | src/lib.rs:97-101 | after the full tail links a fresh one-element chunk that becomes last, the invariant and the packed shape hold again |
| RollingList.List.LinkFirst | src/lib.rs:103-109 | empty list (no runs before): the new chunk becomes head and last, its one-element run is the only run, the contents are its one element |
| RollingList.List.Extend | src/lib.rs:216-227 | pushing every element in order: contents are old contents followed by the input, invariant and packed shape kept, the old chain kept as a prefix of the new one (so head is unchanged on a non-empty list), every run before the old tail unchanged and the old tail's run a prefix of its new one |
| RollingList.List.FromIter | src/lib.rs:229-239 | a new list holding exactly the input, in order, packed |
| RollingList.List.PackedChunkCount | src/lib.rs:78-110 | a list built by pushes alone has ceil(N / cap) chunks and its tail holds N - cap * (chunks - 1) elements |
| RollingList.List.AppendAsWritten | src/lib.rs:114-127 | the splice as written: head kept (or the donor's when the receiver is empty), last becomes the donor's last, the old tail keeps its len and its next becomes the donor's head, chains and contents concatenated; valid when the receiver is empty or the donor non-empty; with a non-empty receiver and an empty donor, head is set while last is null |
| RollingList.List.SpliceAfterTail | src/lib.rs:116-120 | non-empty receiver: its tail links to the donor's head and last becomes the donor's last; valid when the donor is non-empty, head set and last null when it is empty |
| RollingList.List.HeadWithoutLast | src/lib.rs:116-120 | a list with a head but no last chunk violates the invariant: the state the splice as written leaves on an empty donor |
| RollingList.List.Absorbed | src/lib.rs:114-127 | a splice with an empty donor only grows the footprint by the donor's, and the invariant still holds |
| RollingList.List.NotPacked | src/lib.rs:116-120 | a non-tail chunk that is not full makes the list unpacked, the shape a splice after a partly filled tail leaves |
| RollingList.List.Spliced | src/lib.rs:118-119 | after the old tail is linked to a non-empty, disjoint donor chain, the joined chain satisfies the invariant |
| RollingList.List.TakeOver | src/lib.rs:121-126 | empty receiver: it becomes the donor (head, last, chain, contents), and was empty before |
| RollingList.List.Adopted | src/lib.rs:122 | an empty receiver that takes over a valid donor's fields is valid |
| RollingList.List.Append | src/lib.rs:114-127 | corrected splice: always valid, contents and chains concatenated, head the receiver's unless it was empty, last the donor's unless the donor was empty, the old tail's len untouched and linked to the donor's head |
| RollingList.List.ElemAt | src/lib.rs:158-161 | slot `i < len` of chunk `k` holds the contents' element at offset (sum of earlier runs) + i |
| RollingList.List.ChunkEnd | src/lib.rs:163-171 | leaving chunk `k` advances the offset by its len; its next is chunk k + 1, or null exactly after the tail, where the offset is the length of the contents |
| RollingList.List.AtStart | src/lib.rs:133-146 | the initial state (head, slot 0) is a cursor at offset 0, and is past the end exactly for the empty list |
| RollingList.List.AtStep | src/lib.rs:147-176 | a cursor on a live slot reads the element at its offset; stepping to the next slot, or past a chunk's last live slot to slot 0 of its next, moves it to the next offset |
| RollingList.List.Kept | src/lib.rs:131 | a traversal holds only shared access: a cursor stays valid while the list is unchanged |
| RollingList.List.Iter | src/lib.rs:131-146 | a fresh traversal starting at offset 0 of this list |
| RollingList.ListIter.constructor | src/lib.rs:134-146 | the closure state starts at (head, 0), or at the end for an empty list |
| RollingList.ListIter.Next | src/lib.rs:147-176 | yields the element at the current offset and advances by one, or returns none exactly at the end. Within a chunk, idx grows by one. After the chunk's last live slot, it moves to (next, 0) |
| RollingList.List.Collect | src/lib.rs:131-178 | one traversal, run to the end, yields exactly the contents, in order |
| RollingList.List.Drop | src/lib.rs:181-214 | the teardown walk drops exactly the contents, in order, and releases each chunk of the chain once |
| Scenarios.Basic | src/tests.rs:3-29 | for every capacity, collecting 1..5 and iterating gives 1..5, and tearing down drops each of them |
| Scenarios.AppendTwoRuns | src/tests.rs:31-48 | with capacity 37, 0..103 spliced with 598..700 iterates as their concatenation, in 6 chunks, and is no longer packed |
| Scenarios.EmptyDonorAsWritten | src/lib.rs:116-120 | with receiver [0] and an empty donor, the splice as written leaves head set and last null |
| Scenarios.EmptyDonorCorrected | src/lib.rs:114-127 | on the same input the corrected splice keeps the list, and a later push lands after its element |

## Left out

- Raw pointers, `Box`, `MaybeUninit` and `UnsafeCell`: chunks are heap objects, and slots at or past `len` hold don't-care values. The soundness of the `unsafe` blocks is expressed as the invariant `Valid`.
- The `CHUNK_CAPACITY` const generic is the field `cap`. That two lists share a type, and so a capacity, becomes the requirement `other.cap == cap` on `append`. That the donor is moved in becomes `Repr !! other.Repr`. That it is consumed becomes its footprint being absorbed into the receiver's.
- `assert_ne!(CHUNK_CAPACITY, 0)` in `Chunk::new` and `List::new` panics. The model makes `cap != 0` a precondition instead.
- The debug-only `self.last = None` at the start of `drop` (lines 185-187) and every `debug_assert!` are left out. On a valid list none of them changes a result. The one at line 124 does fire in debug builds when a list left with a head but no last chunk (see Findings) is appended to again; that panic is not modelled.
- Releasing memory in `Drop` is modelled as the ghost sequence `released`. `Drop` itself changes nothing in the model.
- Panics in an element's destructor and unwinding are not modelled. Allocation failure is not modelled either.
- The `IntoIterator for &List` impl (lines 241-250) only calls `iter`. The marker-trait impls (lines 252-290) carry no behaviour. Neither is modelled.
- Generic `IntoIterator` inputs of `extend` and `from_iter` are modelled as a `seq`. The adaptors the tests chain onto `iter` (`map`, `collect`) are modelled as `Collect`, one traversal run to its end.
- The tests' `LeakChecker` (tests.rs:50-142) is not modelled. Each element being dropped exactly once is stated by `Drop`'s contract instead.

## Findings

| source | as written | input that shows it | evidently intended | confidence | as-written member | corrected member |
|---|---|---|---|---|---|---|
| src/lib.rs:116-120 | on a non-empty receiver, `append` sets `self.last = other.last` unconditionally, so an empty donor clears `last` while `head` stays set; the next `push` sees no tail, allocates a new chunk and overwrites `head`, losing the old chain | receiver holding [0] (any capacity), donor empty | an empty donor leaves the receiver unchanged | high (not executed) | RollingList.List.AppendAsWritten, Scenarios.EmptyDonorAsWritten | RollingList.List.Append, Scenarios.EmptyDonorCorrected |
