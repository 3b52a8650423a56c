/** A chunked, append-only list: a chain of fixed-capacity chunks owned from
    `head`, with `last` a non-owning cache of the tail chunk. */
module RollingList {
  import opened Concatenation

  datatype Option<T> = None | Some(value: T)

  /** A fixed-capacity buffer whose slots [0, len) are live, and a link to
      the following chunk. Slots at or beyond `len` hold don't-care values. */
  class Chunk<T> {
    const buf: array<T>
    var len: nat
    var next: Chunk?<T>

    /** A chunk holding exactly `first`, in slot 0, with no successor. A
        capacity of 0 is a configuration error. */
    constructor (cap: nat, first: T)
      requires cap != 0
      ensures fresh(buf) && buf.Length == cap
      ensures len == 1 && buf[0] == first && next == null
    {
      buf := new T[cap](_ => first);
      len := 1;
      next := null;
    }
  }

  class List<T> {
    /** CHUNK_CAPACITY: the capacity of every chunk of the list. */
    const cap: nat
    var head: Chunk?<T>
    var last: Chunk?<T>

    /** The chain from `head`, in order. */
    ghost var chunks: seq<Chunk<T>>
    /** The live run buffer[..len] of each chunk of `chunks`. */
    ghost var slices: seq<seq<T>>
    /** The abstract contents. */
    ghost var Elems: seq<T>
    ghost var Repr: set<object>

    /** The representation invariant: head and last are both null exactly
        when there is no chunk; the chain from head is finite, acyclic and
        ends at last, whose next is null; every chunk holds 1 <= len <= cap
        live elements; the contents are the concatenation of the live runs. */
    ghost predicate Valid()
      reads this, Repr
      ensures Valid() ==> this in Repr
    {
      this in Repr &&
      cap != 0 &&
      |slices| == |chunks| &&
      (forall i :: 0 <= i < |chunks| ==> chunks[i] in Repr && chunks[i].buf in Repr) &&
      (forall i :: 0 <= i < |chunks| ==>
        chunks[i].buf.Length == cap && 1 <= chunks[i].len <= cap &&
        slices[i] == chunks[i].buf[..chunks[i].len]) &&
      (forall i :: 0 <= i < |chunks| - 1 ==> chunks[i].next == chunks[i + 1]) &&
      (forall i, j :: 0 <= i < j < |chunks| ==> chunks[i] != chunks[j] && chunks[i].buf != chunks[j].buf) &&
      (head == null <==> chunks == []) &&
      (last == null <==> chunks == []) &&
      (chunks != [] ==> head == chunks[0] && last == chunks[|chunks| - 1] && last.next == null) &&
      Elems == Concat(slices)
    }

    /** Every chunk but the tail is full: true of lists built by pushes
        alone, but not kept by `Append`. */
    ghost predicate Packed()
      reads this
    {
      Concatenation.Packed(slices, cap)
    }

    /** An empty list: no head and no last chunk. */
    constructor (cap: nat)
      requires cap != 0
      ensures Valid() && fresh(Repr)
      ensures this.cap == cap && head == null && last == null && Elems == [] && Packed()
    {
      this.cap := cap;
      head, last := null, null;
      chunks, slices, Elems := [], [], [];
      Repr := {this};
    }

    /** The tail chunk, or null for the empty list: the chunk holding the
        last `len` elements of the contents, with no successor. */
    function Last(): (c: Chunk?<T>)
      reads this, Repr
      requires Valid()
      ensures c == null <==> Elems == []
      ensures c == last
      ensures c == null <==> head == null
      ensures c != null ==>
        c in Repr && c.next == null && c.buf.Length == cap && 1 <= c.len <= cap && c.len <= |Elems| &&
        Elems[|Elems| - c.len..] == c.buf[..c.len]
    {
      ConcatEmpty(slices, cap);
      if last != null then
        assert Elems == Concat(slices[..|slices| - 1]) + slices[|slices| - 1];
        last
      else
        null
    }

    /** Adds `x` at the end: in place when the tail has room, otherwise into a
        new one-element chunk linked after the tail. */
    method Push(x: T)
      requires Valid()
      modifies Repr
      ensures Valid() && fresh(Repr - old(Repr))
      ensures Elems == old(Elems) + [x]
      ensures old(Packed()) ==> Packed()
      ensures Grown(old(slices), slices) && old(chunks) <= chunks
      ensures old(last) != null && old(last.len) < cap ==>
        Repr == old(Repr) && head == old(head) && last == old(last) && chunks == old(chunks) &&
        last.len == old(last.len) + 1 && last.buf[old(last.len)] == x
      ensures old(last) != null && old(last.len) == cap ==>
        head == old(head) && fresh(last) && old(last).next == last &&
        chunks == old(chunks) + [last] && last.len == 1 && last.buf[0] == x
      ensures old(last) == null ==>
        fresh(head) && head == last && chunks == [head] && head.len == 1 && head.buf[0] == x
    {
      var t := Last();
      if t != null {
        if t.len < cap {
          PushIntoTail(x);
        } else {
          var c := new Chunk(cap, x);
          LinkTail(c);
        }
      } else {
        var c := new Chunk(cap, x);
        LinkFirst(c);
      }
    }

    /** The tail has room: `x` goes into slot `len`, which is then counted
        as live. No chunk is allocated and head, last are unchanged. */
    method PushIntoTail(x: T)
      requires Valid() && last != null && last.len < cap
      modifies this, last, last.buf
      ensures Valid() && Repr == old(Repr)
      ensures Elems == old(Elems) + [x]
      ensures old(Packed()) ==> Packed()
      ensures head == old(head) && last == old(last) && chunks == old(chunks)
      ensures last.len == old(last.len) + 1 && last.buf[old(last.len)] == x
      ensures slices == old(slices)[|slices| - 1 := old(slices)[|slices| - 1] + [x]]
    {
      ghost var t := last;
      ghost var run := t.buf[..t.len];
      var len := last.len;
      last.buf[len] := x;
      last.len := len + 1;
      assert t.buf[..len + 1] == run + [x];
      slices, Elems := slices[|slices| - 1 := t.buf[..len + 1]], Elems + [x];
      TailGrown(t, x);
    }

    /** The step of PushIntoTail that re-establishes the invariant: the tail
        `t` gained `x` in slot old(len), and no other chunk changed. */
    twostate lemma TailGrown(new t: Chunk<T>, new x: T)
      requires old(Valid()) && old(last) == t && old(t.len) < cap
      requires head == old(head) && last == t && chunks == old(chunks) && Repr == old(Repr)
      requires t.len == old(t.len) + 1 && t.next == old(t.next)
      requires t.buf[..t.len] == old(t.buf[..t.len]) + [x]
      requires slices == old(slices)[|chunks| - 1 := t.buf[..t.len]] && Elems == old(Elems) + [x]
      requires unchanged(old(Repr) - {this, t} - {t.buf})
      ensures Valid() && (old(Packed()) ==> Packed())
    {
      ConcatGrowLast(old(slices), x);
      forall i | 0 <= i < |chunks| - 1
        ensures slices[i] == chunks[i].buf[..chunks[i].len]
      {
        assert slices[i] == old(slices)[i];
      }
    }

    /** The tail is full: the new one-element chunk `c` is linked as the old
        tail's next and becomes last; head is untouched. */
    method LinkTail(c: Chunk<T>)
      requires Valid() && last != null && last.len == cap
      requires c !in Repr && c.buf !in Repr && c.buf.Length == cap && c.len == 1 && c.next == null
      modifies this, last
      ensures Valid() && Repr == old(Repr) + {c, c.buf}
      ensures Elems == old(Elems) + [c.buf[0]]
      ensures old(Packed()) ==> Packed()
      ensures head == old(head) && last == c && old(last).next == c
      ensures chunks == old(chunks) + [c] && slices == old(slices) + [[c.buf[0]]]
    {
      ghost var t := last;
      last.next, last := c, c;
      assert c.buf[..1] == [c.buf[0]];
      chunks, slices, Elems, Repr := chunks + [c], slices + [c.buf[..1]], Elems + c.buf[..1], Repr + {c, c.buf};
      TailLinked(c, t);
    }

    /** The step of LinkTail that re-establishes the invariant: the full tail
        `t` now links to the new chunk `c`, which is the new tail. */
    twostate lemma TailLinked(new c: Chunk<T>, new t: Chunk<T>)
      requires old(Valid()) && old(last) == t && old(t.len) == cap
      requires c !in old(Repr) && c.buf !in old(Repr) && c.buf.Length == cap && c.len == 1 && c.next == null
      requires head == old(head) && last == c && t.next == c && t.len == old(t.len)
      requires chunks == old(chunks) + [c] && slices == old(slices) + [c.buf[..1]]
      requires Elems == old(Elems) + c.buf[..1] && Repr == old(Repr) + {c, c.buf}
      requires unchanged(old(Repr) - {this, t})
      ensures Valid() && (old(Packed()) ==> Packed())
    {
      ConcatSnoc(old(slices), c.buf[..1]);
      forall i | 0 <= i < |chunks| - 1
        ensures slices[i] == chunks[i].buf[..chunks[i].len]
      {
        assert chunks[i] == old(chunks)[i] && slices[i] == old(slices)[i];
      }
    }

    /** The list is empty: the new one-element chunk `c` becomes both head
        and last. */
    method LinkFirst(c: Chunk<T>)
      requires Valid() && last == null
      requires c !in Repr && c.buf !in Repr && c.buf.Length == cap && c.len == 1 && c.next == null
      modifies this
      ensures Valid() && Repr == old(Repr) + {c, c.buf}
      ensures Elems == [c.buf[0]] && Packed()
      ensures head == c && last == c && chunks == [c] && slices == [[c.buf[0]]]
      ensures old(slices) == []
    {
      ConcatEmpty(slices, cap);
      assert c.buf[..1] == [c.buf[0]];
      ConcatSnoc([], [c.buf[0]]);
      head, last, chunks, slices, Elems, Repr :=
        c, c, [c], [[c.buf[0]]], [c.buf[0]], Repr + {c, c.buf};
    }

    /** Pushes every element of `xs`, in order. */
    method Extend(xs: seq<T>)
      requires Valid()
      modifies Repr
      ensures Valid() && fresh(Repr - old(Repr))
      ensures Elems == old(Elems) + xs
      ensures old(Packed()) ==> Packed()
      ensures Grown(old(slices), slices) && old(chunks) <= chunks
      ensures old(head) != null ==> head == old(head)
    {
      for i := 0 to |xs|
        invariant Valid() && fresh(Repr - old(Repr))
        invariant Elems == old(Elems) + xs[..i]
        invariant old(Packed()) ==> Packed()
        invariant Grown(old(slices), slices) && old(chunks) <= chunks
        invariant old(head) != null ==> head == old(head)
      {
        ghost var before := slices;
        Push(xs[i]);
        GrownTrans(old(slices), before, slices);
        AppendPrefixSnoc(old(Elems), xs, i);
      }
      assert xs[..|xs|] == xs;
    }

    /** A new list holding `xs`: `new` followed by `Extend`. */
    static method FromIter(cap: nat, xs: seq<T>) returns (l: List<T>)
      requires cap != 0
      ensures l.Valid() && fresh(l.Repr)
      ensures l.cap == cap && l.Elems == xs && l.Packed()
    {
      l := new List(cap);
      l.Extend(xs);
    }

    /** A list built by pushes alone has ceil(N / cap) chunks, the tail
        holding N - cap * (chunks - 1) elements. */
    lemma PackedChunkCount()
      requires Valid() && Packed()
      ensures |chunks| == (|Elems| + cap - 1) / cap
      ensures last != null ==> last.len == |Elems| - cap * (|chunks| - 1)
    {
      PackedCount(slices, cap);
    }

    /** A chunk before the tail that is not full makes the list unpacked:
        the shape `Append` can leave behind. */
    lemma NotPacked(k: nat)
      requires Valid() && k + 1 < |chunks| && chunks[k].len < cap
      ensures !Packed()
    {
      assert |slices[k]| == chunks[k].len;
    }

    /** A head without a last chunk is outside the invariant: the state the
        splice as written leaves behind on an empty donor. */
    lemma HeadWithoutLast()
      requires head != null && last == null
      ensures !Valid()
    {
    }

    /** The splice exactly as written in the source: without a check that the
        donor is non-empty. With a non-empty receiver and an empty donor it
        clears the receiver's `last` while `head` stays set, which breaks the
        invariant. */
    method AppendAsWritten(other: List<T>)
      requires Valid() && other.Valid() && other.cap == cap && Repr !! other.Repr
      modifies this, last
      ensures head == (if old(head) == null then old(other.head) else old(head))
      ensures last == old(other.last)
      ensures old(last) != null ==> old(last).next == old(other.head) && old(last).len == old(last.len)
      ensures chunks == old(chunks) + old(other.chunks) && Elems == old(Elems) + old(other.Elems)
      ensures Repr == old(Repr) + old(other.Repr)
      ensures old(head) == null ==> Valid()
      ensures old(other.head) != null ==> Valid()
      ensures old(head) != null && old(other.head) == null ==> head != null && last == null
    {
      var t := Last();
      if t != null {
        SpliceAfterTail(other);
      } else {
        TakeOver(other);
      }
    }

    /** The receiver is non-empty: its tail's next becomes the donor's head
        and its last the donor's last. */
    method SpliceAfterTail(other: List<T>)
      requires Valid() && other.Valid() && other.cap == cap && Repr !! other.Repr
      requires last != null
      modifies last, this
      ensures head == old(head) && last == old(other.last)
      ensures old(last).next == old(other.head) && old(last).len == old(last.len)
      ensures chunks == old(chunks) + old(other.chunks) && Elems == old(Elems) + old(other.Elems)
      ensures Repr == old(Repr) + old(other.Repr)
      ensures old(other.head) != null ==> Valid()
      ensures old(other.head) == null ==> head != null && last == null
    {
      ghost var t := last;
      last.next, last, chunks, slices, Elems, Repr :=
        other.head, other.last, chunks + other.chunks, slices + other.slices, Elems + other.Elems, Repr + other.Repr;
      if other.head != null {
        Spliced(other, t);
      }
    }

    /** The receiver is empty: it becomes the donor. */
    method TakeOver(other: List<T>)
      requires Valid() && other.Valid() && other.cap == cap && Repr !! other.Repr
      requires head == null
      modifies this
      ensures head == old(other.head) && last == old(other.last)
      ensures chunks == old(chunks) + old(other.chunks) && Elems == old(Elems) + old(other.Elems)
      ensures chunks == old(other.chunks) && Elems == old(other.Elems)
      ensures old(chunks) == [] && old(Elems) == []
      ensures Repr == old(Repr) + old(other.Repr)
      ensures Valid()
    {
      ConcatEmpty(slices, cap);
      EmptyAppend(chunks, other.chunks);
      EmptyAppend(Elems, other.Elems);
      head, last, chunks, slices, Elems, Repr :=
        other.head, other.last, other.chunks, other.slices, other.Elems, Repr + other.Repr;
      Adopted(other);
    }

    /** The step of a splice onto a non-empty receiver that re-establishes
        the invariant: the old tail `t` links to the donor's head. */
    twostate lemma Spliced(other: List<T>, new t: Chunk<T>)
      requires old(Valid()) && old(other.Valid()) && other.cap == cap && old(Repr) !! old(other.Repr)
      requires old(last) == t && t.next == old(other.head) && old(other.head) != null
      requires head == old(head) && last == old(other.last) && t.len == old(t.len)
      requires chunks == old(chunks) + old(other.chunks) && slices == old(slices) + old(other.slices)
      requires Elems == old(Elems) + old(other.Elems) && Repr == old(Repr) + old(other.Repr)
      requires unchanged(old(Repr) - {this, t}) && unchanged(old(other.Repr))
      ensures Valid()
    {
      ConcatAppend(old(slices), old(other.slices));
      var n := |old(chunks)|;
      forall i | 0 <= i < |chunks|
        ensures chunks[i].buf.Length == cap && 1 <= chunks[i].len <= cap
        ensures slices[i] == chunks[i].buf[..chunks[i].len]
      {
        if i < n {
          assert chunks[i] == old(chunks)[i] && slices[i] == old(slices)[i];
        } else {
          assert chunks[i] == old(other.chunks)[i - n] && slices[i] == old(other.slices)[i - n];
        }
      }
    }

    /** The step of a splice onto an empty receiver: it takes over the
        donor's head and last. */
    twostate lemma Adopted(other: List<T>)
      requires old(Valid()) && old(other.Valid()) && other.cap == cap && old(Repr) !! old(other.Repr)
      requires old(head) == null
      requires head == old(other.head) && last == old(other.last)
      requires chunks == old(other.chunks) && slices == old(other.slices) && Elems == old(other.Elems)
      requires Repr == old(Repr) + old(other.Repr)
      requires unchanged(old(other.Repr))
      ensures Valid()
    {
    }

    /** The step of a splice with an empty donor: only the footprint grows,
        by the donor's, and the invariant still holds. */
    twostate lemma Absorbed(new extra: set<object>)
      requires old(Valid())
      requires head == old(head) && last == old(last) && chunks == old(chunks)
      requires slices == old(slices) && Elems == old(Elems) && Repr == old(Repr) + extra
      requires unchanged(old(Repr) - {this})
      ensures Valid()
    {
    }

    /** Splices `other`'s chain after this list's tail, copying nothing. An
        empty donor leaves the chain as it was; an empty receiver takes over
        the donor's head and last. The donor is consumed. */
    method Append(other: List<T>)
      requires Valid() && other.Valid() && other.cap == cap && Repr !! other.Repr
      modifies this, last
      ensures Valid() && Repr == old(Repr) + old(other.Repr)
      ensures Elems == old(Elems) + old(other.Elems)
      ensures chunks == old(chunks) + old(other.chunks)
      ensures head == (if old(head) == null then old(other.head) else old(head))
      ensures last == (if old(other.last) == null then old(last) else old(other.last))
      ensures old(last) != null ==> old(last).len == old(last.len)
      ensures old(last) != null && old(other.head) != null ==> old(last).next == old(other.head)
    {
      if other.head == null {
        ConcatEmpty(other.slices, cap);
        assert other.chunks == [] && other.Elems == [];
        ghost var extra := other.Repr;
        Repr := Repr + extra;
        Absorbed(extra);
        return;
      }
      AppendAsWritten(other);
    }

    /** Element `i` of chunk `k` sits at offset |Concat(slices[..k])| + i of
        the contents. */
    lemma ElemAt(k: nat, i: nat)
      requires Valid() && k < |chunks| && i < chunks[k].len
      ensures |Concat(slices[..k])| + i < |Elems|
      ensures Elems[|Concat(slices[..k])| + i] == chunks[k].buf[i]
    {
      ConcatAt(slices, k, i);
    }

    /** Leaving chunk `k` advances the offset by its len and follows its
        next link, which is null exactly after the tail. */
    lemma ChunkEnd(k: nat)
      requires Valid() && k < |chunks|
      ensures |Concat(slices[..k + 1])| == |Concat(slices[..k])| + chunks[k].len
      ensures k + 1 < |chunks| ==> chunks[k].next == chunks[k + 1]
      ensures k + 1 == |chunks| ==> chunks[k].next == null && |Concat(slices[..k + 1])| == |Elems|
    {
      ConcatPrefixStep(slices, k);
      if k + 1 == |chunks| {
        assert slices[..k + 1] == slices;
      }
    }

    /** A traversal cursor: `c` is chunk `k` of the chain, `idx` a live slot
        of it, and `pos` the offset of that slot in the contents; or `c` is
        null and the cursor stands past the last element. */
    ghost predicate At(c: Chunk?<T>, idx: nat, k: nat, pos: nat)
      reads this, Repr
      requires Valid()
    {
      pos <= |Elems| &&
      (c == null <==> pos == |Elems|) &&
      (c != null ==>
        k < |chunks| && c == chunks[k] && idx < c.len &&
        pos == |Concat(slices[..k])| + idx)
    }

    /** The cursor at slot 0 of the head chunk stands at offset 0. */
    lemma AtStart()
      requires Valid()
      ensures At(head, 0, 0, 0)
    {
      ConcatEmpty(slices, cap);
      assert slices[..0] == [];
    }

    /** A cursor on a live slot reads the element at its offset, and one step
        (to the next slot of the chunk, else to slot 0 of the next chunk)
        moves it to the next offset. */
    lemma AtStep(c: Chunk<T>, idx: nat, k: nat, pos: nat)
      requires Valid() && At(c, idx, k, pos)
      ensures pos < |Elems| && idx < c.len <= c.buf.Length && Elems[pos] == c.buf[idx]
      ensures idx + 1 < c.len ==> At(c, idx + 1, k, pos + 1)
      ensures idx + 1 >= c.len ==> At(c.next, 0, k + 1, pos + 1)
    {
      ElemAt(k, idx);
      if idx + 1 < c.len {
        ElemAt(k, idx + 1);
      } else {
        ChunkEnd(k);
        if k + 1 < |chunks| {
          ElemAt(k + 1, 0);
        }
      }
    }

    /** A cursor stays where it is while the list is left alone. */
    twostate lemma Kept(c: Chunk?<T>, new idx: nat, new k: nat, new pos: nat)
      requires old(Valid()) && old(At(c, idx, k, pos))
      requires unchanged(this) && unchanged(old(Repr))
      ensures Valid() && At(c, idx, k, pos)
    {
    }

    /** A fresh traversal from the head. */
    method Iter() returns (it: ListIter<T>)
      requires Valid()
      ensures fresh(it) && it.Valid() && it.list == this && it.pos == 0
    {
      it := new ListIter(this);
    }

    /** Runs one traversal to its end: it yields the contents, in order. */
    method Collect() returns (s: seq<T>)
      requires Valid()
      ensures s == Elems
    {
      var it := Iter();
      s := [];
      while true
        invariant it.Valid() && it.list == this && fresh(it)
        invariant s == Elems[..it.pos]
        decreases |Elems| - it.pos
      {
        ghost var p := it.pos;
        var r := it.Next();
        if r.None? {
          break;
        }
        PrefixSnoc(Elems, p);
        s := s + [r.value];
      }
    }

    /** Teardown: walks the chain once from `head`, reading each chunk's
        `next` before releasing it, and drops each chunk's live run. Returns
        the elements dropped and (as ghost) the chunks released, in order. */
    method Drop() returns (dropped: seq<T>, ghost released: seq<Chunk<T>>)
      requires Valid()
      ensures dropped == Elems
      ensures released == chunks
      ensures forall i, j :: 0 <= i < j < |released| ==> released[i] != released[j]
    {
      var cursor := head;
      dropped, released := [], [];
      ghost var k := 0;
      while cursor != null
        invariant 0 <= k <= |chunks|
        invariant cursor == (if k < |chunks| then chunks[k] else null)
        invariant released == chunks[..k]
        invariant dropped == Concat(slices[..k])
        decreases |chunks| - k
      {
        var chunk := cursor;
        cursor := chunk.next;
        ConcatPrefixStep(slices, k);
        dropped := dropped + chunk.buf[..chunk.len];
        released := released + [chunk];
        k := k + 1;
      }
      assert slices[..k] == slices && chunks[..k] == chunks;
    }
  }

  /** The state of one traversal (the `from_fn` closure of `iter`): the
      current chunk and slot, null once exhausted. */
  class ListIter<T> {
    ghost const list: List<T>
    var chunk: Chunk?<T>
    var idx: nat
    /** Index of `chunk` in the chain. */
    ghost var k: nat
    /** How many elements have been yielded. */
    ghost var pos: nat

    ghost predicate Valid()
      reads this, list, list.Repr
    {
      list.Valid() && this !in list.Repr && pos <= |list.Elems| &&
      list.At(chunk, idx, k, pos)
    }

    constructor (l: List<T>)
      requires l.Valid()
      ensures Valid() && list == l && pos == 0 && chunk == l.head && idx == 0
    {
      list := l;
      chunk := l.head;
      idx, k, pos := 0, 0, 0;
      new;
      l.AtStart();
    }

    /** Yields the element at (chunk, idx), then moves to the next slot, or
        to the next chunk with idx 0 once idx + 1 reaches the chunk's len. */
    method Next() returns (r: Option<T>)
      requires Valid()
      modifies this
      ensures Valid()
      ensures old(pos) < |list.Elems| ==> r == Some(list.Elems[old(pos)]) && pos == old(pos) + 1
      ensures old(pos) == |list.Elems| ==> r == None && pos == old(pos)
      ensures old(chunk) != null && old(idx) + 1 >= old(chunk.len) ==> chunk == old(chunk.next) && idx == 0
      ensures old(chunk) != null && old(idx) + 1 < old(chunk.len) ==> chunk == old(chunk) && idx == old(idx) + 1
    {
      if chunk == null {
        return None;
      }
      var c := chunk;
      list.AtStep(c, idx, k, pos);
      var x := c.buf[idx];
      if idx + 1 >= c.len {
        chunk, idx, k, pos := c.next, 0, k + 1, pos + 1;
      } else {
        idx, pos := idx + 1, pos + 1;
      }
      list.Kept(chunk, idx, k, pos);
      r := Some(x);
    }
  }
}
