/** The p-way driver of `scrypt`: the working buffer `b` of `p * r128` bytes
    is cut into `p` contiguous `r128`-byte chunks and ROMix rewrites each chunk
    in place (lib.rs:104-106). Chunks are numbered from 0; `count` is the
    number of chunks and `size` their length, so a buffer of `count` chunks
    has `Offset(count, size)` (that is, `count * size`) bytes. */
module Chunks {
  import opened Types
  import opened Primitives

  /** Where chunk `k` starts: `k` chunks of `size` bytes laid end to end. */
  function Offset(k: nat, size: nat): nat
  {
    if k == 0 then 0 else Offset(k - 1, size) + size
  }

  /** The chunks are laid out at multiples of their length. */
  lemma {:induction false} OffsetIsProduct(k: nat, size: nat)
    ensures Offset(k, size) == k * size
  {
    if k > 0 {
      OffsetIsProduct(k - 1, size);
      assert k * size == (k - 1) * size + size;
    }
  }

  /** A later chunk starts no earlier than the end of an earlier one. */
  lemma {:induction false} OffsetMono(a: nat, b: nat, size: nat)
    requires a < b
    ensures Offset(a, size) + size <= Offset(b, size)
    decreases b
  {
    if a + 1 < b {
      OffsetMono(a, b - 1, size);
    }
  }

  /** Chunk `k` of `count` ends inside a buffer of `count` chunks. */
  lemma ChunkInside(k: nat, count: nat, size: nat)
    requires k < count
    ensures Offset(k, size) + size <= Offset(count, size)
  {
    if k + 1 < count {
      OffsetMono(k + 1, count, size);
    }
  }

  /** Chunk `k` of `b`, as the `k`-th item of `b.chunks_mut(size)`. */
  function Chunk(b: seq<uint8>, count: nat, size: nat, k: nat): (c: seq<uint8>)
    requires |b| == Offset(count, size) && k < count
    ensures |c| == size
    ensures Offset(k, size) + size <= |b|
    ensures forall i :: 0 <= i < size ==> c[i] == b[Offset(k, size) + i]
  {
    ChunkInside(k, count, size);
    b[Offset(k, size) .. Offset(k, size) + size]
  }

  /** `b` with chunk `k` overwritten by `c`, as a write through the `k`-th
      mutable chunk leaves it. */
  function ReplaceChunk(b: seq<uint8>, count: nat, size: nat, k: nat, c: seq<uint8>): (r: seq<uint8>)
    requires |b| == Offset(count, size) && k < count && |c| == size
    ensures |r| == |b|
    ensures Chunk(r, count, size, k) == c
    ensures forall i :: 0 <= i < |b| && !(Offset(k, size) <= i < Offset(k, size) + size) ==> r[i] == b[i]
  {
    ChunkInside(k, count, size);
    var at := Offset(k, size);
    var r := b[..at] + c + b[at + size..];
    assert r[at .. at + size] == c;
    r
  }

  /** A window of `b` that does not meet the replaced window
      `[at, at + |c|)` is unchanged. */
  lemma SliceOutsideReplaced(b: seq<uint8>, at: nat, c: seq<uint8>, from: nat, len: nat)
    requires at + |c| <= |b| && from + len <= |b|
    requires from + len <= at || at + |c| <= from
    ensures (b[..at] + c + b[at + |c|..])[from .. from + len] == b[from .. from + len]
  {
    var r := b[..at] + c + b[at + |c|..];
    assert |r| == |b|;
    forall i | from <= i < from + len
      ensures r[i] == b[i]
    {
      if i < at {
        assert r[i] == b[..at][i];
      } else {
        assert r[i] == b[at + |c|..][i - at - |c|];
      }
    }
  }

  /** Overwriting chunk `k` leaves chunk `j` as it was. */
  lemma ReplaceChunkKeepsOther(b: seq<uint8>, count: nat, size: nat, k: nat, c: seq<uint8>, j: nat)
    requires |b| == Offset(count, size) && k < count && |c| == size
    requires j < count && j != k
    ensures Chunk(ReplaceChunk(b, count, size, k, c), count, size, j) == Chunk(b, count, size, j)
  {
    ChunkInside(j, count, size);
    ChunkInside(k, count, size);
    if j < k {
      OffsetMono(j, k, size);
    } else {
      OffsetMono(k, j, size);
    }
    SliceOutsideReplaced(b, Offset(k, size), c, Offset(j, size), size);
  }

  /** Overwriting chunk `k` leaves every other chunk as it was. */
  lemma ReplaceChunkKeepsOthers(b: seq<uint8>, count: nat, size: nat, k: nat, c: seq<uint8>)
    requires |b| == Offset(count, size) && k < count && |c| == size
    ensures forall j :: 0 <= j < count && j != k ==>
      Chunk(ReplaceChunk(b, count, size, k, c), count, size, j) == Chunk(b, count, size, j)
  {
    forall j | 0 <= j < count && j != k
      ensures Chunk(ReplaceChunk(b, count, size, k, c), count, size, j) == Chunk(b, count, size, j)
    {
      ReplaceChunkKeepsOther(b, count, size, k, c, j);
    }
  }

  /** Byte `i` of a buffer of `count` chunks is byte `o` of some chunk `k`. */
  lemma {:induction false} IndexInChunk(i: nat, count: nat, size: nat) returns (k: nat, o: nat)
    requires i < Offset(count, size)
    ensures k < count && o < size && i == Offset(k, size) + o
    decreases count
  {
    if i >= Offset(count - 1, size) {
      k, o := count - 1, i - Offset(count - 1, size);
    } else {
      k, o := IndexInChunk(i, count - 1, size);
    }
  }

  /** Byte `o` of chunk `k` is byte `Offset(k, size) + o` of the buffer. */
  lemma ChunkByte(b: seq<uint8>, count: nat, size: nat, k: nat, o: nat)
    requires |b| == Offset(count, size) && k < count && o < size
    ensures Offset(k, size) + o < |b|
    ensures Chunk(b, count, size, k)[o] == b[Offset(k, size) + o]
  {
    ChunkInside(k, count, size);
  }

  /** Two buffers cut into the same chunks are the same buffer. */
  lemma ChunksDetermine(a: seq<uint8>, b: seq<uint8>, count: nat, size: nat)
    requires |a| == Offset(count, size) && |b| == Offset(count, size)
    requires forall k :: 0 <= k < count ==> Chunk(a, count, size, k) == Chunk(b, count, size, k)
    ensures a == b
  {
    forall i | 0 <= i < |a|
      ensures a[i] == b[i]
    {
      var k, o := IndexInChunk(i, count, size);
      ChunkByte(a, count, size, k, o);
      ChunkByte(b, count, size, k, o);
    }
  }

  /** ROMix run on chunk `k` of `b`, written back into chunk `k`. */
  function MixChunk(b: seq<uint8>, count: nat, size: nat, k: nat, n: nat, romix: RoMix): (r: seq<uint8>)
    requires |b| == Offset(count, size) && k < count
    ensures |r| == |b|
    ensures Chunk(r, count, size, k) == romix(Chunk(b, count, size, k), n)
    ensures forall j :: 0 <= j < count && j != k ==> Chunk(r, count, size, j) == Chunk(b, count, size, j)
    ensures forall i :: 0 <= i < |b| && !(Offset(k, size) <= i < Offset(k, size) + size) ==> r[i] == b[i]
  {
    var c := romix(Chunk(b, count, size, k), n);
    ReplaceChunkKeepsOthers(b, count, size, k, c);
    ReplaceChunk(b, count, size, k, c)
  }

  /** The reference result of the driver loop: every chunk replaced by ROMix
      of that same chunk, chunk after chunk. */
  function MixAll(b: seq<uint8>, count: nat, size: nat, n: nat, romix: RoMix): (r: seq<uint8>)
    requires |b| == Offset(count, size)
    ensures |r| == |b|
    decreases count
  {
    if count == 0 then []
    else
      romix(b[..size], n) + MixAll(b[size..], count - 1, size, n, romix)
  }

  /** Past the first chunk, the chunks of `b` are those of `b[size..]`. */
  lemma ChunkOfTail(b: seq<uint8>, count: nat, size: nat, k: nat)
    requires |b| == Offset(count, size) && 0 < k < count
    ensures Chunk(b, count, size, k) == Chunk(b[size..], count - 1, size, k - 1)
  {
    ChunkInside(k - 1, count - 1, size);
    var at := Offset(k - 1, size);
    assert b[size..][at .. at + size] == b[size + at .. size + at + size];
  }

  /** Chunk `k` of the mixed buffer is ROMix of chunk `k` of the input: each
      output chunk depends on its own input chunk only. */
  lemma {:induction false} MixAllChunk(b: seq<uint8>, count: nat, size: nat, n: nat, romix: RoMix, k: nat)
    requires |b| == Offset(count, size) && k < count
    ensures Chunk(MixAll(b, count, size, n, romix), count, size, k) == romix(Chunk(b, count, size, k), n)
    decreases k
  {
    var m := MixAll(b, count, size, n, romix);
    var head := romix(b[..size], n);
    var mt := MixAll(b[size..], count - 1, size, n, romix);
    assert m == head + mt;
    if k == 0 {
      assert Chunk(m, count, size, 0) == m[..size] == head;
      assert Chunk(b, count, size, 0) == b[..size];
    } else {
      MixAllChunk(b[size..], count - 1, size, n, romix, k - 1);
      ChunkOfTail(m, count, size, k);
      ChunkOfTail(b, count, size, k);
      assert m[size..] == mt;
    }
  }

  /** The `for chunk in b.chunks_mut(r128)` loop of lib.rs:104-106. The number
      of chunks is not an input of the source loop: it stops when the buffer
      is used up, and the contract shows that this happens after exactly
      `count` chunks, each mixed independently. */
  method MixChunksInPlace(b: seq<uint8>, size: nat, n: nat, romix: RoMix, ghost count: nat)
    returns (out: seq<uint8>)
    requires size > 0 && |b| == Offset(count, size)
    ensures |out| == |b|
    ensures forall k :: 0 <= k < count ==> Chunk(out, count, size, k) == romix(Chunk(b, count, size, k), n)
    ensures out == MixAll(b, count, size, n, romix)
  {
    out := b;
    var offset := 0;
    ghost var k := 0;
    while offset < |out|
      invariant |out| == |b|
      invariant k <= count && offset == Offset(k, size)
      invariant forall j :: 0 <= j < k ==> Chunk(out, count, size, j) == romix(Chunk(b, count, size, j), n)
      invariant forall j :: k <= j < count ==> Chunk(out, count, size, j) == Chunk(b, count, size, j)
      decreases |out| - offset
    {
      if k == count {
        assert false;
      }
      ChunkInside(k, count, size);
      // `chunks_mut` yields a shorter last chunk when the length is not a
      // multiple of `size`; here every chunk is full.
      var end := if offset + size <= |out| then offset + size else |out|;
      var mixed := romix(out[offset..end], n);
      assert out[offset..end] == Chunk(out, count, size, k);
      ghost var before := out;
      out := out[..offset] + mixed + out[end..];
      assert out == MixChunk(before, count, size, k, n, romix);
      offset := end;
      k := k + 1;
    }
    if k < count {
      ChunkInside(k, count, size);
      assert false;
    }
    var m := MixAll(b, count, size, n, romix);
    forall j | 0 <= j < count
      ensures Chunk(out, count, size, j) == Chunk(m, count, size, j)
    {
      MixAllChunk(b, count, size, n, romix, j);
    }
    ChunksDetermine(out, m, count, size);
  }

  /** Mixing the chunks one at a time in the order `order` lists them. */
  function ApplyInOrder(b: seq<uint8>, count: nat, size: nat, order: seq<nat>, n: nat, romix: RoMix): (r: seq<uint8>)
    requires |b| == Offset(count, size)
    requires forall i :: 0 <= i < |order| ==> order[i] < count
    ensures |r| == |b|
    decreases |order|
  {
    if |order| == 0 then b
    else ApplyInOrder(MixChunk(b, count, size, order[0], n, romix), count, size, order[1..], n, romix)
  }

  /** No chunk index occurs twice in `order`. */
  predicate Distinct(order: seq<nat>)
  {
    forall i, j :: 0 <= i < j < |order| ==> order[i] != order[j]
  }

  /** After mixing in order `order` (no chunk twice), a chunk is mixed if
      `order` names it and untouched otherwise. */
  lemma {:induction false} ApplyInOrderChunks(b: seq<uint8>, count: nat, size: nat, order: seq<nat>, n: nat, romix: RoMix)
    requires |b| == Offset(count, size)
    requires forall i :: 0 <= i < |order| ==> order[i] < count
    requires Distinct(order)
    ensures forall j :: 0 <= j < count ==>
      Chunk(ApplyInOrder(b, count, size, order, n, romix), count, size, j)
        == if j in order then romix(Chunk(b, count, size, j), n) else Chunk(b, count, size, j)
    decreases |order|
  {
    if |order| > 0 {
      var b1 := MixChunk(b, count, size, order[0], n, romix);
      var rest := order[1..];
      assert Distinct(rest) by {
        forall i, j | 0 <= i < j < |rest| ensures rest[i] != rest[j] {
          assert rest[i] == order[i + 1] && rest[j] == order[j + 1];
        }
      }
      ApplyInOrderChunks(b1, count, size, rest, n, romix);
      forall j | 0 <= j < count
        ensures j in order <==> j == order[0] || j in rest
      {
        assert order == [order[0]] + rest;
      }
      assert order[0] !in rest by {
        forall i | 0 <= i < |rest| ensures rest[i] != order[0] {
          assert rest[i] == order[i + 1];
        }
      }
    }
  }

  /** Chunks are independent: mixing them in any order that names each chunk
      exactly once (sequentially, in reverse, or however a parallel run
      interleaves them) yields the same buffer as the driver loop. */
  lemma OrderIrrelevant(b: seq<uint8>, count: nat, size: nat, order: seq<nat>, n: nat, romix: RoMix)
    requires |b| == Offset(count, size)
    requires forall i :: 0 <= i < |order| ==> order[i] < count
    requires Distinct(order)
    requires forall j :: 0 <= j < count ==> j in order
    ensures ApplyInOrder(b, count, size, order, n, romix) == MixAll(b, count, size, n, romix)
  {
    var a := ApplyInOrder(b, count, size, order, n, romix);
    var m := MixAll(b, count, size, n, romix);
    ApplyInOrderChunks(b, count, size, order, n, romix);
    forall j | 0 <= j < count
      ensures Chunk(a, count, size, j) == Chunk(m, count, size, j)
    {
      MixAllChunk(b, count, size, n, romix, j);
    }
    ChunksDetermine(a, m, count, size);
  }
}
