/**
 * The fixed-size chunk allocator.
 *
 * The pool owns an array of raw blocks.  Every block is cut into
 * `numObjects` chunks of `OBJECT_SIZE + CHUNK_HEADER_SIZE` bytes, and the
 * one-pointer header in front of each chunk links the chunks that are free
 * into a singly-linked list starting at `head`.  A chunk is named by the
 * position of its block in the block array (which growth never changes) and
 * its number inside the block; the headers are the map `next`, and the
 * free list, read from `head` along the headers, is the ghost sequence
 * `freeList`.  Whether `malloc` succeeds is a parameter of the operations
 * that call it.
 */
module MemoryPools {
  import opened Wrappers

  /** `sizeof(unsigned char*)` on the 64-bit targets the allocator is built for. */
  const CHUNK_HEADER_SIZE: nat := 8

  /** One block obtained from `malloc`: its identity is its address. */
  class RawBlock {
    /** How many chunks the block was cut into. */
    const numChunks: nat

    constructor (n: nat)
      ensures numChunks == n
    {
      numChunks := n;
    }
  }

  /** Chunk number k of the block at position `block` of the block array: its header is at byte `k * stride` of that block. */
  datatype Chunk = Chunk(block: nat, k: nat)

  // ---------------------------------------------------------------------------
  // Chunk layout inside a block
  // ---------------------------------------------------------------------------

  /** `OBJECT_SIZE + CHUNK_HEADER_SIZE`: the bytes of one chunk, header included. */
  function Stride(objectSize: nat): nat
  {
    objectSize + CHUNK_HEADER_SIZE
  }

  /** Byte offset of chunk k's header inside its block. */
  function HeaderOffset(objectSize: nat, k: nat): nat
  {
    k * Stride(objectSize)
  }

  /**
   * Byte offset `alloc` hands out for chunk k: just past its header.  `free`
   * of that offset finds chunk k's header again, and the object's bytes end
   * exactly where the header of chunk k + 1 begins.
   */
  function DataOffset(objectSize: nat, k: nat): (d: nat)
    ensures HeaderOfData(d) == HeaderOffset(objectSize, k)
    ensures d + objectSize == HeaderOffset(objectSize, k + 1)
  {
    assert (k + 1) * Stride(objectSize) == k * Stride(objectSize) + Stride(objectSize);
    HeaderOffset(objectSize, k) + CHUNK_HEADER_SIZE
  }

  /** What `free` recovers from a data pointer: the header `CHUNK_HEADER_SIZE` bytes before it. */
  function HeaderOfData(d: nat): int
  {
    d - CHUNK_HEADER_SIZE
  }

  /** A larger factor adds at least one more copy of the other. */
  lemma {:induction false} MulStep(a: nat, b: nat, c: nat)
    requires a < b
    ensures a * c + c <= b * c
  {
    if a + 1 < b {
      MulStep(a, b - 1, c);
      assert (b - 1) * c + c == b * c;
    } else {
      assert (a + 1) * c == a * c + c;
    }
  }

  /** Chunks do not overlap: the object bytes of chunk k end no later than the header of any later chunk. */
  lemma ChunksDisjoint(objectSize: nat, k: nat, k': nat)
    requires k < k'
    ensures DataOffset(objectSize, k) + objectSize <= HeaderOffset(objectSize, k')
  {
    MulStep(k, k', Stride(objectSize));
  }

  /** The last of n chunks ends exactly at the block's `trueSize = stride * n` bytes. */
  lemma BlockEnd(objectSize: nat, n: nat)
    requires n > 0
    ensures HeaderOffset(objectSize, n - 1) + Stride(objectSize) == Stride(objectSize) * n
  {
    assert (n - 1) * Stride(objectSize) + Stride(objectSize) == Stride(objectSize) * n;
  }

  /** One step of that loop: from chunk k (inside the block) to the byte offset of chunk k + 1, which is inside exactly when k + 1 < n. */
  lemma ChunkStep(stride: nat, k: nat, n: nat)
    requires stride > 0 && k * stride < stride * n
    ensures k < n && k * stride + stride == (k + 1) * stride
    ensures (k + 1) * stride < stride * n <==> k + 1 < n
  {
    StrideOrder(stride, k, n);
    StrideOrder(stride, k + 1, n);
  }

  /**
   * The pointer loop of `allocateNewMemoryBlock` walks byte offsets
   * `k * stride` while they are below `trueSize = stride * n`: that is
   * while k < n.
   */
  lemma StrideOrder(stride: nat, k: nat, n: nat)
    requires stride > 0
    ensures k * stride < stride * n <==> k < n
  {
    if k < n {
      MulStep(k, n, stride);
    } else if n < k {
      MulStep(n, k, stride);
    }
  }

  // ---------------------------------------------------------------------------
  // Blocks, chunks and headers as values
  // ---------------------------------------------------------------------------

  /** Chunk c lies in one of the blocks, each cut into n chunks. */
  predicate Owned(blocks: seq<RawBlock?>, n: nat, c: Chunk)
  {
    c.block < |blocks| && c.k < n
  }

  /** The chunks of block b in address order. */
  function BlockChunks(b: nat, n: nat): (cs: seq<Chunk>)
    ensures |cs| == n
    ensures forall k {:trigger cs[k]} :: 0 <= k < n ==> cs[k] == Chunk(b, k)
  {
    seq(n, k requires 0 <= k < n => Chunk(b, k))
  }

  /** The first chunk of block b, or null for a block of no chunks. */
  function FirstChunk(b: nat, n: nat): (c: Option<Chunk>)
    ensures c == if n == 0 then None else Some(BlockChunks(b, n)[0])
  {
    if n == 0 then None else Some(Chunk(b, 0))
  }

  /** The header value of chunk k of block b when the block has n chunks: the following chunk, or null for the last. */
  function ThreadLink(b: nat, k: nat, n: nat): Option<Chunk>
  {
    if k + 1 < n then Some(Chunk(b, k + 1)) else None
  }

  /** The headers of the first m chunks of block b, as `allocateNewMemoryBlock` has written them after m steps. */
  function ThreadedPrefix(b: nat, m: nat, n: nat): map<Chunk, Option<Chunk>>
    decreases m
  {
    if m == 0 then map[] else ThreadedPrefix(b, m - 1, n)[Chunk(b, m - 1) := ThreadLink(b, m - 1, n)]
  }

  /** After m steps exactly the first m chunks of block b have headers. */
  lemma {:induction false} ThreadedPrefixKeys(b: nat, m: nat, n: nat)
    ensures forall c: Chunk :: c in ThreadedPrefix(b, m, n) <==> c.block == b && c.k < m
    decreases m
  {
    if m > 0 {
      var rest := ThreadedPrefix(b, m - 1, n);
      ThreadedPrefixKeys(b, m - 1, n);
      forall c: Chunk ensures c in ThreadedPrefix(b, m, n) <==> c.block == b && c.k < m {
        assert c in ThreadedPrefix(b, m, n) <==> c == Chunk(b, m - 1) || c in rest;
      }
    }
  }

  /** After m steps each of the first m chunks of block b is linked to its successor. */
  lemma {:induction false} ThreadedPrefixLinks(b: nat, m: nat, n: nat)
    ensures forall k {:trigger ThreadedPrefix(b, m, n)[Chunk(b, k)]} ::
              0 <= k < m ==> Chunk(b, k) in ThreadedPrefix(b, m, n)
                             && ThreadedPrefix(b, m, n)[Chunk(b, k)] == ThreadLink(b, k, n)
    decreases m
  {
    if m > 0 {
      var rest := ThreadedPrefix(b, m - 1, n);
      ThreadedPrefixLinks(b, m - 1, n);
      forall k | 0 <= k < m
        ensures Chunk(b, k) in ThreadedPrefix(b, m, n) && ThreadedPrefix(b, m, n)[Chunk(b, k)] == ThreadLink(b, k, n)
      {
        if k < m - 1 {
          assert Chunk(b, k) in rest && rest[Chunk(b, k)] == ThreadLink(b, k, n);
        }
      }
    }
  }

  /** The headers `allocateNewMemoryBlock` writes: every chunk of b links to the following one, the last to null. */
  function Threaded(b: nat, n: nat): (m: map<Chunk, Option<Chunk>>)
    ensures forall c: Chunk :: c in m <==> c.block == b && c.k < n
    ensures forall k {:trigger m[Chunk(b, k)]} :: 0 <= k < n ==> m[Chunk(b, k)] == ThreadLink(b, k, n)
  {
    ThreadedPrefixKeys(b, n, n);
    ThreadedPrefixLinks(b, n, n);
    ThreadedPrefix(b, n, n)
  }

  /** The header of the i-th free chunk names the (i+1)-th, or null after the last. */
  function Successor(fl: seq<Chunk>, i: nat): Option<Chunk>
    requires i < |fl|
  {
    if i + 1 < |fl| then Some(fl[i + 1]) else None
  }

  /** `head` and the headers spell out exactly the sequence fl. */
  ghost predicate Linked(head: Option<Chunk>, next: map<Chunk, Option<Chunk>>, fl: seq<Chunk>)
  {
    head == (if |fl| == 0 then None else Some(fl[0]))
    && forall i {:trigger Successor(fl, i)} :: 0 <= i < |fl| ==> fl[i] in next && next[fl[i]] == Successor(fl, i)
  }

  /** The link of one free chunk. */
  lemma LinkedAt(head: Option<Chunk>, next: map<Chunk, Option<Chunk>>, fl: seq<Chunk>, i: nat)
    requires Linked(head, next, fl) && i < |fl|
    ensures fl[i] in next && next[fl[i]] == Successor(fl, i)
  {
    var succ := Successor(fl, i);
    assert fl[i] in next && next[fl[i]] == succ;
  }

  /** No chunk appears twice in fl. */
  ghost predicate Distinct(fl: seq<Chunk>)
  {
    forall i, j :: 0 <= i < j < |fl| ==> fl[i] != fl[j]
  }

  /** The block array holds distinct, non-null blocks of n chunks each. */
  ghost predicate BlocksOk(blocks: seq<RawBlock?>, n: nat)
  {
    (forall i :: 0 <= i < |blocks| ==> blocks[i] != null && blocks[i].numChunks == n)
    && (forall i, j :: 0 <= i < j < |blocks| ==> blocks[i] != blocks[j])
  }

  /** The invariant of an allocator whose fields hold these values. */
  ghost predicate PoolInv(blocks: seq<RawBlock?>, n: nat, head: Option<Chunk>,
                          next: map<Chunk, Option<Chunk>>, fl: seq<Chunk>)
  {
    BlocksOk(blocks, n)
    // every owned chunk, and no other, has a header
    && (forall c :: c in next <==> Owned(blocks, n, c))
    // the free list holds distinct owned chunks, linked from head
    && (forall i :: 0 <= i < |fl| ==> Owned(blocks, n, fl[i]))
    && Distinct(fl)
    && Linked(head, next, fl)
  }

  /** Following `steps` headers from `from`. */
  function Follow(next: map<Chunk, Option<Chunk>>, from: Option<Chunk>, steps: nat): Option<Chunk>
    decreases steps
  {
    if steps == 0 || from.None? then from
    else if from.value in next then Follow(next, next[from.value], steps - 1)
    else None
  }

  /** From the j-th free chunk, m more headers lead to the (j+m)-th, or to null past the end. */
  lemma {:induction false} FollowSuffix(head: Option<Chunk>, next: map<Chunk, Option<Chunk>>, fl: seq<Chunk>, j: nat, m: nat)
    requires Linked(head, next, fl) && j < |fl| && j + m <= |fl|
    ensures Follow(next, Some(fl[j]), m) == if j + m < |fl| then Some(fl[j + m]) else None
    decreases m
  {
    if m > 0 {
      LinkedAt(head, next, fl, j);
      if j + 1 < |fl| {
        FollowSuffix(head, next, fl, j + 1, m - 1);
      }
    }
  }

  /**
   * The free list is a finite, acyclic chain: i headers from `head` lead to
   * the i-th free chunk, and after the last one the chain ends in null.
   */
  lemma FreeListIsChain(head: Option<Chunk>, next: map<Chunk, Option<Chunk>>, fl: seq<Chunk>)
    requires Linked(head, next, fl)
    ensures forall i :: 0 <= i < |fl| ==> Follow(next, head, i) == Some(fl[i])
    ensures Follow(next, head, |fl|) == None
  {
    if |fl| > 0 {
      forall i | 0 <= i < |fl| ensures Follow(next, head, i) == Some(fl[i]) {
        FollowSuffix(head, next, fl, 0, i);
      }
      FollowSuffix(head, next, fl, 0, |fl|);
    }
  }

  /** Every chunk of the first m blocks, block by block. */
  function AllChunks(m: nat, n: nat): (cs: seq<Chunk>)
    decreases m
  {
    if m == 0 then [] else AllChunks(m - 1, n) + BlockChunks(m - 1, n)
  }

  /** The chunks of m blocks are exactly the owned ones, n per block, all distinct. */
  lemma {:induction false} AllChunksOwned(m: nat, n: nat)
    ensures |AllChunks(m, n)| == n * m
    ensures forall c :: c in AllChunks(m, n) <==> c.block < m && c.k < n
    ensures Distinct(AllChunks(m, n))
    decreases m
  {
    if m > 0 {
      AllChunksOwned(m - 1, n);
      var xs, ys := AllChunks(m - 1, n), BlockChunks(m - 1, n);
      assert |xs + ys| == n * m by {
        assert n * (m - 1) + n == n * m;
      }
      forall c: Chunk ensures c in xs + ys <==> c.block < m && c.k < n {
        if c.block == m - 1 && c.k < n {
          assert ys[c.k] == c;
        }
      }
      forall i, j | 0 <= i < j < |xs + ys| ensures (xs + ys)[i] != (xs + ys)[j] {
        if i < |xs| && j >= |xs| {
          assert xs[i] in xs;
        }
      }
    }
  }

  /** A sequence without repeats has as many elements as its set. */
  lemma {:induction false} DistinctCard(s: seq<Chunk>)
    requires Distinct(s)
    ensures |set c | c in s| == |s|
    decreases |s|
  {
    if |s| > 0 {
      var t := s[1..];
      DistinctCard(t);
      assert (set c | c in s) == (set c | c in t) + {s[0]};
      assert s[0] !in t;
    }
  }

  /**
   * The free list never holds more chunks than the blocks own: at most
   * `numObjects * memArraySize`.
   */
  lemma FreeListBounded(blocks: seq<RawBlock?>, n: nat, head: Option<Chunk>,
                        next: map<Chunk, Option<Chunk>>, fl: seq<Chunk>)
    requires PoolInv(blocks, n, head, next, fl)
    ensures |fl| <= n * |blocks|
  {
    AllChunksOwned(|blocks|, n);
    var all := AllChunks(|blocks|, n);
    DistinctCard(fl);
    DistinctCard(all);
    assert (set c | c in fl) <= (set c | c in all);
    SubsetCard(set c | c in fl, set c | c in all);
  }

  lemma {:induction false} SubsetCard(a: set<Chunk>, b: set<Chunk>)
    requires a <= b
    ensures |a| <= |b|
    decreases |a|
  {
    if a != {} {
      var x :| x in a;
      SubsetCard(a - {x}, b - {x});
    }
  }

  // ---------------------------------------------------------------------------
  // Pop, push and growth on values
  // ---------------------------------------------------------------------------

  /**
   * `alloc` on a non-empty list: the head is the first free chunk, its header
   * names the new head, and the rest of the list is still a well-formed free
   * list no longer holding the chunk handed out.
   */
  lemma PopKeepsInv(blocks: seq<RawBlock?>, n: nat, head: Option<Chunk>,
                    next: map<Chunk, Option<Chunk>>, fl: seq<Chunk>)
    requires PoolInv(blocks, n, head, next, fl) && head.Some?
    ensures |fl| > 0 && fl[0] == head.value && Owned(blocks, n, head.value)
    ensures head.value in next && next[head.value] == (if |fl| > 1 then Some(fl[1]) else None)
    ensures head.value !in fl[1..]
    ensures PoolInv(blocks, n, next[head.value], next, fl[1..])
  {
    var tl := fl[1..];
    assert next[fl[0]] == Successor(fl, 0);
    forall i | 0 <= i < |tl| ensures tl[i] in next && next[tl[i]] == Successor(tl, i) {
      assert tl[i] == fl[i + 1];
      assert next[fl[i + 1]] == Successor(fl, i + 1);
    }
  }

  /**
   * `free` of an owned chunk that is not free: writing the old head into its
   * header and making it the head gives a well-formed free list with the
   * chunk in front.
   */
  lemma PushKeepsInv(blocks: seq<RawBlock?>, n: nat, head: Option<Chunk>,
                     next: map<Chunk, Option<Chunk>>, fl: seq<Chunk>, c: Chunk)
    requires PoolInv(blocks, n, head, next, fl)
    requires Owned(blocks, n, c) && c !in fl
    ensures PoolInv(blocks, n, Some(c), next[c := head], [c] + fl)
  {
    var fl', next' := [c] + fl, next[c := head];
    forall i | 0 <= i < |fl'| ensures fl'[i] in next' && next'[fl'[i]] == Successor(fl', i) {
      if i > 0 {
        assert fl'[i] == fl[i - 1] != c;
        assert next[fl[i - 1]] == Successor(fl, i - 1);
      }
    }
    forall i, j | 0 <= i < j < |fl'| ensures fl'[i] != fl'[j] {
      if i == 0 {
        assert fl'[j] == fl[j - 1];
      }
    }
  }

  /** The headers after growth: the new block threaded, and the old tail linked to its first chunk. */
  function GrownNext(next: map<Chunk, Option<Chunk>>, fl: seq<Chunk>, j: nat, n: nat): map<Chunk, Option<Chunk>>
  {
    var threaded := next + Threaded(j, n);
    if |fl| == 0 then threaded else threaded[fl[|fl| - 1] := FirstChunk(j, n)]
  }

  /** The head after growth: unchanged, or the new block's first chunk when the list was empty. */
  function GrownHead(head: Option<Chunk>, j: nat, n: nat): (h: Option<Chunk>)
    ensures h.None? <==> head.None? && n == 0
    ensures head.Some? ==> h == head
  {
    if head.None? then FirstChunk(j, n) else head
  }

  /** After growth every chunk of the longer block array, and no other, has a header. */
  lemma GrowKeepsKeys(blocks: seq<RawBlock?>, n: nat, head: Option<Chunk>,
                      next: map<Chunk, Option<Chunk>>, fl: seq<Chunk>, b: RawBlock)
    requires PoolInv(blocks, n, head, next, fl)
    ensures forall c: Chunk :: c in GrownNext(next, fl, |blocks|, n) <==> Owned(blocks + [b], n, c)
  {
    var next' := GrownNext(next, fl, |blocks|, n);
    forall c: Chunk ensures c in next' <==> Owned(blocks + [b], n, c) {
      assert c in next <==> Owned(blocks, n, c);
      if |fl| > 0 {
        assert Owned(blocks, n, fl[|fl| - 1]);
      }
    }
  }

  /** After growth the free list still holds distinct owned chunks. */
  lemma GrowKeepsDistinct(blocks: seq<RawBlock?>, n: nat, head: Option<Chunk>,
                          next: map<Chunk, Option<Chunk>>, fl: seq<Chunk>, b: RawBlock)
    requires PoolInv(blocks, n, head, next, fl)
    ensures var fl' := fl + BlockChunks(|blocks|, n);
            (forall i :: 0 <= i < |fl'| ==> Owned(blocks + [b], n, fl'[i])) && Distinct(fl')
  {
    var j := |blocks|;
    var fl' := fl + BlockChunks(j, n);
    forall i | 0 <= i < |fl'| ensures Owned(blocks + [b], n, fl'[i]) {
      if i < |fl| {
        assert Owned(blocks, n, fl[i]);
      }
    }
    forall i, k | 0 <= i < k < |fl'| ensures fl'[i] != fl'[k] {
      if k >= |fl| {
        assert fl'[k].block == j;
        if i < |fl| {
          assert Owned(blocks, n, fl[i]);
        }
      }
    }
  }

  /** After growth the headers spell out the old free list followed by the new block's chunks. */
  lemma GrowKeepsLinked(blocks: seq<RawBlock?>, n: nat, head: Option<Chunk>,
                        next: map<Chunk, Option<Chunk>>, fl: seq<Chunk>)
    requires PoolInv(blocks, n, head, next, fl)
    ensures Linked(GrownHead(head, |blocks|, n), GrownNext(next, fl, |blocks|, n), fl + BlockChunks(|blocks|, n))
  {
    var j := |blocks|;
    var fl', next' := fl + BlockChunks(j, n), GrownNext(next, fl, j, n);
    forall i | 0 <= i < |fl'| ensures fl'[i] in next' && next'[fl'[i]] == Successor(fl', i) {
      if i < |fl| {
        assert Owned(blocks, n, fl[i]);
        if i + 1 < |fl| {
          assert fl[i] != fl[|fl| - 1];
          assert next[fl[i]] == Successor(fl, i);
        }
      } else {
        var k := i - |fl|;
        assert fl'[i] == Chunk(j, k);
        if k + 1 < n {
          assert fl'[i + 1] == Chunk(j, k + 1);
        }
        if |fl| > 0 {
          assert Owned(blocks, n, fl[|fl| - 1]);
        }
      }
    }
  }

  /**
   * `growMemoryArray` with both allocations granted: appending a fresh block
   * and threading its chunks after the tail keeps a well-formed free list,
   * which is the old one followed by the new block's chunks in address order.
   */
  lemma GrowKeepsInv(blocks: seq<RawBlock?>, n: nat, head: Option<Chunk>,
                     next: map<Chunk, Option<Chunk>>, fl: seq<Chunk>, b: RawBlock)
    requires PoolInv(blocks, n, head, next, fl)
    requires b.numChunks == n && b !in blocks
    ensures PoolInv(blocks + [b], n, GrownHead(head, |blocks|, n), GrownNext(next, fl, |blocks|, n),
                    fl + BlockChunks(|blocks|, n))
  {
    GrowKeepsKeys(blocks, n, head, next, fl, b);
    GrowKeepsDistinct(blocks, n, head, next, fl, b);
    GrowKeepsLinked(blocks, n, head, next, fl);
  }

  /**
   * `free(p)` then `alloc()` hands p out again and leaves the head, the
   * headers read from it and the free list as they were: the allocator is
   * last-in, first-out.
   */
  lemma FreeThenAllocRestores(blocks: seq<RawBlock?>, n: nat, head: Option<Chunk>,
                              next: map<Chunk, Option<Chunk>>, fl: seq<Chunk>, c: Chunk)
    requires PoolInv(blocks, n, head, next, fl)
    requires Owned(blocks, n, c) && c !in fl
    ensures var next' := next[c := head];
            next'[c] == head && ([c] + fl)[1..] == fl
            && PoolInv(blocks, n, next'[c], next', fl)
  {
    PushKeepsInv(blocks, n, head, next, fl, c);
    PopKeepsInv(blocks, n, Some(c), next[c := head], [c] + fl);
    assert ([c] + fl)[1..] == fl;
  }

  /** One more step of the threading loop writes the header of chunk k. */
  lemma ThreadedPrefixStep(a: map<Chunk, Option<Chunk>>, b: nat, k: nat, n: nat)
    ensures (a + ThreadedPrefix(b, k, n))[Chunk(b, k) := ThreadLink(b, k, n)] == a + ThreadedPrefix(b, k + 1, n)
  {
    MergeUpdate(a, ThreadedPrefix(b, k, n), Chunk(b, k), ThreadLink(b, k, n));
  }

  /** Updating a union at one key is updating its right operand there. */
  lemma MergeUpdate(a: map<Chunk, Option<Chunk>>, p: map<Chunk, Option<Chunk>>, x: Chunk, v: Option<Chunk>)
    ensures (a + p)[x := v] == a + p[x := v]
  {
    assert ((a + p)[x := v]).Keys == (a + p[x := v]).Keys;
  }

  /** Threading the headers of a new block leaves the free list of the old blocks as it was. */
  lemma ThreadedKeepsLinked(blocks: seq<RawBlock?>, n: nat, head: Option<Chunk>,
                            next: map<Chunk, Option<Chunk>>, fl: seq<Chunk>)
    requires PoolInv(blocks, n, head, next, fl)
    ensures Linked(head, next + Threaded(|blocks|, n), fl)
  {
    assert forall i :: 0 <= i < |fl| ==> Owned(blocks, n, fl[i]);
    LinkedExtend(head, next, fl, Threaded(|blocks|, n));
  }

  /** With no blocks there are no headers and no free chunks. */
  lemma NoBlocksNoChunks(n: nat, head: Option<Chunk>, next: map<Chunk, Option<Chunk>>, fl: seq<Chunk>)
    ensures PoolInv([], n, head, next, fl) <==> head == None && next == map[] && fl == []
  {
    if PoolInv([], n, head, next, fl) {
      assert forall c: Chunk :: c !in next;
    }
  }

  /** Headers of chunks outside the free list do not disturb it. */
  lemma LinkedExtend(head: Option<Chunk>, next: map<Chunk, Option<Chunk>>, fl: seq<Chunk>,
                     extra: map<Chunk, Option<Chunk>>)
    requires Linked(head, next, fl)
    requires forall i :: 0 <= i < |fl| ==> fl[i] !in extra
    ensures Linked(head, next + extra, fl)
  {
    forall i | 0 <= i < |fl| ensures fl[i] in next + extra && (next + extra)[fl[i]] == Successor(fl, i) {
      LinkedAt(head, next, fl, i);
      assert fl[i] !in extra;
    }
  }

  // ---------------------------------------------------------------------------
  // The allocator
  // ---------------------------------------------------------------------------

  /** The chunk allocator for objects of `objectSize` bytes. */
  class MemoryPool {
    /** OBJECT_SIZE. */
    const objectSize: nat
    /** mRawMemoryArray: the blocks obtained so far, or null before the first. */
    var rawMemoryArray: array?<RawBlock?>
    /** mHead: the first free chunk, or null. */
    var head: Option<Chunk>
    /** The header of every chunk of every block. */
    var next: map<Chunk, Option<Chunk>>
    /** mNumObjects: the chunks per block. */
    var numObjects: nat
    /** mMemArraySize: the blocks in the array. */
    var memArraySize: nat
    /** mAllowResize. */
    var allowResize: bool
    /** mIsInitialized. */
    var isInitialized: bool
    /** The free chunks in list order, from head along the headers. */
    ghost var freeList: seq<Chunk>

    /** The block array's entries. */
    ghost function Blocks(): seq<RawBlock?>
      reads this, rawMemoryArray
    {
      if rawMemoryArray == null then [] else rawMemoryArray[..]
    }

    ghost predicate Valid()
      reads this, rawMemoryArray
    {
      (rawMemoryArray == null <==> memArraySize == 0)
      && (rawMemoryArray != null ==> rawMemoryArray.Length == memArraySize)
      && (isInitialized ==> rawMemoryArray != null)
      && PoolInv(Blocks(), numObjects, head, next, freeList)
    }

    /** The state `reset` leaves: no blocks, null head, resizing allowed, not initialized. */
    ghost predicate IsReset()
      reads this
    {
      rawMemoryArray == null && head == None && next == map[] && freeList == []
      && numObjects == 0 && memArraySize == 0 && allowResize && !isInitialized
    }

    /** reset: back to the empty state, forgetting (not releasing) any blocks. */
    method Reset()
      modifies this
      ensures IsReset() && Valid()
    {
      rawMemoryArray := null;
      head := None;
      next := map[];
      freeList := [];
      numObjects := 0;
      memArraySize := 0;
      allowResize := true;
      isInitialized := false;
    }

    /**
     * The private constructor: reset, then init(1024).  Whether the two
     * `malloc` calls of the first growth succeed are the parameters.
     */
    constructor (objectSize: nat, arrayGranted: bool, blockGranted: bool)
      ensures Valid() && this.objectSize == objectSize && numObjects == 1024 && allowResize
      ensures isInitialized <==> arrayGranted && blockGranted
      ensures isInitialized ==> memArraySize == 1 && freeList == BlockChunks(0, 1024)
      ensures !isInitialized ==> memArraySize == 0 && freeList == []
    {
      this.objectSize := objectSize;
      new;
      Reset();
      var _ := Init(1024, arrayGranted, blockGranted);
    }

    /**
     * init(n): destroy any existing blocks, take n chunks per block and grow
     * one block; the pool is initialized exactly when that growth succeeded.
     */
    method Init(n: nat, arrayGranted: bool, blockGranted: bool) returns (ok: bool)
      requires Valid()
      modifies this
      ensures Valid() && numObjects == n
      ensures ok <==> arrayGranted && blockGranted
      ensures isInitialized == ok
      ensures allowResize == (old(rawMemoryArray) != null || old(allowResize))
      ensures ok ==> memArraySize == 1 && head == FirstChunk(0, n) && freeList == BlockChunks(0, n)
      ensures !ok ==> rawMemoryArray == null && memArraySize == 0 && head == None && freeList == []
    {
      if rawMemoryArray != null {
        var _, _ := Destroy();
      }
      NoBlocksNoChunks(numObjects, head, next, freeList);
      numObjects := n;
      NoBlocksNoChunks(n, None, map[], []);
      ok := GrowMemoryArray(arrayGranted, blockGranted);
      if ok {
        ghost var blocks := Blocks();
        isInitialized := true;
        assert Blocks() == blocks;
      }
    }

    /**
     * destroy: release every block, then the block array itself, then reset.
     * This is the evident intent; as written the unqualified `free` calls are
     * the member free, which releases nothing (DestroyPushesAsWritten).
     */
    method Destroy() returns (released: seq<RawBlock?>, releasedArray: array?<RawBlock?>)
      requires Valid()
      modifies this
      ensures released == old(Blocks()) && releasedArray == old(rawMemoryArray)
      ensures IsReset() && Valid()
    {
      released := [];
      var i := 0;
      while i < memArraySize
        invariant 0 <= i <= memArraySize
        invariant released == Blocks()[..i]
      {
        released := released + [rawMemoryArray[i]];
        i := i + 1;
      }
      releasedArray := rawMemoryArray;
      Reset();
    }

    /**
     * alloc: hand out the first free chunk, after growing by one block when
     * the list is empty and resizing is allowed; null when resizing is not
     * allowed, when growth fails, or when a block holds no chunks.
     */
    method Alloc(arrayGranted: bool, blockGranted: bool) returns (p: Option<Chunk>)
      requires Valid()
      modifies this
      ensures Valid()
      ensures numObjects == old(numObjects) && allowResize == old(allowResize) && isInitialized == old(isInitialized)
      ensures old(head).Some? ==>
                p == old(head) && head == old(next)[p.value] && freeList == old(freeList)[1..] && next == old(next)
                && rawMemoryArray == old(rawMemoryArray) && memArraySize == old(memArraySize)
      ensures old(head).None? && !(allowResize && arrayGranted && blockGranted) ==>
                p == None && head == None && freeList == [] && next == old(next)
                && rawMemoryArray == old(rawMemoryArray) && memArraySize == old(memArraySize)
      ensures old(head).None? && allowResize && arrayGranted && blockGranted ==>
                memArraySize == old(memArraySize) + 1 && Blocks()[..old(memArraySize)] == old(Blocks())
                && p == FirstChunk(old(memArraySize), numObjects)
                && freeList == (if numObjects == 0 then [] else BlockChunks(old(memArraySize), numObjects)[1..])
      ensures p.Some? ==> Owned(Blocks(), numObjects, p.value) && p.value !in freeList
    {
      if head.None? {
        if !allowResize {
          return None;
        }
        var grown := GrowMemoryArray(arrayGranted, blockGranted);
        if !grown {
          return None;
        }
        if head.None? {
          return None;
        }
      }
      p := PopHead();
    }

    /** The last two statements of alloc: take the head and move it along its header. */
    method PopHead() returns (p: Option<Chunk>)
      requires Valid() && head.Some?
      modifies this
      ensures Valid() && p == old(head) && head == old(next)[p.value]
      ensures freeList == old(freeList)[1..] && p.value !in freeList && Owned(Blocks(), numObjects, p.value)
      ensures next == old(next) && rawMemoryArray == old(rawMemoryArray) && memArraySize == old(memArraySize)
      ensures numObjects == old(numObjects) && allowResize == old(allowResize) && isInitialized == old(isInitialized)
    {
      p := head;
      PopKeepsInv(Blocks(), numObjects, head, next, freeList);
      head := GetNext(head.value);
      freeList := freeList[1..];
    }

    /**
     * free: push the chunk whose data section is p back on the front of the
     * list; null is ignored.  The caller hands back only chunks it got from
     * alloc and has not freed since.
     */
    method Free(p: Option<Chunk>)
      requires Valid()
      requires p.Some? ==> Owned(Blocks(), numObjects, p.value) && p.value !in freeList
      modifies this
      ensures Valid()
      ensures p.None? ==> head == old(head) && next == old(next) && freeList == old(freeList)
      ensures p.Some? ==> head == p && next == old(next)[p.value := old(head)] && freeList == [p.value] + old(freeList)
      ensures rawMemoryArray == old(rawMemoryArray) && memArraySize == old(memArraySize) && numObjects == old(numObjects)
      ensures allowResize == old(allowResize) && isInitialized == old(isInitialized)
    {
      if p.Some? {
        var chunk := p.value;
        PushKeepsInv(Blocks(), numObjects, head, next, freeList, chunk);
        SetNext(chunk, head);
        head := Some(chunk);
        freeList := [chunk] + freeList;
      }
    }

    /** setAllowResize. */
    method SetAllowResize(allow: bool)
      requires Valid()
      modifies this
      ensures Valid() && allowResize == allow
      ensures rawMemoryArray == old(rawMemoryArray) && head == old(head) && next == old(next) && freeList == old(freeList)
      ensures numObjects == old(numObjects) && memArraySize == old(memArraySize) && isInitialized == old(isInitialized)
    {
      allowResize := allow;
    }

    /**
     * growMemoryArray: a new array one entry longer holding the old entries
     * and a new block, whose chunks go after the tail of the free list (or
     * become the list when it is empty).  Fails, changing nothing, when
     * either allocation fails.  The old array is released, as intended; as
     * written its `free` is the member free, which pushes the word before the
     * old array onto the list (GrowAsWrittenPushesOldArray).
     */
    method GrowMemoryArray(arrayGranted: bool, blockGranted: bool) returns (ok: bool)
      requires Valid()
      modifies this
      ensures Valid()
      ensures ok <==> arrayGranted && blockGranted
      ensures numObjects == old(numObjects) && allowResize == old(allowResize) && isInitialized == old(isInitialized)
      ensures !ok ==> rawMemoryArray == old(rawMemoryArray) && memArraySize == old(memArraySize)
                      && head == old(head) && next == old(next) && freeList == old(freeList)
      ensures ok ==> memArraySize == old(memArraySize) + 1 && fresh(rawMemoryArray)
                     && Blocks()[..old(memArraySize)] == old(Blocks()) && fresh(Blocks()[old(memArraySize)])
                     && head == GrownHead(old(head), old(memArraySize), numObjects)
                     && next == GrownNext(old(next), old(freeList), old(memArraySize), numObjects)
                     && freeList == old(freeList) + BlockChunks(old(memArraySize), numObjects)
    {
      if !arrayGranted {
        return false;
      }
      ghost var blocks, j := Blocks(), memArraySize;
      var newArray := CopyBlocks();
      var block := AllocateNewMemoryBlock(blockGranted);
      if block == null {
        return false;
      }
      newArray[memArraySize] := block;
      assert newArray[..] == blocks + [block] by {
        assert newArray[..j] == blocks;
      }
      InstallBlock(newArray, blocks, old(next), block);
      ok := true;
    }

    /**
     * The second half of growMemoryArray: link the threaded block after the
     * tail and adopt the new array, the old one being released as intended.
     */
    method InstallBlock(newArray: array<RawBlock?>, ghost blocks: seq<RawBlock?>,
                        ghost next0: map<Chunk, Option<Chunk>>, block: RawBlock)
      requires newArray[..] == blocks + [block] && |blocks| == memArraySize
      requires PoolInv(blocks, numObjects, head, next0, freeList)
      requires block.numChunks == numObjects && block !in blocks
      requires next == next0 + Threaded(memArraySize, numObjects)
      modifies this
      ensures Valid() && rawMemoryArray == newArray && memArraySize == old(memArraySize) + 1
      ensures head == GrownHead(old(head), old(memArraySize), numObjects)
      ensures next == GrownNext(next0, old(freeList), old(memArraySize), numObjects)
      ensures freeList == old(freeList) + BlockChunks(old(memArraySize), numObjects)
      ensures numObjects == old(numObjects) && allowResize == old(allowResize) && isInitialized == old(isInitialized)
    {
      ghost var j := memArraySize;
      ThreadedKeepsLinked(blocks, numObjects, head, next0, freeList);
      GrowKeepsInv(blocks, numObjects, head, next0, freeList, block);
      AttachBlock(next0);
      rawMemoryArray := newArray;
      memArraySize := memArraySize + 1;
      freeList := freeList + BlockChunks(j, numObjects);
    }

    /** The copy loop of growMemoryArray: a new array one entry longer, starting with the current entries. */
    method CopyBlocks() returns (newArray: array<RawBlock?>)
      requires Valid()
      ensures fresh(newArray) && newArray.Length == memArraySize + 1
      ensures newArray[..memArraySize] == Blocks()
    {
      newArray := new RawBlock?[memArraySize + 1];
      var i := 0;
      while i < memArraySize
        invariant 0 <= i <= memArraySize
        invariant forall t :: 0 <= t < i ==> newArray[t] == Blocks()[t]
      {
        newArray[i] := rawMemoryArray[i];
        i := i + 1;
      }
    }

    /** The tail-walk and relinking half of growMemoryArray, once the new block's headers are written. */
    method AttachBlock(ghost next0: map<Chunk, Option<Chunk>>)
      requires Linked(head, next, freeList) && next == next0 + Threaded(memArraySize, numObjects)
      modifies this
      ensures head == GrownHead(old(head), memArraySize, numObjects)
      ensures next == GrownNext(next0, freeList, memArraySize, numObjects)
      ensures rawMemoryArray == old(rawMemoryArray) && memArraySize == old(memArraySize) && freeList == old(freeList)
      ensures numObjects == old(numObjects) && allowResize == old(allowResize) && isInitialized == old(isInitialized)
    {
      var first := FirstChunk(memArraySize, numObjects);
      if head.Some? {
        var tail := FindTail();
        SetNext(tail, first);
      } else {
        head := first;
      }
    }

    /** The while loop of growMemoryArray: from the head, follow the headers to the last free chunk. */
    method FindTail() returns (tail: Chunk)
      requires head.Some? && Linked(head, next, freeList)
      ensures |freeList| > 0 && tail == freeList[|freeList| - 1]
    {
      var curr := head.value;
      ghost var i := 0;
      LinkedAt(head, next, freeList, i);
      var pNext := GetNext(curr);
      while pNext.Some?
        invariant 0 <= i < |freeList| && curr == freeList[i] && pNext == Successor(freeList, i)
        decreases |freeList| - i
      {
        curr := pNext.value;
        i := i + 1;
        LinkedAt(head, next, freeList, i);
        pNext := GetNext(curr);
      }
      tail := curr;
    }

    /**
     * allocateNewMemoryBlock: obtain a block of `numObjects` chunks of stride
     * `objectSize + CHUNK_HEADER_SIZE` and thread their headers, each to the
     * following chunk and the last to null; null when `malloc` fails.  The
     * block goes at position `memArraySize` of the array.
     */
    method AllocateNewMemoryBlock(granted: bool) returns (b: RawBlock?)
      modifies this
      ensures b == null <==> !granted
      ensures b == null ==> next == old(next)
      ensures b != null ==> fresh(b) && b.numChunks == numObjects
                            && next == old(next) + Threaded(memArraySize, numObjects)
      ensures rawMemoryArray == old(rawMemoryArray) && memArraySize == old(memArraySize) && head == old(head)
      ensures freeList == old(freeList) && numObjects == old(numObjects)
      ensures allowResize == old(allowResize) && isInitialized == old(isInitialized)
    {
      var blockSize := Stride(objectSize);
      var trueSize := blockSize * numObjects;
      if !granted {
        return null;
      }
      b := new RawBlock(numObjects);
      ThreadChunks(blockSize, trueSize);
    }

    /** The loop of allocateNewMemoryBlock: walk the block a chunk at a time, writing each header. */
    method ThreadChunks(blockSize: nat, trueSize: nat)
      requires blockSize > 0 && trueSize == blockSize * numObjects
      modifies this
      ensures next == old(next) + Threaded(memArraySize, numObjects)
      ensures rawMemoryArray == old(rawMemoryArray) && memArraySize == old(memArraySize) && head == old(head)
      ensures freeList == old(freeList) && numObjects == old(numObjects)
      ensures allowResize == old(allowResize) && isInitialized == old(isInitialized)
    {
      var j, n := memArraySize, numObjects;
      var curr := 0;
      var k := 0;
      while curr < trueSize
        invariant curr == k * blockSize && k <= n
        invariant next == old(next) + ThreadedPrefix(j, k, n)
        invariant rawMemoryArray == old(rawMemoryArray) && memArraySize == j && head == old(head)
        invariant freeList == old(freeList) && numObjects == n
        invariant allowResize == old(allowResize) && isInitialized == old(isInitialized)
        decreases trueSize - curr
      {
        var pNext := curr + blockSize;
        ChunkStep(blockSize, k, n);
        ThreadedPrefixStep(old(next), j, k, n);
        SetNext(Chunk(j, k), if pNext < trueSize then Some(Chunk(j, k + 1)) else None);
        curr := pNext;
        k := k + 1;
      }
      StrideOrder(blockSize, k, n);
    }

    /** getNext: the header of chunk c. */
    function GetNext(c: Chunk): Option<Chunk>
      reads this
      requires c in next
    {
      next[c]
    }

    /** setNext: overwrite the header of chunk c. */
    method SetNext(c: Chunk, v: Option<Chunk>)
      modifies this
      ensures next == old(next)[c := v]
      ensures rawMemoryArray == old(rawMemoryArray) && memArraySize == old(memArraySize) && head == old(head)
      ensures freeList == old(freeList) && numObjects == old(numObjects)
      ensures allowResize == old(allowResize) && isInitialized == old(isInitialized)
    {
      next := next[c := v];
    }
  }

  // ---------------------------------------------------------------------------
  // Growth and destruction as the source writes them
  // ---------------------------------------------------------------------------

  /**
   * An address the free list can hold as written: a chunk of a block, the
   * word just before block `block`, or the word just before the block array
   * of `entries` entries.  Inside the class an unqualified `free` names the
   * member free, not the C library's, and the member takes the word before
   * its argument for a chunk header; the last two kinds are what it pushes
   * when handed a block or the array.
   */
  datatype Ptr = ChunkPtr(c: Chunk) | BeforeBlock(block: nat) | BeforeArray(entries: nat)

  /** The chunks of a list, as addresses. */
  function Lift(cs: seq<Chunk>): seq<Ptr>
  {
    seq(|cs|, i requires 0 <= i < |cs| => ChunkPtr(cs[i]))
  }

  /** The member free on the list as written: a non-null argument's header word becomes the head. */
  function MemberFree(fl: seq<Ptr>, p: Option<Ptr>): seq<Ptr>
  {
    if p.None? then fl else [p.value] + fl
  }

  /**
   * growMemoryArray as written, on a pool of j blocks of n chunks whose free
   * list is fl: the pair is (reported success, list after).  It reports
   * success once the array allocation succeeds, whether or not the block
   * allocation did, and the block's chunks (none when it failed) follow the
   * list.  An old array exists exactly when j > 0, since the array pointer
   * and its size are set together; its `free` is then the member, which puts
   * the word before the old array in front of the list.
   */
  function GrowAsWritten(fl: seq<Ptr>, j: nat, n: nat, arrayGranted: bool, blockGranted: bool): (bool, seq<Ptr>)
  {
    if !arrayGranted then (false, fl)
    else
      var attached := fl + (if blockGranted then Lift(BlockChunks(j, n)) else []);
      (true, MemberFree(attached, if j > 0 then Some(BeforeArray(j)) else None))
  }

  /** What alloc does: the address it hands out the data of, null, or a read of the header at null. */
  datatype AllocOutcome = HandedOut(p: Ptr) | ReturnsNull | ReadsHeaderOfNull

  /** alloc as written, on top of growth as written. */
  function AllocAsWritten(fl: seq<Ptr>, allowResize: bool, j: nat, n: nat,
                          arrayGranted: bool, blockGranted: bool): AllocOutcome
  {
    if |fl| > 0 then HandedOut(fl[0])
    else if !allowResize then ReturnsNull
    else
      var (grown, fl') := GrowAsWritten(fl, j, n, arrayGranted, blockGranted);
      if !grown then ReturnsNull
      else if fl' == [] then ReadsHeaderOfNull
      else HandedOut(fl'[0])
  }

  /**
   * Growth as written yields the list of the corrected growth
   * (MemoryPool.GrowMemoryArray: the old list, then the new block's chunks),
   * with the old array's header word in front whenever there was an old
   * array.
   */
  lemma GrowAsWrittenPushesOldArray(fl: seq<Chunk>, j: nat, n: nat)
    ensures GrowAsWritten(Lift(fl), j, n, true, true)
      == (true, (if j > 0 then [BeforeArray(j)] else []) + Lift(fl + BlockChunks(j, n)))
  {
    var attached := Lift(fl) + Lift(BlockChunks(j, n));
    assert attached == Lift(fl + BlockChunks(j, n));
    if j > 0 {
      assert MemberFree(attached, Some(BeforeArray(j))) == [BeforeArray(j)] + attached;
    } else {
      assert [] + attached == attached;
    }
  }

  /**
   * When the list runs dry on a pool that has blocks, the next alloc as
   * written hands out the old block array itself, as if it were a chunk,
   * whether or not the new block was obtained.  The corrected pool hands out
   * the new block's first chunk, or null (FillThenGrow).
   */
  lemma OldArrayHandedOut(j: nat, n: nat, blockGranted: bool)
    requires j > 0
    ensures AllocAsWritten([], true, j, n, true, blockGranted) == HandedOut(BeforeArray(j))
  {
  }

  /**
   * On a pool without a block array (after destroy, or an init whose array
   * allocation failed) with the block allocation failing, growth as written
   * reports success and leaves a null head, and alloc goes on to read the
   * header at null, where the corrected MemoryPool.Alloc returns null.
   */
  lemma FailedBlockReachesNullHead(n: nat)
    ensures GrowAsWritten([], 0, n, true, false) == (true, [])
    ensures AllocAsWritten([], true, 0, n, true, false) == ReadsHeaderOfNull
  {
  }

  /** The header words before blocks m-1, ..., 0: what destroy's loop pushes, the last block's in front. */
  function BlockWords(m: nat): seq<Ptr>
  {
    seq(m, i requires 0 <= i < m => BeforeBlock(m - 1 - i))
  }

  /**
   * The loop of destroy as written, on m non-null blocks: the member free on
   * blocks 0, ..., m-1 in turn.
   */
  function FreeBlocksAsWritten(fl: seq<Ptr>, m: nat): seq<Ptr>
  {
    if m == 0 then fl else MemberFree(FreeBlocksAsWritten(fl, m - 1), Some(BeforeBlock(m - 1)))
  }

  /**
   * destroy as written up to reset(): the list its member `free` calls leave,
   * which reset() then drops.  No block and no array is given back.
   */
  function DestroyFreesAsWritten(fl: seq<Ptr>, m: nat): seq<Ptr>
  {
    MemberFree(FreeBlocksAsWritten(fl, m), if m > 0 then Some(BeforeArray(m)) else None)
  }

  /** The loop pushes each block's header word, the last block's in front. */
  lemma {:induction false} FreeBlocksPushes(fl: seq<Ptr>, m: nat)
    ensures FreeBlocksAsWritten(fl, m) == BlockWords(m) + fl
  {
    if m > 0 {
      FreeBlocksPushes(fl, m - 1);
      assert BlockWords(m) == [BeforeBlock(m - 1)] + BlockWords(m - 1);
    }
  }

  /**
   * destroy as written releases nothing: the word before every block and
   * before the array goes onto the free list, which reset() then drops,
   * where the corrected MemoryPool.Destroy releases every block and the
   * array.
   */
  lemma DestroyPushesAsWritten(fl: seq<Ptr>, m: nat)
    requires m > 0
    ensures DestroyFreesAsWritten(fl, m) == [BeforeArray(m)] + BlockWords(m) + fl
    ensures forall b :: 0 <= b < m ==> BeforeBlock(b) in DestroyFreesAsWritten(fl, m)
    ensures |DestroyFreesAsWritten(fl, m)| == |fl| + m + 1
  {
    FreeBlocksPushes(fl, m);
    forall b | 0 <= b < m ensures BeforeBlock(b) in DestroyFreesAsWritten(fl, m) {
      assert BlockWords(m)[m - 1 - b] == BeforeBlock(b);
      assert DestroyFreesAsWritten(fl, m)[m - b] == BeforeBlock(b);
    }
  }

  // ---------------------------------------------------------------------------
  // Clients
  // ---------------------------------------------------------------------------

  /** free(p) followed by alloc() hands p out again and leaves the list as it was. */
  method FreeThenAlloc(pool: MemoryPool, c: Chunk) returns (p: Option<Chunk>)
    requires pool.Valid()
    requires Owned(pool.Blocks(), pool.numObjects, c) && c !in pool.freeList
    modifies pool
    ensures p == Some(c)
    ensures pool.Valid() && pool.head == old(pool.head) && pool.freeList == old(pool.freeList)
  {
    pool.Free(Some(c));
    p := pool.Alloc(false, false);
    assert ([c] + old(pool.freeList))[1..] == old(pool.freeList);
  }

  /**
   * In a consistent pool the head is the first free chunk, null exactly for
   * an empty list, and the free chunks are distinct chunks of the blocks.
   */
  lemma FreeListShape(pool: MemoryPool)
    requires pool.Valid()
    ensures pool.head.None? <==> pool.freeList == []
    ensures pool.head.Some? ==> pool.head.value == pool.freeList[0]
    ensures Distinct(pool.freeList)
    ensures forall x :: x in pool.freeList ==> x.block < pool.memArraySize && x.k < pool.numObjects
  {
    if pool.freeList != [] {
      LinkedAt(pool.head, pool.next, pool.freeList, 0);
    }
  }

  /**
   * Allocations while the free list is not empty: they hand out the whole
   * list in order and never grow the array.
   */
  method AllocAll(pool: MemoryPool, arrayGranted: bool, blockGranted: bool) returns (handedOut: seq<Chunk>)
    requires pool.Valid()
    modifies pool
    ensures pool.Valid() && pool.freeList == [] && pool.head == None
    ensures handedOut == old(pool.freeList) && Distinct(handedOut)
    ensures forall x :: x in handedOut ==> x.block < old(pool.memArraySize) && x.k < old(pool.numObjects)
    ensures pool.memArraySize == old(pool.memArraySize) && pool.numObjects == old(pool.numObjects)
    ensures pool.allowResize == old(pool.allowResize)
  {
    FreeListShape(pool);
    handedOut := [];
    while pool.head.Some?
      invariant pool.Valid() && pool.allowResize == old(pool.allowResize) && pool.numObjects == old(pool.numObjects)
      invariant pool.memArraySize == old(pool.memArraySize)
      invariant old(pool.freeList) == handedOut + pool.freeList
      decreases |pool.freeList|
    {
      FreeListShape(pool);
      ghost var free := pool.freeList;
      var p := pool.Alloc(arrayGranted, blockGranted);
      assert free == [p.value] + pool.freeList;
      assert handedOut + free == (handedOut + [p.value]) + pool.freeList;
      handedOut := handedOut + [p.value];
    }
    FreeListShape(pool);
  }

  /**
   * With every chunk free and resizing allowed, as many allocations as
   * there are chunks hand out the free list in order, all of it owned, while
   * the array keeps its size; the next one grows the array by one block
   * exactly when both allocations succeed, and hands out that block's first
   * chunk.
   */
  method FillThenGrow(pool: MemoryPool, arrayGranted: bool, blockGranted: bool)
    returns (handedOut: seq<Chunk>, ghost sizeBeforeLast: nat, last: Option<Chunk>)
    requires pool.Valid() && pool.allowResize
    requires |pool.freeList| == pool.numObjects * pool.memArraySize
    modifies pool
    ensures handedOut == old(pool.freeList) && Distinct(handedOut)
    ensures |handedOut| == old(pool.numObjects * pool.memArraySize)
    ensures forall c :: c in handedOut ==> Owned(pool.Blocks(), pool.numObjects, c) && c.block < old(pool.memArraySize)
    // the first C allocations leave the array as it was: only the last one grows it
    ensures sizeBeforeLast == old(pool.memArraySize)
    ensures pool.memArraySize == sizeBeforeLast + (if arrayGranted && blockGranted then 1 else 0)
    ensures last.Some? <==> arrayGranted && blockGranted && pool.numObjects > 0
    ensures last.Some? ==> last == Some(Chunk(sizeBeforeLast, 0)) && last.value !in handedOut
  {
    handedOut := AllocAll(pool, arrayGranted, blockGranted);
    sizeBeforeLast := pool.memArraySize;
    last := pool.Alloc(arrayGranted, blockGranted);
  }
}
