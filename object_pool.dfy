/**
 * The generational, block-structured, compacting object pool and its Handle.
 *
 * Every slot of the pool carries two things at once, exactly like the C++
 * `Object` struct: a lookup record (serial, block id, data index) and the
 * slot proper (payload, `lookup` reference to a record).  A record is named
 * by the logical number of the slot it physically lives in.  Live payloads
 * occupy the dense logical range [0, back); records freed by destruction are
 * parked, through the `lookup` field, in the slots [back, back + offset).
 */
module ObjectPools {
  import opened Wrappers

  /** Size of the pool's fixed block table: the largest value of the uint8_t block id. */
  const MAX_BLOCKS: nat := 255

  /** The class template only accepts a block size that is a power of two. */
  predicate IsPowerOf2(n: nat)
    decreases n
  {
    n == 1 || (n > 1 && n % 2 == 0 && IsPowerOf2(n / 2))
  }

  /** Physical location of a slot: (block_id, data_index). */
  datatype Loc = Loc(block: nat, index: nat)

  /** Logical slot number of a location, `block_id * OBJECTS_PER_BLOCK + data_index`. */
  function Pos(l: Loc, perBlock: nat): nat
  {
    l.block * perBlock + l.index
  }

  /** Location of logical slot i: `(i / OBJECTS_PER_BLOCK, i % OBJECTS_PER_BLOCK)`. */
  function LocOf(i: nat, perBlock: nat): (l: Loc)
    requires perBlock > 0
    ensures l.index < perBlock
    ensures Pos(l, perBlock) == i
  {
    Loc(i / perBlock, i % perBlock)
  }

  /** A location inside a block is the location of its own logical number. */
  lemma LocOfPos(l: Loc, perBlock: nat)
    requires perBlock > 0 && l.index < perBlock
    ensures LocOf(Pos(l, perBlock), perBlock) == l
  {
    var q := Pos(l, perBlock) / perBlock;
    if q < l.block {
      MulStep(q, l.block, perBlock);
    } else if q > l.block {
      MulStep(l.block, q, perBlock);
    }
  }

  /** A larger factor adds at least one more copy of the other. */
  lemma {:induction false} MulStep(a: nat, b: nat, c: nat)
    requires a < b
    ensures a * c + c <= b * c
  {
    if a + 1 < b {
      MulStep(a, b - 1, c);
      assert (b - 1) * c + c == b * c;
    } else {
      assert (a + 1) * c == a * c + c;
    }
  }

  /**
   * With n blocks of perBlock slots, the block of slot i exists exactly when
   * i < n * perBlock, and slot i <= n * perBlock lies at most one block past the end.
   */
  lemma BlockOfSlot(i: nat, perBlock: nat, n: nat)
    requires perBlock > 0 && i <= n * perBlock
    ensures i / perBlock <= n
    ensures i / perBlock < n <==> i < n * perBlock
  {
    var q := i / perBlock;
    if q > n {
      MulStep(n, q, perBlock);
    } else if q < n {
      MulStep(q, n, perBlock);
    }
  }

  /** One slot of a block: the lookup record followed by the slot proper. */
  datatype Slot<T> = Slot(serial: nat, loc: Loc, data: Option<T>, lookup: Option<nat>)

  /** A slot of a freshly allocated, zero-filled block. */
  function ZeroSlot<T>(): Slot<T>
  {
    Slot(0, Loc(0, 0), None, None)
  }

  datatype PoolError = BadAlloc | OutOfRange

  /** The dense live range after the payload at index i is destroyed by swap-and-pop. */
  function SwapPop<T>(s: seq<T>, i: nat): (r: seq<T>)
    requires i < |s|
    ensures |r| == |s| - 1
    ensures forall j :: 0 <= j < |r| ==> r[j] == if j == i then s[|s| - 1] else s[j]
  {
    s[i := s[|s| - 1]][..|s| - 1]
  }

  /** Swap-and-pop removes exactly the destroyed payload and keeps every other one. */
  lemma SwapPopMultiset<T>(s: seq<T>, i: nat)
    requires i < |s|
    ensures multiset(SwapPop(s, i)) == multiset(s) - multiset{s[i]}
  {
    var n := |s| - 1;
    assert s == s[..n] + [s[n]];
    if i == n {
      assert SwapPop(s, i) == s[..n];
    } else {
      var t := s[i := s[n]];
      assert multiset(t) == multiset(s) - multiset{s[i]} + multiset{s[n]};
      assert t == SwapPop(s, i) + [s[n]];
    }
  }

  /** The payloads of the first n slots, in logical order. */
  function LiveData<T>(ss: seq<Slot<T>>, n: nat): (r: seq<T>)
    requires n <= |ss| && forall i :: 0 <= i < n ==> ss[i].data.Some?
    ensures |r| == n && forall i :: 0 <= i < n ==> Some(r[i]) == ss[i].data
  {
    seq(n, i requires 0 <= i < n => ss[i].data.value)
  }

  /**
   * A reference to a pooled object: the record it names, the serial it saw
   * when it was made, and the pool that made it (null for an empty handle).
   * Handles are values: copying one copies all three fields.
   */
  datatype Handle<T> = Handle(rec: Option<nat>, serial: nat, pool: ObjectPool?<T>) {

    /** The empty handle: what the default constructor and `reset` produce. */
    static function Empty(): (h: Handle<T>)
      ensures !h.IsInitialized() && !h.IsValid()
    {
      Handle(None, 0, null)
    }

    /** A serial of 0 means the handle was never given an object. */
    predicate IsInitialized()
    {
      serial > 0
    }

    /**
     * The handle's pool still exists and the handle's serial still equals the
     * current serial of its record.  Once the pool is gone no handle of it is
     * valid.
     */
    predicate IsValid()
      reads pool
    {
      rec.Some? && pool != null && pool.alive && rec.value < |pool.slots| && pool.slots[rec.value].serial == serial
    }

    /** The handle is empty, or was handed out by a consistent pool. */
    ghost predicate WellFormed()
      reads pool
    {
      this == Empty() || (pool != null && pool.Valid() && rec.Some? && (rec.value, serial) in pool.issued)
    }

    /** The live payload the handle refers to, if it is still valid. */
    function Get(): (r: Option<T>)
      reads pool
      requires WellFormed()
      ensures r.Some? <==> IsValid()
      // a valid handle reaches the live object at its record's logical position
      ensures IsValid() ==>
        pool.IndexOf(rec.value) < |pool.Contents()| && r == Some(pool.Contents()[pool.IndexOf(rec.value)])
    {
      if IsValid() then pool.ValueOf(rec.value) else None
    }

    /** Clears record, serial and pool, whatever the handle held. */
    function Reset(): (h: Handle<T>)
      ensures !h.IsInitialized() && !h.IsValid() && h.WellFormed()
    {
      Empty()
    }

    /** Two handles are equal when they name the same record of the same pool with the same serial. */
    function Equals(other: Handle<T>): (eq: bool)
      ensures eq <==> this == other
    {
      rec == other.rec && serial == other.serial && pool == other.pool
    }

    /** The equality operator as written: the record test compares `rhs` with itself. */
    function EqualsAsWritten(other: Handle<T>): bool
    {
      serial == other.serial && other.rec == other.rec
    }

    /**
     * Destroys the referenced object through its pool and empties the handle.
     * Fails, changing nothing, on an uninitialised, stale or empty handle, or
     * when the pool is gone.
     */
    method Destroy() returns (ok: bool, after: Handle<T>)
      requires WellFormed()
      modifies pool
      ensures ok <==> IsInitialized() && old(IsValid()) && rec.Some? && pool != null && old(pool.alive)
      ensures ok ==> after == Empty() && pool.Valid() && !IsValid()
      ensures ok ==> pool.back == old(pool.back) - 1
      ensures ok ==> pool.Contents() == SwapPop(old(pool.Contents()), old(pool.IndexOf(rec.value)))
      ensures ok ==> forall q :: q != rec.value ==> pool.ValueOf(q) == old(pool.ValueOf(q))
      ensures ok ==> forall q: nat :: q != rec.value && old(pool.LiveRec(q)) ==>
        pool.LiveRec(q) && pool.slots[q].serial == old(pool.slots[q].serial)
      ensures ok ==> pool.issued == old(pool.issued) && pool.alive == old(pool.alive)
      ensures !ok ==> after == this && (pool != null ==> unchanged(pool))
    {
      // validity includes the pool's existence, so the weak reference locks here
      if !IsInitialized() || !IsValid() || rec.None? {
        return false, this;
      }
      pool.DestroyObject(rec.value);
      return true, Reset();
    }
  }

  /**
   * A valid handle of a pool's own making is initialised, so the
   * `isInitialized()` test of `destroy` never rejects a valid handle.
   */
  lemma ValidIsInitialized<T>(h: Handle<T>)
    requires h.WellFormed() && h.IsValid()
    ensures h.IsInitialized()
  {
  }

  /** The record issued to a handle of a pool's own making: a (record, serial) pair. */
  type Issue = (nat, nat)

  // ---------------------------------------------------------------------------
  // The pool's state as values: the invariant and the effect of each operation
  // ---------------------------------------------------------------------------

  /** Record r names a live object: its location is a live slot whose lookup is r. */
  ghost predicate LiveIn<T>(ss: seq<Slot<T>>, perBlock: nat, back: nat, r: nat)
  {
    r < |ss| && Pos(ss[r].loc, perBlock) < back && Pos(ss[r].loc, perBlock) < |ss|
    && ss[Pos(ss[r].loc, perBlock)].lookup == Some(r)
  }

  /** The payload reached by following record r to its location, if r names a live object. */
  function ValueIn<T>(ss: seq<Slot<T>>, perBlock: nat, back: nat, r: nat): (v: Option<T>)
    ensures v.Some? ==> LiveIn(ss, perBlock, back, r)
  {
    if r < |ss| && Pos(ss[r].loc, perBlock) < back && Pos(ss[r].loc, perBlock) < |ss|
       && ss[Pos(ss[r].loc, perBlock)].lookup == Some(r)
    then ss[Pos(ss[r].loc, perBlock)].data
    else None
  }

  /** The record slot i refers to through its `lookup` field. */
  function LookupOf<T>(ss: seq<Slot<T>>, i: nat): nat
    requires i < |ss| && ss[i].lookup.Some?
  {
    ss[i].lookup.value
  }

  /** Live and parked slots name distinct records, all of them among the used ones. */
  ghost predicate LookupsDistinct<T>(ss: seq<Slot<T>>, used: nat)
    requires used <= |ss|
  {
    (forall i :: 0 <= i < used ==> ss[i].lookup.Some? && ss[i].lookup.value < used)
    && (forall i, j {:trigger LookupOf(ss, i), LookupOf(ss, j)} ::
          0 <= i < used && 0 <= j < used && i != j ==> LookupOf(ss, i) != LookupOf(ss, j))
  }

  /** The record of every live slot holds that slot's location. */
  ghost predicate Located<T>(ss: seq<Slot<T>>, perBlock: nat, back: nat)
    requires 0 < perBlock && back <= |ss|
    requires forall i :: 0 <= i < back ==> ss[i].lookup.Some? && ss[i].lookup.value < |ss|
  {
    forall i {:trigger LookupOf(ss, i)} :: 0 <= i < back ==> ss[LookupOf(ss, i)].loc == LocOf(i, perBlock)
  }

  /** A serial put into a handle is never ahead of its record, and a current one names a live object. */
  ghost predicate IssuedSound<T>(ss: seq<Slot<T>>, perBlock: nat, back: nat, issued: set<Issue>)
  {
    forall p :: p in issued ==>
      p.0 < |ss| && 0 < p.1 <= ss[p.0].serial && (p.1 == ss[p.0].serial ==> LiveIn(ss, perBlock, back, p.0))
  }

  /** Sizes, and which slots hold a payload and which records were ever used. */
  ghost predicate Shape<T>(perBlock: nat, numBlocks: nat, ss: seq<Slot<T>>, back: nat, offset: nat)
  {
    0 < perBlock && 0 < numBlocks <= MAX_BLOCKS
    && |ss| == numBlocks * perBlock
    && back + offset <= |ss|
    // exactly the live slots hold a payload
    && (forall i :: 0 <= i < |ss| ==> (ss[i].data.Some? <==> i < back))
    // exactly the records ever used have a positive serial
    && (forall i :: 0 <= i < |ss| ==> (ss[i].serial > 0 <==> i < back + offset))
  }

  /** The invariant of a pool whose fields hold these values. */
  ghost predicate PoolInv<T>(perBlock: nat, numBlocks: nat, ss: seq<Slot<T>>, back: nat, offset: nat, issued: set<Issue>)
  {
    Shape(perBlock, numBlocks, ss, back, offset)
    && LookupsDistinct(ss, back + offset)
    && Located(ss, perBlock, back)
    && IssuedSound(ss, perBlock, back, issued)
  }

  /** The slots after one zero-filled block is appended. */
  function Grown<T>(ss: seq<Slot<T>>, perBlock: nat): (r: seq<Slot<T>>)
    ensures |r| == |ss| + perBlock
    ensures forall i :: 0 <= i < |r| ==> r[i] == if i < |ss| then ss[i] else ZeroSlot()
  {
    ss + seq(perBlock, _ => ZeroSlot())
  }

  /** The record createObject hands out: the one parked in the target slot, or that slot's own. */
  function ChosenRecord<T>(ss: seq<Slot<T>>, back: nat, offset: nat): nat
    requires back < |ss| && (offset > 0 ==> ss[back].lookup.Some?)
  {
    if offset > 0 then ss[back].lookup.value else back
  }

  /**
   * The slots after createObject fills target slot `back` (whose block exists):
   * a fresh record gets serial 1 and becomes the slot's lookup, the chosen
   * record is pointed at the slot, and the payload is placed there.
   */
  function AfterCreate<T>(ss: seq<Slot<T>>, perBlock: nat, back: nat, offset: nat, value: T): (r: seq<Slot<T>>)
    requires 0 < perBlock && back < |ss| && (offset > 0 ==> ss[back].lookup.Some?)
    ensures |r| == |ss|
  {
    var rec := ChosenRecord(ss, back, offset);
    seq(|ss|, i requires 0 <= i < |ss| =>
      Slot(if offset == 0 && i == back then ss[i].serial + 1 else ss[i].serial,
           if i == rec then LocOf(back, perBlock) else ss[i].loc,
           if i == back then Some(value) else ss[i].data,
           if offset == 0 && i == back then Some(back) else ss[i].lookup))
  }

  /**
   * The slots after destroyObject on live record r: r's serial goes up, the
   * last live payload and its lookup move into r's slot, the moved record is
   * pointed there, and r is parked in the old last slot.
   */
  function AfterDestroy<T>(ss: seq<Slot<T>>, perBlock: nat, back: nat, r: nat): (s: seq<Slot<T>>)
    requires 0 < back <= |ss| && r < |ss| && Pos(ss[r].loc, perBlock) < back && ss[back - 1].lookup.Some?
    ensures |s| == |ss|
  {
    var idx := Pos(ss[r].loc, perBlock);
    var last := back - 1;
    var living := ss[last].lookup.value;
    seq(|ss|, i requires 0 <= i < |ss| =>
      Slot(if i == r then ss[i].serial + 1 else ss[i].serial,
           if i == living then ss[r].loc else ss[i].loc,
           if i == last then None else if i == idx then ss[last].data else ss[i].data,
           if i == last then Some(r) else if i == idx then ss[last].lookup else ss[i].lookup))
  }

  /** Appending a block keeps the invariant and every record's payload. */
  lemma GrowKeepsInv<T>(perBlock: nat, numBlocks: nat, ss: seq<Slot<T>>, back: nat, offset: nat, issued: set<Issue>)
    requires PoolInv(perBlock, numBlocks, ss, back, offset, issued) && numBlocks < MAX_BLOCKS
    ensures PoolInv(perBlock, numBlocks + 1, Grown(ss, perBlock), back, offset, issued)
    ensures forall q :: ValueIn(Grown(ss, perBlock), perBlock, back, q) == ValueIn(ss, perBlock, back, q)
  {
    var g := Grown(ss, perBlock);
    assert |g| == (numBlocks + 1) * perBlock;
    assert forall i :: 0 <= i < |ss| ==> g[i] == ss[i];
    forall q: nat ensures ValueIn(g, perBlock, back, q) == ValueIn(ss, perBlock, back, q) {
      if q < |ss| {
        assert g[q] == ss[q];
      }
    }
    forall i | 0 <= i < back + offset ensures LookupOf(g, i) == LookupOf(ss, i) {
    }
    forall i | 0 <= i < back ensures g[LookupOf(g, i)].loc == LocOf(i, perBlock) {
      assert LookupOf(g, i) == LookupOf(ss, i);
    }
    forall p | p in issued
      ensures p.0 < |g| && 0 < p.1 <= g[p.0].serial && (p.1 == g[p.0].serial ==> LiveIn(g, perBlock, back, p.0))
    {
      assert g[p.0] == ss[p.0];
    }
  }

  /** A record that createObject can choose does not name a live object. */
  lemma ChosenRecordNotLive<T>(perBlock: nat, numBlocks: nat, ss: seq<Slot<T>>, back: nat, offset: nat, issued: set<Issue>)
    requires PoolInv(perBlock, numBlocks, ss, back, offset, issued) && back < |ss|
    ensures offset > 0 ==> ss[back].lookup.Some?
    ensures ChosenRecord(ss, back, offset) < |ss|
    ensures !LiveIn(ss, perBlock, back, ChosenRecord(ss, back, offset))
    ensures offset == 0 ==> ss[back].serial == 0
  {
    if offset > 0 {
      forall k | 0 <= k < back ensures ss[k].lookup != ss[back].lookup {
        assert LookupOf(ss, k) != LookupOf(ss, back);
      }
    }
  }

  /**
   * Generation uniqueness: the serial createObject hands out for its record
   * is larger than every serial any earlier handle got for that record.
   */
  lemma CreateSerialIsNew<T>(perBlock: nat, numBlocks: nat, ss: seq<Slot<T>>, back: nat, offset: nat,
                             issued: set<Issue>, value: T)
    requires PoolInv(perBlock, numBlocks, ss, back, offset, issued) && back < |ss|
    ensures offset > 0 ==> ss[back].lookup.Some?
    ensures var rec := ChosenRecord(ss, back, offset);
      var s1 := AfterCreate(ss, perBlock, back, offset, value);
      && 0 < s1[rec].serial
      && (offset == 0 ==> s1[rec].serial == 1)
      && forall p :: p in issued && p.0 == rec ==> p.1 < s1[rec].serial
  {
    ChosenRecordNotLive(perBlock, numBlocks, ss, back, offset, issued);
  }

  /** createObject keeps the sizes, the payload range and the used-record range. */
  lemma CreateKeepsShape<T>(perBlock: nat, numBlocks: nat, ss: seq<Slot<T>>, back: nat, offset: nat, value: T)
    requires Shape(perBlock, numBlocks, ss, back, offset) && back < |ss|
    requires offset > 0 ==> ss[back].lookup.Some?
    ensures Shape(perBlock, numBlocks, AfterCreate(ss, perBlock, back, offset, value),
                  back + 1, if offset > 0 then offset - 1 else 0)
  {
  }

  /** createObject keeps the lookups distinct and every live slot located by its record. */
  lemma CreateKeepsLookups<T>(perBlock: nat, numBlocks: nat, ss: seq<Slot<T>>, back: nat, offset: nat, value: T)
    requires Shape(perBlock, numBlocks, ss, back, offset) && back < |ss|
    requires LookupsDistinct(ss, back + offset) && Located(ss, perBlock, back)
    ensures offset > 0 ==> ss[back].lookup.Some?
    ensures var s1 := AfterCreate(ss, perBlock, back, offset, value);
      && LookupsDistinct(s1, back + 1 + (if offset > 0 then offset - 1 else 0))
      && Located(s1, perBlock, back + 1)
  {
    var rec := ChosenRecord(ss, back, offset);
    var s1 := AfterCreate(ss, perBlock, back, offset, value);
    var used1 := back + 1 + (if offset > 0 then offset - 1 else 0);
    forall i, j | 0 <= i < used1 && 0 <= j < used1 && i != j ensures s1[i].lookup != s1[j].lookup {
      if offset == 0 && (i == back || j == back) {
        assert ss[if i == back then j else i].lookup.value < back;
      } else {
        assert LookupOf(ss, i) != LookupOf(ss, j);
      }
    }
    forall i | 0 <= i < back + 1 ensures s1[LookupOf(s1, i)].loc == LocOf(i, perBlock) {
      if i < back {
        assert LookupOf(s1, i) == LookupOf(ss, i);
        if offset > 0 {
          assert LookupOf(ss, i) != LookupOf(ss, back);
        } else {
          assert ss[i].lookup.value < back;
        }
      }
    }
  }

  /** createObject keeps every issued serial sound, with its new (record, serial) pair added. */
  lemma CreateKeepsIssued<T>(perBlock: nat, numBlocks: nat, ss: seq<Slot<T>>, back: nat, offset: nat,
                             issued: set<Issue>, value: T)
    requires PoolInv(perBlock, numBlocks, ss, back, offset, issued) && back < |ss|
    ensures offset > 0 ==> ss[back].lookup.Some?
    ensures var rec := ChosenRecord(ss, back, offset);
      var s1 := AfterCreate(ss, perBlock, back, offset, value);
      IssuedSound(s1, perBlock, back + 1, issued + {(rec, s1[rec].serial)})
  {
    ChosenRecordNotLive(perBlock, numBlocks, ss, back, offset, issued);
    CreateSerialIsNew(perBlock, numBlocks, ss, back, offset, issued, value);
    var rec := ChosenRecord(ss, back, offset);
    var s1 := AfterCreate(ss, perBlock, back, offset, value);
    forall p | p in issued + {(rec, s1[rec].serial)}
      ensures p.0 < |s1| && 0 < p.1 <= s1[p.0].serial && (p.1 == s1[p.0].serial ==> LiveIn(s1, perBlock, back + 1, p.0))
    {
      if p == (rec, s1[rec].serial) {
        assert Pos(s1[rec].loc, perBlock) == back;
      } else if p.0 != rec && p.1 == s1[p.0].serial {
        assert p.0 != back || offset > 0;
        assert LiveIn(ss, perBlock, back, p.0);
        var j := Pos(ss[p.0].loc, perBlock);
        assert s1[j].lookup == ss[j].lookup;
      }
    }
  }

  /** createObject keeps the invariant, with its new (record, serial) pair issued. */
  lemma CreateKeepsInv<T>(perBlock: nat, numBlocks: nat, ss: seq<Slot<T>>, back: nat, offset: nat,
                          issued: set<Issue>, value: T)
    requires PoolInv(perBlock, numBlocks, ss, back, offset, issued) && back < |ss|
    ensures offset > 0 ==> ss[back].lookup.Some?
    ensures var rec := ChosenRecord(ss, back, offset);
      var s1 := AfterCreate(ss, perBlock, back, offset, value);
      PoolInv(perBlock, numBlocks, s1, back + 1, if offset > 0 then offset - 1 else 0, issued + {(rec, s1[rec].serial)})
  {
    CreateKeepsShape(perBlock, numBlocks, ss, back, offset, value);
    CreateKeepsLookups(perBlock, numBlocks, ss, back, offset, value);
    CreateKeepsIssued(perBlock, numBlocks, ss, back, offset, issued, value);
  }

  /**
   * createObject makes its record reach the new payload, appends that payload
   * to the live range, and every other record reaches what it reached before.
   */
  lemma CreateKeepsValues<T>(perBlock: nat, numBlocks: nat, ss: seq<Slot<T>>, back: nat, offset: nat,
                             issued: set<Issue>, value: T)
    requires PoolInv(perBlock, numBlocks, ss, back, offset, issued) && back < |ss|
    ensures offset > 0 ==> ss[back].lookup.Some?
    ensures var rec := ChosenRecord(ss, back, offset);
      var s1 := AfterCreate(ss, perBlock, back, offset, value);
      && ValueIn(s1, perBlock, back + 1, rec) == Some(value)
      && (forall q :: q != rec ==> ValueIn(s1, perBlock, back + 1, q) == ValueIn(ss, perBlock, back, q))
      && LiveData(s1, back + 1) == LiveData(ss, back) + [value]
  {
    ChosenRecordNotLive(perBlock, numBlocks, ss, back, offset, issued);
    var rec := ChosenRecord(ss, back, offset);
    var s1 := AfterCreate(ss, perBlock, back, offset, value);
    assert Pos(s1[rec].loc, perBlock) == back;
    forall q: nat | q != rec
      ensures ValueIn(s1, perBlock, back + 1, q) == ValueIn(ss, perBlock, back, q)
    {
      if q < |ss| {
        var j := Pos(ss[q].loc, perBlock);
        if j == back {
          assert s1[j].lookup == Some(rec);
        }
      }
    }
    assert LiveData(s1, back + 1) == LiveData(ss, back) + [value];
  }

  /** What destroyObject relies on: the moved record is another one exactly when the hole is not last. */
  lemma DestroyFacts<T>(perBlock: nat, numBlocks: nat, ss: seq<Slot<T>>, back: nat, offset: nat, r: nat)
    requires Shape(perBlock, numBlocks, ss, back, offset)
    requires LookupsDistinct(ss, back + offset) && Located(ss, perBlock, back)
    requires LiveIn(ss, perBlock, back, r)
    ensures ss[back - 1].lookup.Some? && ss[back - 1].lookup.value < |ss|
    ensures var idx, living := Pos(ss[r].loc, perBlock), ss[back - 1].lookup.value;
      && (idx == back - 1 <==> living == r)
      && ss[r].loc == LocOf(idx, perBlock)
      && ss[living].loc == LocOf(back - 1, perBlock)
  {
    var idx := Pos(ss[r].loc, perBlock);
    assert LookupOf(ss, idx) == r;
    assert LookupOf(ss, back - 1) == ss[back - 1].lookup.value;
    if idx != back - 1 {
      assert LookupOf(ss, idx) != LookupOf(ss, back - 1);
    }
  }

  /** destroyObject keeps the sizes, the payload range and the used-record range. */
  lemma DestroyKeepsShape<T>(perBlock: nat, numBlocks: nat, ss: seq<Slot<T>>, back: nat, offset: nat, r: nat)
    requires Shape(perBlock, numBlocks, ss, back, offset)
    requires LookupsDistinct(ss, back + offset) && Located(ss, perBlock, back)
    requires LiveIn(ss, perBlock, back, r)
    ensures ss[back - 1].lookup.Some?
    ensures Shape(perBlock, numBlocks, AfterDestroy(ss, perBlock, back, r), back - 1, offset + 1)
  {
    DestroyFacts(perBlock, numBlocks, ss, back, offset, r);
  }

  /** destroyObject exchanges the lookups of the hole and the last live slot, so they stay distinct. */
  lemma DestroyKeepsDistinct<T>(perBlock: nat, numBlocks: nat, ss: seq<Slot<T>>, back: nat, offset: nat, r: nat)
    requires Shape(perBlock, numBlocks, ss, back, offset)
    requires LookupsDistinct(ss, back + offset) && Located(ss, perBlock, back)
    requires LiveIn(ss, perBlock, back, r)
    ensures ss[back - 1].lookup.Some?
    ensures LookupsDistinct(AfterDestroy(ss, perBlock, back, r), back + offset)
  {
    DestroyFacts(perBlock, numBlocks, ss, back, offset, r);
    var s1 := AfterDestroy(ss, perBlock, back, r);
    var idx, last := Pos(ss[r].loc, perBlock), back - 1;
    var used := back + offset;
    forall i | 0 <= i < used
      ensures s1[i].lookup == ss[if i == idx then last else if i == last then idx else i].lookup
    {
    }
    forall i, j | 0 <= i < used && 0 <= j < used && i != j ensures s1[i].lookup != s1[j].lookup {
      var i' := if i == idx then last else if i == last then idx else i;
      var j' := if j == idx then last else if j == last then idx else j;
      assert LookupOf(ss, i') != LookupOf(ss, j');
    }
  }

  /** After destroyObject the record of every live slot still locates it. */
  lemma DestroyKeepsLocated<T>(perBlock: nat, numBlocks: nat, ss: seq<Slot<T>>, back: nat, offset: nat, r: nat)
    requires Shape(perBlock, numBlocks, ss, back, offset)
    requires LookupsDistinct(ss, back + offset) && Located(ss, perBlock, back)
    requires LiveIn(ss, perBlock, back, r)
    ensures ss[back - 1].lookup.Some?
    ensures var s1 := AfterDestroy(ss, perBlock, back, r);
      LookupsDistinct(s1, back + offset) && Located(s1, perBlock, back - 1)
  {
    DestroyFacts(perBlock, numBlocks, ss, back, offset, r);
    DestroyKeepsDistinct(perBlock, numBlocks, ss, back, offset, r);
    var s1 := AfterDestroy(ss, perBlock, back, r);
    var idx, last := Pos(ss[r].loc, perBlock), back - 1;
    var living := ss[last].lookup.value;
    forall i | 0 <= i < last ensures s1[LookupOf(s1, i)].loc == LocOf(i, perBlock) {
      if i == idx {
        assert LookupOf(s1, i) == living;
      } else {
        var q := LookupOf(ss, i);
        assert LookupOf(s1, i) == q;
        assert s1[i].lookup == ss[i].lookup;
        assert LookupOf(ss, i) != LookupOf(ss, last);
        assert s1[q].loc == ss[q].loc;
      }
    }
  }

  /** destroyObject keeps every issued serial sound. */
  lemma DestroyKeepsIssued<T>(perBlock: nat, numBlocks: nat, ss: seq<Slot<T>>, back: nat, offset: nat,
                              issued: set<Issue>, r: nat)
    requires PoolInv(perBlock, numBlocks, ss, back, offset, issued) && LiveIn(ss, perBlock, back, r)
    ensures ss[back - 1].lookup.Some?
    ensures IssuedSound(AfterDestroy(ss, perBlock, back, r), perBlock, back - 1, issued)
  {
    DestroyFacts(perBlock, numBlocks, ss, back, offset, r);
    var s1 := AfterDestroy(ss, perBlock, back, r);
    var idx, last := Pos(ss[r].loc, perBlock), back - 1;
    var living := ss[last].lookup.value;
    forall p | p in issued
      ensures p.0 < |s1| && 0 < p.1 <= s1[p.0].serial && (p.1 == s1[p.0].serial ==> LiveIn(s1, perBlock, last, p.0))
    {
      if p.1 == s1[p.0].serial && p.0 != r {
        assert LiveIn(ss, perBlock, back, p.0);
        if p.0 == living {
          assert Pos(s1[p.0].loc, perBlock) == idx;
        } else {
          var j := Pos(ss[p.0].loc, perBlock);
          assert j != idx && j != last;
        }
      }
    }
  }

  /** destroyObject keeps the invariant. */
  lemma DestroyKeepsInv<T>(perBlock: nat, numBlocks: nat, ss: seq<Slot<T>>, back: nat, offset: nat,
                           issued: set<Issue>, r: nat)
    requires PoolInv(perBlock, numBlocks, ss, back, offset, issued) && LiveIn(ss, perBlock, back, r)
    ensures ss[back - 1].lookup.Some?
    ensures PoolInv(perBlock, numBlocks, AfterDestroy(ss, perBlock, back, r), back - 1, offset + 1, issued)
  {
    DestroyKeepsShape(perBlock, numBlocks, ss, back, offset, r);
    DestroyKeepsLocated(perBlock, numBlocks, ss, back, offset, r);
    DestroyKeepsIssued(perBlock, numBlocks, ss, back, offset, issued, r);
  }

  /** destroyObject leaves record r reaching nothing and every other record reaching what it reached. */
  lemma DestroyKeepsValues<T>(perBlock: nat, numBlocks: nat, ss: seq<Slot<T>>, back: nat, offset: nat, r: nat)
    requires Shape(perBlock, numBlocks, ss, back, offset)
    requires LookupsDistinct(ss, back + offset) && Located(ss, perBlock, back)
    requires LiveIn(ss, perBlock, back, r)
    ensures ss[back - 1].lookup.Some?
    ensures var s1 := AfterDestroy(ss, perBlock, back, r);
      && ValueIn(s1, perBlock, back - 1, r) == None
      && (forall q :: q != r ==> ValueIn(s1, perBlock, back - 1, q) == ValueIn(ss, perBlock, back, q))
  {
    DestroyFacts(perBlock, numBlocks, ss, back, offset, r);
    var s1 := AfterDestroy(ss, perBlock, back, r);
    var idx, last := Pos(ss[r].loc, perBlock), back - 1;
    var living := ss[last].lookup.value;
    forall q: nat | q != r
      ensures ValueIn(s1, perBlock, last, q) == ValueIn(ss, perBlock, back, q)
    {
      if q < |ss| && q != living {
        var j := Pos(ss[q].loc, perBlock);
        if j < |ss| && (ss[j].lookup == Some(q) || s1[j].lookup == Some(q)) {
          assert j != idx && j != last;
        }
      }
    }
  }

  /** destroyObject compacts the live range by swap-and-pop. */
  lemma DestroyCompacts<T>(perBlock: nat, numBlocks: nat, ss: seq<Slot<T>>, back: nat, offset: nat, r: nat)
    requires Shape(perBlock, numBlocks, ss, back, offset)
    requires LookupsDistinct(ss, back + offset) && Located(ss, perBlock, back)
    requires LiveIn(ss, perBlock, back, r)
    ensures ss[back - 1].lookup.Some?
    ensures LiveData(AfterDestroy(ss, perBlock, back, r), back - 1) == SwapPop(LiveData(ss, back), Pos(ss[r].loc, perBlock))
  {
    DestroyFacts(perBlock, numBlocks, ss, back, offset, r);
  }

  /** Everything createObject establishes about the new state, in one place. */
  lemma CreateSpec<T>(perBlock: nat, numBlocks: nat, ss: seq<Slot<T>>, back: nat, offset: nat,
                      issued: set<Issue>, value: T)
    requires PoolInv(perBlock, numBlocks, ss, back, offset, issued) && back < |ss|
    ensures offset > 0 ==> ss[back].lookup.Some?
    ensures ChosenRecord(ss, back, offset) < |ss|
    ensures var rec := ChosenRecord(ss, back, offset);
      var s1 := AfterCreate(ss, perBlock, back, offset, value);
      && PoolInv(perBlock, numBlocks, s1, back + 1, if offset > 0 then offset - 1 else 0, issued + {(rec, s1[rec].serial)})
      && 0 < s1[rec].serial
      && (offset == 0 ==> s1[rec].serial == 1)
      && (forall p :: p in issued && p.0 == rec ==> p.1 < s1[rec].serial)
      && ValueIn(s1, perBlock, back + 1, rec) == Some(value)
      && (forall q :: q != rec ==> ValueIn(s1, perBlock, back + 1, q) == ValueIn(ss, perBlock, back, q))
      && LiveData(s1, back + 1) == LiveData(ss, back) + [value]
      && (forall q: nat :: LiveIn(ss, perBlock, back, q) ==> LiveIn(s1, perBlock, back + 1, q) && s1[q].serial == ss[q].serial)
  {
    ChosenRecordNotLive(perBlock, numBlocks, ss, back, offset, issued);
    CreateKeepsInv(perBlock, numBlocks, ss, back, offset, issued, value);
    CreateKeepsValues(perBlock, numBlocks, ss, back, offset, issued, value);
    CreateSerialIsNew(perBlock, numBlocks, ss, back, offset, issued, value);
    var rec := ChosenRecord(ss, back, offset);
    var s1 := AfterCreate(ss, perBlock, back, offset, value);
    forall q: nat | LiveIn(ss, perBlock, back, q)
      ensures LiveIn(s1, perBlock, back + 1, q) && s1[q].serial == ss[q].serial
    {
      assert ValueIn(ss, perBlock, back, q).Some?;
      assert ValueIn(s1, perBlock, back + 1, q).Some?;
    }
  }

  /** Everything destroyObject establishes about the new state, in one place. */
  lemma DestroySpec<T>(perBlock: nat, numBlocks: nat, ss: seq<Slot<T>>, back: nat, offset: nat,
                       issued: set<Issue>, r: nat)
    requires PoolInv(perBlock, numBlocks, ss, back, offset, issued) && LiveIn(ss, perBlock, back, r)
    ensures ss[back - 1].lookup.Some? && ss[back - 1].lookup.value < |ss|
    ensures Pos(ss[r].loc, perBlock) == back - 1 <==> ss[back - 1].lookup.value == r
    ensures var s1 := AfterDestroy(ss, perBlock, back, r);
      && PoolInv(perBlock, numBlocks, s1, back - 1, offset + 1, issued)
      && LiveData(s1, back - 1) == SwapPop(LiveData(ss, back), Pos(ss[r].loc, perBlock))
      && ValueIn(s1, perBlock, back - 1, r) == None
      && (forall q :: q != r ==> ValueIn(s1, perBlock, back - 1, q) == ValueIn(ss, perBlock, back, q))
      && (forall q: nat :: q != r && LiveIn(ss, perBlock, back, q) ==> LiveIn(s1, perBlock, back - 1, q) && s1[q].serial == ss[q].serial)
  {
    DestroyFacts(perBlock, numBlocks, ss, back, offset, r);
    DestroyKeepsInv(perBlock, numBlocks, ss, back, offset, issued, r);
    DestroyKeepsValues(perBlock, numBlocks, ss, back, offset, r);
    DestroyCompacts(perBlock, numBlocks, ss, back, offset, r);
    var s1 := AfterDestroy(ss, perBlock, back, r);
    forall q: nat | q != r && LiveIn(ss, perBlock, back, q)
      ensures LiveIn(s1, perBlock, back - 1, q) && s1[q].serial == ss[q].serial
    {
      assert ValueIn(ss, perBlock, back, q).Some?;
      assert ValueIn(s1, perBlock, back - 1, q).Some?;
    }
  }

  // ---------------------------------------------------------------------------
  // The pool object
  // ---------------------------------------------------------------------------

  class ObjectPool<T> {
    /** OBJECTS_PER_BLOCK: how many slots fit in one block. */
    const objectsPerBlock: nat
    /** All slots of all allocated blocks, in logical order. */
    var slots: seq<Slot<T>>
    /** mBack: the number of live objects. */
    var back: nat
    /** mNumBlocks. */
    var numBlocks: nat
    /** mDestructionOffset: the number of parked records. */
    var destructionOffset: nat
    /** Whether the pool still exists for the weak references its handles hold. */
    var alive: bool
    /** Every (record, serial) pair ever put into a handle. */
    ghost var issued: set<Issue>

    ghost predicate Valid()
      reads this
    {
      PoolInv(objectsPerBlock, numBlocks, slots, back, destructionOffset, issued)
    }

    /** Logical slot that record r points at. */
    ghost function IndexOf(r: nat): nat
      reads this
      requires r < |slots|
    {
      Pos(slots[r].loc, objectsPerBlock)
    }

    /** Record r currently names a live object. */
    ghost predicate LiveRec(r: nat)
      reads this
    {
      LiveIn(slots, objectsPerBlock, back, r)
    }

    /** The payload reached through record r, if r names a live object. */
    function ValueOf(r: nat): Option<T>
      reads this
    {
      ValueIn(slots, objectsPerBlock, back, r)
    }

    /** The live payloads in logical order: the range `operator[]` exposes. */
    ghost function Contents(): seq<T>
      reads this
      requires Valid()
    {
      LiveData(slots, back)
    }

    /** A block as allocated and zero-filled. */
    function NewBlock(): (b: seq<Slot<T>>)
      reads this
      ensures |b| == objectsPerBlock && forall i :: 0 <= i < |b| ==> b[i] == ZeroSlot()
    {
      seq(objectsPerBlock, _ => ZeroSlot())
    }

    /** `create()`: a pool whose first block is allocated eagerly. */
    constructor (blockSize: nat, objectStride: nat)
      requires IsPowerOf2(blockSize) && 0 < objectStride <= blockSize
      ensures Valid() && alive && issued == {}
      ensures objectsPerBlock == blockSize / objectStride
      ensures numBlocks == 1 && back == 0 && destructionOffset == 0 && Contents() == []
    {
      objectsPerBlock := blockSize / objectStride;
      new;
      slots := NewBlock();
      back, numBlocks, destructionOffset := 0, 1, 0;
      alive := true;
      issued := {};
    }

    /**
     * `create()`: a new pool, or bad_alloc when the system allocator cannot
     * provide its first block (`granted` says whether it can).
     */
    static method Create(blockSize: nat, objectStride: nat, granted: bool) returns (r: Result<ObjectPool<T>, PoolError>)
      requires IsPowerOf2(blockSize) && 0 < objectStride <= blockSize
      ensures r.Failure? <==> !granted
      ensures r.Failure? ==> r.error == BadAlloc
      ensures r.Success? ==> fresh(r.value) && r.value.Valid() && r.value.alive && r.value.issued == {}
      ensures r.Success? ==> r.value.objectsPerBlock == blockSize / objectStride
      ensures r.Success? ==> r.value.numBlocks == 1 && r.value.back == 0 && r.value.Contents() == []
    {
      if !granted {
        // `new MemoryBlock` in the constructor throws, and no pool is made
        return Failure(BadAlloc);
      }
      var pool := new ObjectPool<T>(blockSize, objectStride);
      r := Success(pool);
    }

    /** `size()`: the number of live objects. */
    function Size(): (n: nat)
      reads this
      requires Valid()
      ensures n == |Contents()|
    {
      back
    }

    /** `operator[]`: the payload at a logical index of the live range. */
    function At(index: nat): (r: Result<T, PoolError>)
      reads this
      requires Valid()
      ensures r.Success? <==> index < |Contents()|
      ensures r.Success? ==> r.value == Contents()[index]
      ensures r.Failure? ==> r.error == OutOfRange
    {
      // the source tests `index > mBack`, which admits index == mBack
      if index >= back then Failure(OutOfRange)
      else Success(slots[Pos(LocOf(index, objectsPerBlock), objectsPerBlock)].data.value)
    }

    /** `mBlocks[mNumBlocks++] = new MemoryBlock`: one more zero-filled block. */
    method AddBlock()
      requires Valid() && numBlocks < MAX_BLOCKS
      modifies this
      ensures Valid()
      ensures slots == Grown(old(slots), objectsPerBlock) && numBlocks == old(numBlocks) + 1
      ensures back == old(back) && destructionOffset == old(destructionOffset)
      ensures issued == old(issued) && alive == old(alive)
      ensures forall q :: ValueOf(q) == old(ValueOf(q))
      ensures forall q: nat :: old(LiveRec(q)) ==> LiveRec(q) && slots[q].serial == old(slots[q].serial)
    {
      GrowKeepsInv(objectsPerBlock, numBlocks, slots, back, destructionOffset, issued);
      slots := slots + NewBlock();
      numBlocks := numBlocks + 1;
    }

    /**
     * The body of `createObject` once the target block exists: picks the
     * record, points it at logical slot `back` and constructs `value` there.
     */
    method PlaceObject(value: T) returns (lookup: nat)
      requires back < |slots| && (destructionOffset > 0 ==> slots[back].lookup.Some?)
      requires 0 < objectsPerBlock && ChosenRecord(slots, back, destructionOffset) < |slots|
      modifies this
      ensures lookup == ChosenRecord(old(slots), old(back), old(destructionOffset))
      ensures slots == AfterCreate(old(slots), objectsPerBlock, old(back), old(destructionOffset), value)
      ensures back == old(back) + 1
      ensures destructionOffset == if old(destructionOffset) > 0 then old(destructionOffset) - 1 else 0
      ensures numBlocks == old(numBlocks) && issued == old(issued) && alive == old(alive)
    {
      var blockId := back / objectsPerBlock;
      var dataIndex := back % objectsPerBlock;
      if destructionOffset > 0 {
        // reuse the record parked in the target slot
        lookup := slots[back].lookup.value;
        destructionOffset := destructionOffset - 1;
      } else {
        // first use of the target slot's own record: serial 0 becomes 1
        lookup := back;
        slots := slots[back := slots[back].(serial := slots[back].serial + 1, lookup := Some(back))];
      }
      slots := slots[lookup := slots[lookup].(loc := Loc(blockId, dataIndex))];
      slots := slots[back := slots[back].(data := Some(value))];
      back := back + 1;
    }

    /**
     * `createObject` once the target block exists: constructs `value` in
     * logical slot `back` and hands out a handle with the record's serial.
     */
    method Emplace(value: T) returns (h: Handle<T>)
      requires Valid() && alive && back < |slots|
      modifies this
      ensures Valid()
      ensures h.pool == this && h.rec.Some? && h.IsInitialized() && h.IsValid() && h.WellFormed()
      ensures h.Get() == Some(value)
      ensures back == old(back) + 1
      ensures Contents() == old(Contents()) + [value]
      ensures numBlocks == old(numBlocks) && alive == old(alive)
      ensures destructionOffset == if old(destructionOffset) > 0 then old(destructionOffset) - 1 else 0
      ensures h.rec == if old(destructionOffset) > 0 then old(slots[back].lookup) else Some(old(back))
      ensures old(destructionOffset) == 0 ==> h.serial == 1
      ensures slots[h.rec.value].loc == LocOf(old(back), objectsPerBlock)
      ensures issued == old(issued) + {(h.rec.value, h.serial)}
      ensures forall p :: p in old(issued) && p.0 == h.rec.value ==> p.1 < h.serial
      ensures forall q :: q != h.rec.value ==> ValueOf(q) == old(ValueOf(q))
      ensures forall q: nat :: old(LiveRec(q)) ==> LiveRec(q) && slots[q].serial == old(slots[q].serial)
    {
      CreateSpec(objectsPerBlock, numBlocks, slots, back, destructionOffset, issued, value);
      var lookup := PlaceObject(value);
      h := Handle(Some(lookup), slots[lookup].serial, this);
      issued := issued + {(lookup, h.serial)};
    }

    /**
     * `createObject`: constructs `value` in logical slot `back`, growing by one
     * block when that slot's block does not exist yet, and returns a handle
     * to it.  Fails with bad_alloc beyond the block table, or when the block
     * it needs cannot be allocated (`blockGranted` says whether the system
     * allocator behind `new MemoryBlock` succeeds).
     */
    method CreateObject(value: T, blockGranted: bool) returns (r: Result<Handle<T>, PoolError>)
      requires Valid() && alive
      modifies this
      ensures Valid()
      ensures r.Failure? <==>
        || old(back) / objectsPerBlock >= MAX_BLOCKS
        || (old(back) / objectsPerBlock >= old(numBlocks) && !blockGranted)
      ensures r.Failure? ==> r.error == BadAlloc && unchanged(this)
      ensures r.Success? ==>
        var h := r.value;
        && h.pool == this && h.rec.Some? && h.IsInitialized() && h.IsValid() && h.WellFormed()
        && h.Get() == Some(value)
        && back == old(back) + 1
        && Contents() == old(Contents()) + [value]
        && numBlocks == old(numBlocks) + (if old(back) / objectsPerBlock >= old(numBlocks) then 1 else 0)
        && destructionOffset == (if old(destructionOffset) > 0 then old(destructionOffset) - 1 else 0)
        && h.rec == (if old(destructionOffset) > 0 then old(slots[back].lookup) else Some(old(back)))
        && (old(destructionOffset) == 0 ==> h.serial == 1)
        && slots[h.rec.value].loc == LocOf(old(back), objectsPerBlock)
        && issued == old(issued) + {(h.rec.value, h.serial)}
        && alive == old(alive)
        // no handle ever made for this record carries the new serial
        && (forall p :: p in old(issued) && p.0 == h.rec.value ==> p.1 < h.serial)
        // every other record reaches the same payload as before
        && (forall q :: q != h.rec.value ==> ValueOf(q) == old(ValueOf(q)))
        // every live record stays live with its serial, so every valid handle stays valid
        && (forall q: nat :: old(LiveRec(q)) ==> LiveRec(q) && slots[q].serial == old(slots[q].serial))
    {
      var blockId := back / objectsPerBlock;
      BlockOfSlot(back, objectsPerBlock, numBlocks);
      if blockId >= MAX_BLOCKS {
        return Failure(BadAlloc);
      } else if blockId >= numBlocks {
        // the source tests `block_id > mNumBlocks` here
        if !blockGranted {
          // `new MemoryBlock` throws bad_alloc before mNumBlocks is raised
          return Failure(BadAlloc);
        }
        AddBlock();
      }
      BlockOfSlot(back, objectsPerBlock, numBlocks);
      var h := Emplace(value);
      r := Success(h);
    }

    /**
     * `destroyObject`: bumps the record's serial, moves the last live payload
     * into the vacated slot and repoints its record, and parks the freed
     * record at the old last position.
     */
    method DestroyObject(r: nat)
      requires Valid() && LiveRec(r)
      modifies this
      ensures Valid()
      ensures back == old(back) - 1 && destructionOffset == old(destructionOffset) + 1
      ensures numBlocks == old(numBlocks) && issued == old(issued) && alive == old(alive)
      ensures slots == AfterDestroy(old(slots), objectsPerBlock, old(back), r)
      ensures slots[r].serial == old(slots[r].serial) + 1
      ensures Contents() == SwapPop(old(Contents()), old(IndexOf(r)))
      ensures slots[back].lookup == Some(r)
      ensures ValueOf(r) == None
      ensures forall q :: q != r ==> ValueOf(q) == old(ValueOf(q))
      ensures forall p :: p in issued && p.0 == r ==> p.1 < slots[r].serial
      ensures forall q: nat :: q != r && old(LiveRec(q)) ==> LiveRec(q) && slots[q].serial == old(slots[q].serial)
    {
      DestroySpec(objectsPerBlock, numBlocks, slots, back, destructionOffset, issued, r);
      RetireRecord(r);
    }

    /**
     * The body of `destroyObject`: the swap-and-pop on the slots, with the
     * record bookkeeping that keeps every other handle pointing at its object.
     */
    method RetireRecord(r: nat)
      requires 0 < back <= |slots| && r < |slots| && 0 < objectsPerBlock
      requires Pos(slots[r].loc, objectsPerBlock) < back
      requires slots[back - 1].lookup.Some? && slots[back - 1].lookup.value < |slots|
      requires Pos(slots[r].loc, objectsPerBlock) == back - 1 <==> slots[back - 1].lookup.value == r
      modifies this
      ensures slots == AfterDestroy(old(slots), objectsPerBlock, old(back), r)
      ensures back == old(back) - 1 && destructionOffset == old(destructionOffset) + 1
      ensures numBlocks == old(numBlocks) && issued == old(issued) && alive == old(alive)
    {
      var idx := Pos(slots[r].loc, objectsPerBlock);
      var last := back - 1;
      slots := slots[r := slots[r].(serial := slots[r].serial + 1)];
      if idx < last {
        // swap and pop
        var living := slots[last].lookup.value;
        slots := slots[living := slots[living].(loc := slots[r].loc)];
        slots := slots[idx := slots[idx].(data := slots[last].data, lookup := slots[last].lookup)];
        slots := slots[last := slots[last].(lookup := Some(r), data := None)];
      } else {
        // just pop
        slots := slots[idx := slots[idx].(lookup := Some(r), data := None)];
      }
      destructionOffset := destructionOffset + 1;
      back := back - 1;
    }

    /** The pool is released: every handle's weak reference to it now fails, so no handle of it is valid. */
    method Teardown()
      modifies this
      ensures !alive
      ensures forall h: Handle<T> :: h.pool == this ==> !h.IsValid()
      ensures slots == old(slots) && back == old(back) && numBlocks == old(numBlocks)
      ensures destructionOffset == old(destructionOffset) && issued == old(issued)
    {
      alive := false;
    }
  }

  // ---------------------------------------------------------------------------
  // The checks as the header writes them, beside the ones modelled above
  // ---------------------------------------------------------------------------

  /** The growth test of `createObject` as written: `block_id > mNumBlocks`. */
  function GrowsAsWritten(blockId: nat, numBlocks: nat): bool
  {
    blockId > numBlocks
  }

  /**
   * When every existing block is full, the next slot lies in block
   * `numBlocks`, which does not exist, yet the test as written does not grow.
   */
  lemma GrowthTestMissesFullTable(perBlock: nat, numBlocks: nat)
    requires 0 < perBlock && 0 < numBlocks
    ensures var back := numBlocks * perBlock;
      && back / perBlock == numBlocks
      && !GrowsAsWritten(back / perBlock, numBlocks)
  {
    LocOfPos(Loc(numBlocks, 0), perBlock);
  }

  /**
   * The block id as written: `mBack / OBJECTS_PER_BLOCK` stored in a uint8_t,
   * with an out-of-range value taken modulo 256 (the usual outcome of a
   * conversion C++ leaves undefined).
   */
  function BlockIdAsWritten(back: nat, perBlock: nat): (b: nat)
    requires 0 < perBlock
    ensures b < 256
  {
    (back / perBlock) % 256
  }

  /** The ceiling test as written: `block_id > MAX_BLOCKS` on the uint8_t block id. */
  function CeilingHitAsWritten(blockId: nat): bool
  {
    blockId > MAX_BLOCKS
  }

  /**
   * The ceiling test as written never fires: slot `255 * perBlock` gets
   * block id 255, one past the last entry of the 255-entry block table.
   * Slot `256 * perBlock` gives a block number that does not fit the uint8_t;
   * C++ leaves that conversion undefined, and with the common wrap-around it
   * becomes block 0, which is already in use.
   */
  lemma CeilingTestNeverFires(perBlock: nat)
    requires 0 < perBlock
    ensures forall back: nat :: !CeilingHitAsWritten(BlockIdAsWritten(back, perBlock))
    ensures BlockIdAsWritten(MAX_BLOCKS * perBlock, perBlock) == MAX_BLOCKS
    ensures BlockIdAsWritten(256 * perBlock, perBlock) == 0
  {
    LocOfPos(Loc(MAX_BLOCKS, 0), perBlock);
    LocOfPos(Loc(256, 0), perBlock);
  }

  /** The range test of `operator[]` as written: it throws only when `index > mBack`. */
  function AccessAllowedAsWritten(index: nat, back: nat): bool
  {
    !(index > back)
  }

  /** Index `back`, one past the last live payload, passes the test as written. */
  lemma AccessTestAdmitsBack<T>(pool: ObjectPool<T>)
    requires pool.Valid()
    ensures pool.back == |pool.Contents()|
    ensures AccessAllowedAsWritten(pool.back, pool.back) && pool.At(pool.back).Failure?
  {
  }

  /**
   * Handle equality as written compares the serials and then `rhs`'s record
   * with itself, so handles of different records with equal serials compare
   * equal; the corrected `Equals` tells them apart.
   */
  lemma HandleEqualityIgnoresRecord<T>(pool: ObjectPool?<T>)
    ensures var a, b := Handle(Some(0), 1, pool), Handle(Some(1), 1, pool);
      a.EqualsAsWritten(b) && !a.Equals(b)
  {
  }

  // ---------------------------------------------------------------------------
  // A client: the handle life cycle the pool promises
  // ---------------------------------------------------------------------------

  /**
   * Destroying through a valid handle succeeds once and empties it; a copy
   * made before is left initialised but stale, so destroying through it fails.
   */
  method DestroyTwice<T>(handle: Handle<T>) returns (first: bool, second: bool, copy: Handle<T>, third: bool)
    requires handle.WellFormed() && handle.IsInitialized() && handle.IsValid() && handle.pool.alive
    modifies handle.pool
    ensures first && !second
    ensures copy == handle && copy.IsInitialized() && !copy.IsValid() && !third
  {
    copy := handle;
    var h := handle;
    first, h := h.Destroy();
    second, h := h.Destroy();
    third, copy := copy.Destroy();
  }

  /** A default handle is neither initialised nor valid; one made by `createObject` is both. */
  method NewHandle() returns (blank: Handle<int>, handle: Handle<int>)
    ensures !blank.IsInitialized() && !blank.IsValid()
    ensures handle.IsInitialized() && handle.IsValid() && handle.WellFormed() && handle.pool.alive
    ensures handle.Get() == Some(1)
  {
    assert IsPowerOf2(2) && IsPowerOf2(4);
    var made := ObjectPool<int>.Create(4, 1, true);
    var pool := made.value;
    blank := Handle.Empty();
    var created := pool.CreateObject(1, true);
    handle := created.value;
  }
}
