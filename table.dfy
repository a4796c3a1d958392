/**
 * The chained hash table of `uniques.h` as an object: a primary array of `2^tableBits` records
 * indexed by the low bits of the hash, and an arena of `maxExtraAllocs` blocks of
 * `extraAllocSize` overflow records, handed out by a bump pointer, that extend the chains on
 * collision. Pointers become locations: a `next` link names an overflow slot by block and index.
 * The invariant and the effect of each step are those of `TableState`, applied to the arrays.
 */
module UniqueTable {
  import opened HashKey
  import opened Board
  import opened UniqueStore
  import opened TableState
  import opened Snapshot

  datatype Option<T> = None | Some(value: T)

  /** What `findPositionAndUpdateCounter` reports: found, newly stored, or the process exits out of memory. */
  datatype Outcome = Found | Inserted | OutOfMemory

  class Table {
    const tableBits: nat
    const maxExtraAllocs: nat
    const extraAllocSize: nat
    /** `hashTable`. */
    const hashTable: array<Record>
    /** `additionalAllocs`: the overflow blocks, each held as the sequence of its records. */
    const additionalAllocs: array<seq<Record>>
    /** `additionalAllocs[a] != NULL`. */
    var blockAllocated: seq<bool>
    var currentAlloc: nat
    var indexInCurrent: nat

    /** The locations of each bucket's chain, from the primary slot along the `next` links. */
    ghost var chains: seq<seq<Loc>>
    /** The chain position of the record holding each stored hash. */
    ghost var slot: map<Key128, nat>
    /** The bucket and chain position of each overflow slot handed out so far. */
    ghost var owner: map<Loc, (nat, nat)>
    /** The abstract content: each stored nonzero hash with its position and count. */
    ghost var Contents: Store

    function Cfg(): Config
    {
      Config(tableBits, maxExtraAllocs, extraAllocSize)
    }

    ghost function Memory(): Mem
      reads hashTable, additionalAllocs
    {
      Mem(hashTable[..], additionalAllocs[..])
    }

    ghost function Allocator(): Alloc
      reads this
    {
      Alloc(blockAllocated, currentAlloc, indexInCurrent)
    }

    ghost function Lay(): Layout
      reads this
    {
      Layout(chains, slot, owner)
    }

    ghost predicate Valid()
      reads this, hashTable, additionalAllocs
    {
      && ConfigOk(Cfg())
      && hashTable.Length == TableSize(Cfg())
      && additionalAllocs.Length == maxExtraAllocs
      && Inv(Cfg(), Memory(), Alloc(blockAllocated, currentAlloc, indexInCurrent), Layout(chains, slot, owner), Contents)
    }

    /** The table holds no stray record (`TableState.Clean`). */
    ghost predicate Clean()
      reads this, hashTable, additionalAllocs
    {
      TableState.Clean(Cfg(), Memory(), Allocator())
    }

    /** The bump pointer is at the very last overflow slot: the next `allocNewRecord` exits. */
    predicate ArenaFull()
      reads this
    {
      currentAlloc + 1 == maxExtraAllocs && indexInCurrent + 1 == extraAllocSize
    }

    /** The memory, the allocator and the chains are `m0`, `al0` and `ch0`. */
    ghost predicate Unmoved(m0: Mem, al0: Alloc, ch0: seq<seq<Loc>>)
      reads this, hashTable, additionalAllocs
    {
      Memory() == m0 && Allocator() == al0 && chains == ch0
    }

    /**
     * The allocator and the chains once the overflow slot `e` at the bump pointer of `al0` has
     * been handed out and linked after the last record of chain `b` of `ch0`.
     */
    ghost predicate GrownTo(m0: Mem, al0: Alloc, ch0: seq<seq<Loc>>, b: nat, e: Loc)
      reads this
    {
      && al0.currentAlloc < |al0.blockAllocated| && al0.currentAlloc < |m0.blocks|
      && b < |ch0| && |ch0[b]| > 0
      && InMem(PreparedMem(Cfg(), m0, al0), Last(ch0[b]))
      && e == Overflow(al0.currentAlloc, al0.indexInCurrent)
      && InMem(PreparedMem(Cfg(), m0, al0), e)
      && Allocator() == Bump(Cfg(), PreparedAlloc(al0))
      && chains == ch0[b := ch0[b] + [e]]
    }

    /** The memory from `m0` after that: the current block allocated, and `prev->next = e`. */
    ghost function GrownMem(m0: Mem, al0: Alloc, ch0: seq<seq<Loc>>, b: nat, e: Loc): Mem
      requires GrownTo(m0, al0, ch0, b, e)
      reads this
    {
      Linked(PreparedMem(Cfg(), m0, al0), Last(ch0[b]), e)
    }

    /** The state right after the walk linked on the new slot `e`, which is still zero. */
    ghost predicate Fresh(m0: Mem, al0: Alloc, ch0: seq<seq<Loc>>, b: nat, e: Loc)
      reads this, hashTable, additionalAllocs
    {
      && GrownTo(m0, al0, ch0, b, e)
      && Memory() == GrownMem(m0, al0, ch0, b, e)
      && InMem(Memory(), e) && At(Memory(), e) == EmptyRecord
    }

    /** The state after `allocNewRecord` linked `e` on after the last record of chain `b` is `Fresh`. */
    lemma FreshNow(m0: Mem, al0: Alloc, ch0: seq<seq<Loc>>, b: nat, e: Loc)
      requires al0.currentAlloc < |al0.blockAllocated| && al0.currentAlloc < |m0.blocks|
      requires b < |ch0| && |ch0[b]| > 0
      requires e == Overflow(al0.currentAlloc, al0.indexInCurrent)
      requires InMem(PreparedMem(Cfg(), m0, al0), Last(ch0[b]))
      requires Allocator() == Bump(Cfg(), PreparedAlloc(al0)) && chains == ch0[b := ch0[b] + [e]]
      requires Memory() == Linked(PreparedMem(Cfg(), m0, al0), Last(ch0[b]), e)
      requires InMem(Memory(), e) && At(Memory(), e) == EmptyRecord
      ensures Fresh(m0, al0, ch0, b, e)
    {
    }

    /**
     * What a walk that stops at record `at` leaves, from memory `m0`, allocator `al0` and
     * chains `ch0`: `at` changed by `u` and nothing else, or, when the walk ran off the end of
     * chain `b`, `at` handed out and linked on, and then changed by `u`.
     */
    ghost predicate Touched(m0: Mem, al0: Alloc, ch0: seq<seq<Loc>>, b: nat, at: Loc, u: Update)
      reads this, hashTable, additionalAllocs
    {
      || (Allocator() == al0 && chains == ch0 && InMem(m0, at) && Memory() == With(m0, at, Applied(u, At(m0, at))))
      || (GrownTo(m0, al0, ch0, b, at) && Memory() == With(GrownMem(m0, al0, ch0, b, at), at, Applied(u, EmptyRecord)))
    }

    /**
     * A walk from memory `m0` and allocator `al0` that leaves record `at` with a nonzero hash,
     * as `Touched` says, keeps a clean table clean.
     */
    lemma CleanKept(m0: Mem, al0: Alloc, ch0: seq<seq<Loc>>, b: nat, at: Loc, u: Update)
      requires Valid() && TableState.Clean(Cfg(), m0, al0)
      requires al0.currentAlloc < |m0.blocks| && al0.currentAlloc < |al0.blockAllocated|
      requires al0.indexInCurrent < extraAllocSize
      requires !al0.blockAllocated[al0.currentAlloc] ==> al0.indexInCurrent == 0
      requires Touched(m0, al0, ch0, b, at, u)
      requires InMem(Memory(), at) && At(Memory(), at).hash != Zero
      ensures Clean()
    {
      if Allocator() == al0 && chains == ch0 && InMem(m0, at) && Memory() == With(m0, at, Applied(u, At(m0, at))) {
        StoreClean(Cfg(), m0, al0, at, Applied(u, At(m0, at)));
      } else {
        var pm, pa := PreparedMem(Cfg(), m0, al0), PreparedAlloc(al0);
        PrepareClean(Cfg(), m0, al0);
        LinkClean(Cfg(), pm, pa, Last(ch0[b]), at);
        StoreClean(Cfg(), GrownMem(m0, al0, ch0, b, at), pa, at, Applied(u, EmptyRecord));
        BumpClean(Cfg(), Memory(), pa);
      }
    }

    /**
     * Creates the table with its primary slots zeroed (the `malloc` and `memset` of the first
     * insertion) and no overflow block allocated.
     */
    constructor (bits: nat, maxAllocs: nat, allocSize: nat)
      requires ConfigOk(Config(bits, maxAllocs, allocSize))
      ensures Valid() && Contents == map[]
      ensures tableBits == bits && maxExtraAllocs == maxAllocs && extraAllocSize == allocSize
      ensures Allocator() == InitialAlloc(Cfg())
      ensures hashTable[..] == EmptyPrimary(Cfg()) && Clean()
      ensures fresh(hashTable) && fresh(additionalAllocs)
    {
      tableBits, maxExtraAllocs, extraAllocSize := bits, maxAllocs, allocSize;
      hashTable := new Record[Pow2(bits)](_ => EmptyRecord);
      additionalAllocs := new seq<Record>[maxAllocs](_ => seq(allocSize, _ => EmptyRecord));
      blockAllocated := seq(maxAllocs, _ => false);
      currentAlloc, indexInCurrent := 0, 0;
      var lay := InitialLayout(Config(bits, maxAllocs, allocSize));
      chains, slot, owner, Contents := lay.chains, lay.slot, lay.owner, map[];
      new;
      assert hashTable[..] == EmptyPrimary(Cfg());
      ResetInv(Cfg(), additionalAllocs[..]);
      InitialClean(Cfg(), additionalAllocs[..]);
    }

    /** The table is valid once its parts are those of a state that keeps the invariant. */
    lemma ValidNow(m: Mem, al: Alloc, lay: Layout, ct: Store)
      requires ConfigOk(Cfg()) && hashTable.Length == TableSize(Cfg())
      requires additionalAllocs.Length == maxExtraAllocs
      requires Inv(Cfg(), m, al, lay, ct)
      requires Memory() == m && Allocator() == al && Lay() == lay && Contents == ct
      ensures Valid()
    {
    }

    /** Reading through a record pointer. */
    function Get(l: Loc): (r: Record)
      requires InMem(Memory(), l)
      reads hashTable, additionalAllocs
      ensures r == At(Memory(), l)
    {
      match l
      case Primary(b) => hashTable[b]
      case Overflow(a, i) => additionalAllocs[a][i]
    }

    /** A store through a record pointer. */
    method Put(l: Loc, r: Record)
      requires InMem(Memory(), l)
      modifies hashTable, additionalAllocs
      ensures Memory() == With(old(Memory()), l, r)
    {
      match l
      case Primary(b) =>
        hashTable[b] := r;
      case Overflow(a, i) =>
        additionalAllocs[a] := additionalAllocs[a][i := r];
    }

    /** The `malloc` and `memset` of overflow block `a`. */
    method ZeroFillBlock(a: nat)
      requires a < additionalAllocs.Length
      modifies additionalAllocs
      ensures Memory() == ZeroFilled(Cfg(), old(Memory()), a)
    {
      additionalAllocs[a] := seq(extraAllocSize, _ => EmptyRecord);
    }

    /** The lazy `malloc` and `memset` of the current block at the start of `allocNewRecord`. */
    method PrepareCurrentBlock()
      requires Valid()
      modifies this, additionalAllocs
      ensures Valid()
      ensures Contents == old(Contents) && Lay() == old(Lay())
      ensures Allocator() == PreparedAlloc(old(Allocator())) && blockAllocated[currentAlloc]
      ensures Memory() == PreparedMem(Cfg(), old(Memory()), old(Allocator()))
    {
      if !blockAllocated[currentAlloc] {
        ZeroFillKeepsInv(Cfg(), Memory(), Allocator(), Lay(), Contents);
        ZeroFillBlock(currentAlloc);
        blockAllocated := blockAllocated[currentAlloc := true];
      }
    }

    /**
     * `allocNewRecord`: hands out overflow slot (`currentAlloc`, `indexInCurrent`) of a lazily
     * allocated, zeroed block, advances the bump pointer, rolls over to the next block at
     * `extraAllocSize`, and links the new slot after `prev`, the last record of chain `b`.
     * Rolling over past the last block is where the source exits; this returns `None` then.
     */
    method AllocNewRecord(prev: Loc, ghost b: nat) returns (entry: Option<Loc>)
      requires Valid()
      requires b < TableSize(Cfg()) && prev == Last(chains[b]) && At(Memory(), prev).hash != Zero
      modifies this, hashTable, additionalAllocs
      ensures Valid()
      ensures Contents == old(Contents) && slot == old(slot)
      ensures entry.None? <==> old(currentAlloc) + 1 == maxExtraAllocs && old(indexInCurrent) + 1 == extraAllocSize
      ensures entry.None? ==>
                && chains == old(chains)
                && Allocator() == PreparedAlloc(old(Allocator()))
                && Memory() == PreparedMem(Cfg(), old(Memory()), old(Allocator()))
      ensures entry.Some? ==>
                && entry.value == Overflow(old(currentAlloc), old(indexInCurrent))
                && Allocator() == Bump(Cfg(), PreparedAlloc(old(Allocator())))
                && chains == old(chains)[b := old(chains[b]) + [entry.value]]
                && InMem(PreparedMem(Cfg(), old(Memory()), old(Allocator())), prev)
                && Memory() == Linked(PreparedMem(Cfg(), old(Memory()), old(Allocator())), prev, entry.value)
                && InMem(Memory(), entry.value) && At(Memory(), entry.value) == EmptyRecord
      ensures entry.Some? ==>
                currentAlloc > old(currentAlloc) || (currentAlloc == old(currentAlloc) && indexInCurrent > old(indexInCurrent))
    {
      PrepareCurrentBlock();
      if indexInCurrent + 1 == extraAllocSize && currentAlloc + 1 == maxExtraAllocs {
        return None;
      }
      var newEntry := LinkNewRecord(prev, b);
      entry := Some(newEntry);
    }

    /** `allocNewRecord` once its block is allocated and the slot is not the very last one. */
    method LinkNewRecord(prev: Loc, ghost b: nat) returns (newEntry: Loc)
      requires Valid()
      requires b < TableSize(Cfg()) && prev == Last(chains[b]) && At(Memory(), prev).hash != Zero
      requires blockAllocated[currentAlloc]
      requires !(indexInCurrent + 1 == extraAllocSize && currentAlloc + 1 == maxExtraAllocs)
      modifies this, hashTable, additionalAllocs
      ensures Valid()
      ensures Contents == old(Contents) && slot == old(slot)
      ensures newEntry == Overflow(old(currentAlloc), old(indexInCurrent))
      ensures Allocator() == Bump(Cfg(), old(Allocator()))
      ensures chains == old(chains)[b := old(chains[b]) + [newEntry]]
      ensures InMem(old(Memory()), prev) && Memory() == Linked(old(Memory()), prev, newEntry)
      ensures InMem(Memory(), newEntry) && At(Memory(), newEntry) == EmptyRecord
      ensures currentAlloc > old(currentAlloc) || (currentAlloc == old(currentAlloc) && indexInCurrent > old(indexInCurrent))
    {
      newEntry := Overflow(currentAlloc, indexInCurrent);
      ghost var m, al, lay := Memory(), Allocator(), Lay();
      assert InMem(m, newEntry) && At(Linked(m, prev, newEntry), newEntry) == EmptyRecord by {
        FreshSlot(Cfg(), m, al, lay, Contents, b);
      }
      BumpKeepsInv(Cfg(), m, al, lay, Contents, b);
      BumpAndLink(prev, b);
      ValidNow(Linked(m, prev, newEntry), Bump(Cfg(), al), Extend(lay, b, newEntry), Contents);
    }

    /**
     * The rest of `allocNewRecord`: `indexInCurrent++` with the roll-over to the next block,
     * and `prev->next = newEntry`; the ghost chain `b` is extended by the new slot.
     */
    method BumpAndLink(prev: Loc, ghost b: nat)
      requires InMem(Memory(), prev) && b < |chains|
      modifies this, hashTable, additionalAllocs
      ensures Memory() == Linked(old(Memory()), prev, Overflow(old(currentAlloc), old(indexInCurrent)))
      ensures Allocator() == Bump(Cfg(), old(Allocator()))
      ensures Lay() == Extend(old(Lay()), b, Overflow(old(currentAlloc), old(indexInCurrent)))
      ensures Contents == old(Contents)
    {
      var newEntry := Overflow(currentAlloc, indexInCurrent);
      indexInCurrent := indexInCurrent + 1;
      if indexInCurrent == extraAllocSize {
        currentAlloc, indexInCurrent := currentAlloc + 1, 0;
      }
      Put(prev, Get(prev).(next := Ref(newEntry.block, newEntry.index)));
      owner := owner[newEntry := (b, |chains[b]|)];
      chains := chains[b := chains[b] + [newEntry]];
    }

    /**
     * The match case of `findPositionAndUpdateCounter`: `record->count += partialCount`, at the
     * end of a walk from memory `m0`, allocator `al0` and chains `ch0`.
     */
    method AddToCount(record: Loc, ghost b: nat, ghost k: nat, hash: Key128, pos: Position, partialCount: uint32,
                      ghost m0: Mem, ghost al0: Alloc, ghost ch0: seq<seq<Loc>>)
      requires Valid()
      requires Unmoved(m0, al0, ch0) || Fresh(m0, al0, ch0, b, record)
      requires b == Bucket(Cfg(), hash) && k < |chains[b]| && record == chains[b][k]
      requires At(Memory(), record).hash == hash
      modifies this, hashTable, additionalAllocs
      ensures Valid()
      ensures (Contents, true) == Insert(old(Contents), hash, pos, partialCount)
      ensures InMem(old(Memory()), record)
      ensures Memory() == With(old(Memory()), record, Applied(CountUp(partialCount), At(old(Memory()), record)))
      ensures Allocator() == old(Allocator()) && chains == old(chains) && slot == old(slot)
      ensures hash != Zero ==> hash in slot && slot[hash] == k
      ensures Touched(m0, al0, ch0, b, record, CountUp(partialCount))
      ensures hash != Zero ==> Allocator() == al0 && chains == ch0
    {
      UsedInMem(Cfg(), Memory(), Allocator(), record);
      var rec := Get(record);
      var r := rec.(count := AddCount(rec.count, partialCount));
      ghost var ct' := if hash == Zero then Contents else Contents[hash := Entry(rec.pos, r.count)];
      ghost var m, al, lay := Memory(), Allocator(), Lay();
      CountKeepsInv(Cfg(), m, al, lay, Contents, hash, k, pos, partialCount, record, r, ct');
      Store(record, r, slot, ct');
      ValidNow(With(m, record, r), al, lay, ct');
    }

    /**
     * The empty-record case of `findPositionAndUpdateCounter`: the record gets the position,
     * the hash, `count = partialCount` and `next = NULL`, at the end of a walk as above.
     */
    method FillRecord(record: Loc, ghost b: nat, ghost k: nat, hash: Key128, pos: Position, partialCount: uint32,
                      ghost m0: Mem, ghost al0: Alloc, ghost ch0: seq<seq<Loc>>)
      requires Valid()
      requires Unmoved(m0, al0, ch0) || Fresh(m0, al0, ch0, b, record)
      requires b == Bucket(Cfg(), hash) && k < |chains[b]| && record == chains[b][k]
      requires At(Memory(), record).hash == Zero && hash != Zero && (hash in slot ==> slot[hash] >= k)
      modifies this, hashTable, additionalAllocs
      ensures Valid()
      ensures (Contents, false) == Insert(old(Contents), hash, pos, partialCount)
      ensures InMem(old(Memory()), record)
      ensures Memory() == With(old(Memory()), record, Applied(FillIn(hash, pos, partialCount), At(old(Memory()), record)))
      ensures Allocator() == old(Allocator()) && chains == old(chains) && slot == old(slot)[hash := k]
      ensures Touched(m0, al0, ch0, b, record, FillIn(hash, pos, partialCount))
    {
      UsedInMem(Cfg(), Memory(), Allocator(), record);
      var r := Record(hash, pos, partialCount, Null);
      ghost var lay', ct' := Lay().(slot := slot[hash := k]), Contents[hash := Entry(pos, partialCount)];
      ghost var m, al := Memory(), Allocator();
      FillKeepsInv(Cfg(), m, al, Lay(), Contents, hash, k, pos, partialCount, record, r, lay', ct');
      Store(record, r, lay'.slot, ct');
      ValidNow(With(m, record, r), al, lay', ct');
    }

    /** Stores `r` at `l` and sets the ghost slot map and contents. */
    method Store(l: Loc, r: Record, ghost slot': map<Key128, nat>, ghost ct': Store)
      requires InMem(Memory(), l)
      modifies this, hashTable, additionalAllocs
      ensures Memory() == With(old(Memory()), l, r)
      ensures Allocator() == old(Allocator()) && Lay() == old(Lay()).(slot := slot') && Contents == ct'
    {
      slot, Contents := slot', ct';
      Put(l, r);
    }

    /**
     * The step to the next record of the walk in `findPositionAndUpdateCounter`: follows
     * `next`, or, at the end of the chain, links on a new overflow record; `None` when the
     * arena is exhausted, and then `hash` is not stored.
     */
    method NextRecord(record: Loc, ghost b: nat, ghost k: nat, hash: Key128) returns (n: Option<Loc>)
      requires Valid()
      requires b == Bucket(Cfg(), hash) && k < |chains[b]| && record == chains[b][k]
      requires At(Memory(), record).hash != hash && At(Memory(), record).hash != Zero
      requires hash in slot ==> slot[hash] >= k
      modifies this, hashTable, additionalAllocs
      ensures Valid() && Contents == old(Contents) && slot == old(slot)
      ensures n.None? ==> hash !in Contents
      ensures n.None? ==>
                && ArenaFull() && chains == old(chains)
                && Allocator() == PreparedAlloc(old(Allocator()))
                && Memory() == PreparedMem(Cfg(), old(Memory()), old(Allocator()))
      ensures n.Some? ==> k + 1 < |chains[b]| && n.value == chains[b][k + 1] && (hash in slot ==> slot[hash] > k)
      ensures n.Some? ==>
                || Unmoved(old(Memory()), old(Allocator()), old(chains))
                || Fresh(old(Memory()), old(Allocator()), old(chains), b, n.value)
      ensures n.Some? ==>
                || (currentAlloc == old(currentAlloc) && indexInCurrent == old(indexInCurrent) && |chains[b]| == |old(chains[b])|)
                || currentAlloc > old(currentAlloc)
                || (currentAlloc == old(currentAlloc) && indexInCurrent > old(indexInCurrent))
    {
      UsedInMem(Cfg(), Memory(), Allocator(), record);
      var nextRecord := Get(record).next;
      assert (nextRecord.Null? <==> k + 1 == |chains[b]|) && (k + 1 < |chains[b]| ==> Target(nextRecord) == chains[b][k + 1]) by {
        LinkStep(Cfg(), Memory(), chains, b, k);
      }
      assert (hash in slot ==> slot[hash] > k) && (k + 1 == |chains[b]| ==> hash !in Contents) by {
        WalkStep(Cfg(), Memory(), chains, slot, Contents, hash, k);
      }
      if nextRecord.Null? {
        n := GrowChain(record, b, k, hash);
      } else {
        n := Some(Target(nextRecord));
      }
    }

    /**
     * The end of the chain in the walk: a new, zeroed overflow record is linked on after
     * `record`; `None` exactly when the bump pointer is at the last slot of the arena.
     */
    method GrowChain(record: Loc, ghost b: nat, ghost k: nat, hash: Key128) returns (n: Option<Loc>)
      requires Valid()
      requires b == Bucket(Cfg(), hash) && k + 1 == |chains[b]| && record == chains[b][k]
      requires At(Memory(), record).hash != Zero && hash !in Contents
      modifies this, hashTable, additionalAllocs
      ensures Valid() && Contents == old(Contents) && slot == old(slot)
      ensures n.None? ==>
                && ArenaFull() && chains == old(chains)
                && Allocator() == PreparedAlloc(old(Allocator()))
                && Memory() == PreparedMem(Cfg(), old(Memory()), old(Allocator()))
      ensures n.Some? ==> k + 1 < |chains[b]| && n.value == chains[b][k + 1]
      ensures n.Some? ==> Fresh(old(Memory()), old(Allocator()), old(chains), b, n.value)
      ensures n.Some? ==>
                currentAlloc > old(currentAlloc) || (currentAlloc == old(currentAlloc) && indexInCurrent > old(indexInCurrent))
    {
      n := AllocNewRecord(record, b);
      if n.Some? {
        FreshNow(old(Memory()), old(Allocator()), old(chains), b, n.value);
      }
    }

    /**
     * The end of the walk at `record`, which holds `hash` or is empty: the count is raised, as
     * the match test comes first, or the record is filled.
     */
    method Settle(record: Loc, ghost b: nat, ghost k: nat, hash: Key128, pos: Position, partialCount: uint32,
                  ghost m0: Mem, ghost al0: Alloc, ghost ch0: seq<seq<Loc>>)
      returns (r: Outcome)
      requires Valid()
      requires b == Bucket(Cfg(), hash) && k < |chains[b]| && record == chains[b][k]
      requires hash in slot ==> slot[hash] >= k
      requires Unmoved(m0, al0, ch0) || Fresh(m0, al0, ch0, b, record)
      requires InMem(Memory(), record) && (At(Memory(), record).hash == hash || At(Memory(), record).hash == Zero)
      modifies this, hashTable, additionalAllocs
      ensures Valid() && r != OutOfMemory
      ensures (Contents, r == Found) == Insert(old(Contents), hash, pos, partialCount)
      ensures Touched(m0, al0, ch0, b, record, if r == Found then CountUp(partialCount) else FillIn(hash, pos, partialCount))
      ensures r == Found && hash != Zero ==> Allocator() == al0 && chains == ch0
      ensures hash != Zero ==> hash in slot && slot[hash] < |chains[b]| && record == chains[b][slot[hash]]
    {
      if Equal(Get(record).hash, hash) {
        AddToCount(record, b, k, hash, pos, partialCount, m0, al0, ch0);
        r := Found;
      } else {
        FillRecord(record, b, k, hash, pos, partialCount, m0, al0, ch0);
        r := Inserted;
      }
    }

    /**
     * How the walk of `findPositionAndUpdateCounter` for `hash`, begun from memory `m0`,
     * allocator `al0`, chains `ch0` and contents `ct0`, ended with `r` at record `at`: the
     * contents are those of `Insert`; out of memory only at the last slot of the arena, with
     * nothing changed but the current block allocated; otherwise `at` changed as its update
     * says, with no slot handed out when a stored hash was found, and `at` holds a nonzero
     * hash.
     */
    ghost predicate Ended(m0: Mem, al0: Alloc, ch0: seq<seq<Loc>>, ct0: Store,
                          hash: Key128, pos: Position, partialCount: uint32, r: Outcome, at: Loc)
      reads this, hashTable, additionalAllocs
    {
      && Valid()
      && (r != OutOfMemory ==> (Contents, r == Found) == Insert(ct0, hash, pos, partialCount))
      && (r == OutOfMemory ==>
            && Contents == ct0 && hash !in ct0
            && ArenaFull() && chains == ch0
            && al0.currentAlloc < |al0.blockAllocated| && al0.currentAlloc < |m0.blocks|
            && Allocator() == PreparedAlloc(al0)
            && Memory() == PreparedMem(Cfg(), m0, al0))
      && (r != OutOfMemory ==>
            Touched(m0, al0, ch0, Bucket(Cfg(), hash), at,
                    if r == Found then CountUp(partialCount) else FillIn(hash, pos, partialCount)))
      && (r == Found && hash != Zero ==> Allocator() == al0 && chains == ch0)
      && (r != OutOfMemory && hash != Zero ==>
            && Bucket(Cfg(), hash) < |chains| && hash in slot && slot[hash] < |chains[Bucket(Cfg(), hash)]|
            && at == chains[Bucket(Cfg(), hash)][slot[hash]])
    }

    /**
     * The walk for `hash`, begun from memory `m0`, allocator `al0`, chains `ch0` and contents
     * `ct0`, is at position `k` of its chain `b`: the table is valid with the contents
     * unchanged, `hash` is not stored before `k`, and nothing has changed except, possibly,
     * that `record` is a new zero record linked on at the end of the chain.
     */
    ghost predicate Walking(m0: Mem, al0: Alloc, ch0: seq<seq<Loc>>, ct0: Store, hash: Key128, b: nat, k: nat, record: Loc,
                            grown: bool)
      reads this, hashTable, additionalAllocs
    {
      && Valid() && Contents == ct0
      && b == Bucket(Cfg(), hash) && k < |chains[b]| && record == chains[b][k]
      && (hash in slot ==> slot[hash] >= k)
      && (if grown then Fresh(m0, al0, ch0, b, record) else Unmoved(m0, al0, ch0))
    }

    /**
     * `findPositionAndUpdateCounter`: walks the chain of `hash`'s bucket. A record holding
     * `hash` (compared first, so the zero hash matches an empty record) has `partialCount`
     * added to its count and the result is `Found`; the first empty record is filled with
     * the hash, the position and `partialCount`, and the result is `Inserted`; at the end of
     * the chain a new overflow record is linked on, and the process exits out of memory when
     * the bump pointer is at the last slot of the arena. `at` is the record the walk stops at.
     */
    method FindPositionAndUpdateCounter(pos: Position, hash: Key128, partialCount: uint32)
      returns (r: Outcome, ghost at: Loc)
      requires Valid()
      modifies this, hashTable, additionalAllocs
      ensures Valid()
      ensures r != OutOfMemory ==> (Contents, r == Found) == Insert(old(Contents), hash, pos, partialCount)
      ensures r == OutOfMemory ==> Contents == old(Contents) && hash !in old(Contents)
      ensures r == OutOfMemory ==>
                && ArenaFull() && chains == old(chains)
                && Allocator() == PreparedAlloc(old(Allocator()))
                && Memory() == PreparedMem(Cfg(), old(Memory()), old(Allocator()))
      ensures r != OutOfMemory ==>
                Touched(old(Memory()), old(Allocator()), old(chains), Bucket(Cfg(), hash), at,
                        if r == Found then CountUp(partialCount) else FillIn(hash, pos, partialCount))
      ensures r == Found && hash != Zero ==> Allocator() == old(Allocator()) && chains == old(chains)
      ensures r != OutOfMemory && hash != Zero ==>
                hash in slot && slot[hash] < |chains[Bucket(Cfg(), hash)]| && at == chains[Bucket(Cfg(), hash)][slot[hash]]
      ensures hash != Zero && old(Clean()) ==> Clean()
    {
      ghost var m0, al0, ch0 := Memory(), Allocator(), chains;
      assert !al0.blockAllocated[al0.currentAlloc] ==> al0.indexInCurrent == 0;
      r, at := Walk(pos, hash, partialCount);
      if hash != Zero && TableState.Clean(Cfg(), m0, al0) {
        if r == OutOfMemory {
          PrepareClean(Cfg(), m0, al0);
        } else {
          var b := Bucket(Cfg(), hash);
          assert InMem(Memory(), at) && At(Memory(), at).hash == hash;
          CleanKept(m0, al0, ch0, b, at, if r == Found then CountUp(partialCount) else FillIn(hash, pos, partialCount));
        }
      }
    }

    /** The loop of `findPositionAndUpdateCounter`, one record per iteration. */
    method Walk(pos: Position, hash: Key128, partialCount: uint32) returns (r: Outcome, ghost at: Loc)
      requires Valid()
      modifies this, hashTable, additionalAllocs
      ensures Ended(old(Memory()), old(Allocator()), old(chains), old(Contents), hash, pos, partialCount, r, at)
    {
      var b := Bucket(Cfg(), hash);
      var record := Primary(b);
      ghost var k, grown := 0, false;
      ghost var m0, al0, ch0, ct0 := Memory(), Allocator(), chains, Contents;
      while true
        invariant Walking(m0, al0, ch0, ct0, hash, b, k, record, grown)
        decreases maxExtraAllocs - currentAlloc, extraAllocSize - indexInCurrent, |chains[b]| - k
      {
        var stop, next, grown' := Visit(record, b, k, hash, pos, partialCount, m0, al0, ch0, ct0, grown);
        if stop.Some? {
          return stop.value, record;
        }
        record, k, grown := next, k + 1, grown';
      }
    }

    /**
     * One record of the walk begun from memory `m0`, allocator `al0`, chains `ch0` and
     * contents `ct0`: the walk stops at `record` if it holds `hash` or is empty, runs out of
     * memory at the end of the chain when the arena is exhausted, or goes on to `next`,
     * linked on as a new record at the end of the chain.
     */
    method Visit(record: Loc, ghost b: nat, ghost k: nat, hash: Key128, pos: Position, partialCount: uint32,
                 ghost m0: Mem, ghost al0: Alloc, ghost ch0: seq<seq<Loc>>, ghost ct0: Store, ghost grown: bool)
      returns (stop: Option<Outcome>, next: Loc, ghost grown': bool)
      requires Walking(m0, al0, ch0, ct0, hash, b, k, record, grown)
      modifies this, hashTable, additionalAllocs
      ensures Valid()
      ensures stop.None? ==>
                && Walking(m0, al0, ch0, ct0, hash, b, k + 1, next, grown')
                && (|| (currentAlloc == old(currentAlloc) && indexInCurrent == old(indexInCurrent) && |chains[b]| == |old(chains[b])|)
                    || currentAlloc > old(currentAlloc)
                    || (currentAlloc == old(currentAlloc) && indexInCurrent > old(indexInCurrent)))
      ensures stop.Some? ==> Ended(m0, al0, ch0, ct0, hash, pos, partialCount, stop.value, record)
    {
      UsedInMem(Cfg(), Memory(), Allocator(), record);
      var rec := Get(record);
      if Equal(rec.hash, hash) || Equal(rec.hash, Zero) {
        var r := Settle(record, b, k, hash, pos, partialCount, m0, al0, ch0);
        return Some(r), record, grown;
      }
      var n := NextRecord(record, b, k, hash);
      if n.None? {
        return Some(OutOfMemory), record, grown;
      }
      grown' := !Unmoved(m0, al0, ch0);
      return None, n.value, grown';
    }

    /**
     * The writing half of `saveUniquesToFile`: the primary records with a nonzero count in
     * bucket order, then every block before `currentAlloc` in full, then the first
     * `indexInCurrent` records of the current block. Each written record with a nonzero hash
     * carries the stored entry of that hash, no hash is written twice, and a stored hash is
     * written exactly when its count is nonzero or it sits in an overflow record.
     */
    method WriteImage() returns (file: seq<Record>, recordsWritten: int)
      requires Valid()
      ensures file == SavedImage(Memory(), Allocator()) && recordsWritten == |file|
      ensures forall i :: 0 <= i < |file| && file[i].hash != Zero ==>
                file[i].hash in Contents && Contents[file[i].hash] == Entry(file[i].pos, file[i].count)
      ensures forall i, j :: 0 <= i < |file| && 0 <= j < |file| && file[i].hash != Zero && file[i].hash == file[j].hash
                ==> i == j
      ensures forall h :: h in Contents ==>
                ((exists i :: 0 <= i < |file| && file[i].hash == h) <==> Contents[h].count != 0 || slot[h] > 0)
    {
      file, recordsWritten := WriteRecords();
      SavedEntries(Cfg(), Memory(), Allocator(), Lay(), Contents);
    }

    /** The three `fwrite` loops of `saveUniquesToFile`, with the count of records written. */
    method WriteRecords() returns (file: seq<Record>, recordsWritten: int)
      requires ConfigOk(Cfg()) && hashTable.Length == TableSize(Cfg()) && MemShape(Cfg(), Memory())
      requires currentAlloc < maxExtraAllocs && indexInCurrent < extraAllocSize
      ensures file == SavedImage(Memory(), Allocator()) && recordsWritten == |file|
    {
      file, recordsWritten := [], 0;
      for i := 0 to hashTable.Length
        invariant file == LivePrimaries(hashTable[..i]) && recordsWritten == |file|
      {
        assert hashTable[..i + 1][..i] == hashTable[..i];
        if hashTable[i].count != 0 {
          file := file + [hashTable[i]];
          recordsWritten := recordsWritten + 1;
        }
      }
      assert hashTable[..hashTable.Length] == hashTable[..];
      for i := 0 to currentAlloc
        invariant file == LivePrimaries(hashTable[..]) + FullBlocks(additionalAllocs[..], i)
        invariant recordsWritten == |file|
      {
        file := file + additionalAllocs[i];
        recordsWritten := recordsWritten + extraAllocSize;
      }
      if indexInCurrent != 0 {
        file := file + additionalAllocs[currentAlloc][..indexInCurrent];
        recordsWritten := recordsWritten + indexInCurrent;
      }
    }

    /**
     * The freeing half of `saveUniquesToFile`: the primary table and every allocated block
     * are released and the bump pointer goes back to the start, so the table is empty. The
     * primary table is zeroed here rather than at the next insertion; released blocks keep
     * their old records, which the next allocation of the block zeroes.
     */
    method Release()
      requires Valid()
      modifies this, hashTable
      ensures Valid() && Contents == map[]
      ensures Allocator() == InitialAlloc(Cfg())
      ensures Memory() == Mem(EmptyPrimary(Cfg()), old(Memory()).blocks)
    {
      ZeroPrimary();
      ReleaseBlocks();
      currentAlloc, indexInCurrent := 0, 0;
      var lay := InitialLayout(Cfg());
      chains, slot, owner, Contents := lay.chains, lay.slot, lay.owner, map[];
      ResetInv(Cfg(), additionalAllocs[..]);
    }

    /** `free(hashTable)`, with the `memset` of the next insertion done here. */
    method ZeroPrimary()
      requires hashTable.Length == TableSize(Cfg())
      modifies hashTable
      ensures hashTable[..] == EmptyPrimary(Cfg())
    {
      for i := 0 to hashTable.Length
        invariant forall j :: 0 <= j < i ==> hashTable[j] == EmptyRecord
      {
        hashTable[i] := EmptyRecord;
      }
    }

    /** The loop freeing each allocated block: afterwards no block is allocated. */
    method ReleaseBlocks()
      requires |blockAllocated| == maxExtraAllocs
      modifies this
      ensures blockAllocated == seq(maxExtraAllocs, _ => false)
    {
      for i := 0 to maxExtraAllocs
        invariant |blockAllocated| == maxExtraAllocs
        invariant forall j :: 0 <= j < i ==> !blockAllocated[j]
      {
        if blockAllocated[i] {
          blockAllocated := blockAllocated[i := false];
        }
      }
    }

    /**
     * `saveUniquesToFile`: the file `WriteImage` produces, then the table is released. The
     * file name, the `printf` and the file handle are not modelled.
     */
    method SaveUniquesToFile() returns (file: seq<Record>, recordsWritten: int)
      requires Valid()
      modifies this, hashTable
      ensures file == SavedImage(old(Memory()), old(Allocator())) && recordsWritten == |file|
      ensures Describes(file, old(Contents))
      ensures old(Clean()) ==> NoEmptyRecords(file)
      ensures Valid() && Contents == map[] && Allocator() == InitialAlloc(Cfg())
      ensures Memory() == Mem(EmptyPrimary(Cfg()), old(Memory()).blocks) && Clean()
    {
      file, recordsWritten := WriteImage();
      SavedDescribes(Cfg(), Memory(), Allocator(), Lay(), Contents);
      if Clean() {
        SavedClean(Cfg(), Memory(), Allocator());
      }
      Release();
      InitialClean(Cfg(), additionalAllocs[..]);
    }
  }
}
