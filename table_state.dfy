/**
 * The unique-position table as a value: its memory (the primary table and the overflow
 * blocks), the allocator's counters, and the ghost layout of the chains. The invariant the
 * table keeps and what each step of `allocNewRecord` and `findPositionAndUpdateCounter` does
 * to it are stated and proved here, apart from the heap.
 */
module TableState {
  import opened HashKey
  import opened Board
  import opened UniqueStore

  /** `UniquePosRecord::next`: no successor, or overflow slot `index` of block `block`. */
  datatype Link = Null | Ref(block: nat, index: nat)

  /** `UniquePosRecord`: the hash, the position, its occurrence count and the chain link. */
  datatype Record = Record(hash: Key128, pos: Position, count: uint64, next: Link)

  /** A record whose bytes are all zero, as `memset` leaves it. */
  const EmptyRecord := Record(Zero, EmptyPosition, 0, Null)

  /** Where a record lives: a primary slot of `hashTable` or a slot of `additionalAllocs`. */
  datatype Loc = Primary(bucket: nat) | Overflow(block: nat, index: nat)

  /** The location a non-null link points to. */
  function Target(l: Link): (r: Loc)
    requires l.Ref?
    ensures r.Overflow? && r.block == l.block && r.index == l.index
  {
    Overflow(l.block, l.index)
  }

  /** `UNIQUE_TABLE_BITS`, `MAX_EXTRA_ALLOCS` and `EXTRA_ALLOC_SIZE`. */
  datatype Config = Config(tableBits: nat, maxExtraAllocs: nat, extraAllocSize: nat)

  predicate ConfigOk(c: Config)
  {
    c.tableBits <= 64 && c.maxExtraAllocs > 0 && c.extraAllocSize > 0
  }

  /** The sizes `uniques.h` is built with: 2^26 primary slots, 10 blocks of 16 Mi records. */
  const UNIQUES_CONFIG := Config(26, 10, 16 * 1024 * 1024)

  /** Those sizes are usable, and the primary table has `1 << 26` slots. */
  lemma UniquesConfigOk()
    ensures ConfigOk(UNIQUES_CONFIG) && TableSize(UNIQUES_CONFIG) == 0x400_0000
  {
    assert Pow2(2) == 4;
    Pow2Add(2, 2);
    Pow2Add(4, 4);
    Pow2Add(8, 8);
    Pow2Add(8, 2);
    Pow2Add(16, 10);
  }

  /** `UNIQUE_TABLE_SIZE`. */
  function TableSize(c: Config): nat
  {
    Pow2(c.tableBits)
  }

  /** `hash.lowPart & UNIQUE_TABLE_INDEX_BITS`. */
  function Bucket(c: Config, h: Key128): (b: nat)
    requires c.tableBits <= 64
    ensures b < TableSize(c)
  {
    MaskedIndex(h, c.tableBits)
  }

  /** The table's memory: the primary slots and the overflow blocks. */
  datatype Mem = Mem(primary: seq<Record>, blocks: seq<seq<Record>>)

  predicate InMem(m: Mem, l: Loc)
  {
    match l
    case Primary(b) => b < |m.primary|
    case Overflow(a, i) => a < |m.blocks| && i < |m.blocks[a]|
  }

  function At(m: Mem, l: Loc): Record
    requires InMem(m, l)
  {
    match l
    case Primary(b) => m.primary[b]
    case Overflow(a, i) => m.blocks[a][i]
  }

  /** The memory after a store to the record at `l`. */
  function With(m: Mem, l: Loc, r: Record): (m': Mem)
    requires InMem(m, l)
    ensures |m'.primary| == |m.primary| && |m'.blocks| == |m.blocks|
    ensures forall a :: 0 <= a < |m.blocks| ==> |m'.blocks[a]| == |m.blocks[a]|
    ensures InMem(m', l) && At(m', l) == r
    ensures forall l' :: InMem(m', l') <==> InMem(m, l')
    ensures forall l' :: InMem(m, l') && l' != l ==> InMem(m', l') && At(m', l') == At(m, l')
  {
    match l
    case Primary(b) => m.(primary := m.primary[b := r])
    case Overflow(a, i) => m.(blocks := m.blocks[a := m.blocks[a][i := r]])
  }

  /** The allocator: which blocks are allocated and the bump pointer. */
  datatype Alloc = Alloc(blockAllocated: seq<bool>, currentAlloc: nat, indexInCurrent: nat)

  /**
   * The ghost layout: the locations of each bucket's chain, the chain position of each stored
   * hash, and the bucket and chain position of each overflow slot handed out.
   */
  datatype Layout = Layout(chains: seq<seq<Loc>>, slot: map<Key128, nat>, owner: map<Loc, (nat, nat)>)

  /** Primary slots, and the overflow slots before the bump pointer. */
  predicate Used(c: Config, cur: nat, idx: nat, l: Loc)
  {
    match l
    case Primary(b) => b < TableSize(c)
    case Overflow(a, i) => i < c.extraAllocSize && (a < cur || (a == cur && i < idx))
  }

  /** The sizes of the allocator and the layout. */
  ghost predicate Shape(c: Config, al: Alloc, chains: seq<seq<Loc>>)
  {
    && c.tableBits <= 64
    && |al.blockAllocated| == c.maxExtraAllocs
    && al.currentAlloc < c.maxExtraAllocs
    && al.indexInCurrent < c.extraAllocSize
    && |chains| == TableSize(c)
  }

  /** The sizes of the memory. */
  ghost predicate MemShape(c: Config, m: Mem)
  {
    && |m.primary| == TableSize(c)
    && |m.blocks| == c.maxExtraAllocs
    && (forall a :: 0 <= a < |m.blocks| ==> |m.blocks[a]| == c.extraAllocSize)
  }

  lemma UsedInMem(c: Config, m: Mem, al: Alloc, l: Loc)
    requires MemShape(c, m) && al.currentAlloc < c.maxExtraAllocs && Used(c, al.currentAlloc, al.indexInCurrent, l)
    ensures InMem(m, l)
  {
  }

  /** Blocks are allocated in order, and the slots past the bump pointer are still zero. */
  ghost predicate BlocksOk(c: Config, m: Mem, al: Alloc)
    requires MemShape(c, m) && |al.blockAllocated| == c.maxExtraAllocs && al.currentAlloc < c.maxExtraAllocs
  {
    && (forall a :: 0 <= a < al.currentAlloc ==> al.blockAllocated[a])
    && (al.indexInCurrent > 0 ==> al.blockAllocated[al.currentAlloc])
    && (forall a :: al.currentAlloc < a < c.maxExtraAllocs ==> !al.blockAllocated[a])
    && (al.blockAllocated[al.currentAlloc] ==>
          forall i :: al.indexInCurrent <= i < c.extraAllocSize ==> m.blocks[al.currentAlloc][i] == EmptyRecord)
  }

  /** Each chain starts at its primary slot and continues through distinct used overflow slots. */
  ghost predicate ChainsOk(c: Config, cur: nat, idx: nat, chains: seq<seq<Loc>>, owner: map<Loc, (nat, nat)>)
    requires |chains| == TableSize(c)
  {
    && (forall b :: 0 <= b < TableSize(c) ==> |chains[b]| > 0 && chains[b][0] == Primary(b))
    && (forall b, k :: 0 <= b < TableSize(c) && 0 < k < |chains[b]| ==>
          chains[b][k].Overflow? && Used(c, cur, idx, chains[b][k])
          && chains[b][k] in owner && owner[chains[b][k]] == (b, k))
    && (forall l :: l in owner ==>
          owner[l].0 < TableSize(c) && 0 < owner[l].1 < |chains[owner[l].0]|
          && chains[owner[l].0][owner[l].1] == l)
    && (forall a, i :: Used(c, cur, idx, Overflow(a, i)) ==> Overflow(a, i) in owner)
  }

  /**
   * The record at position `k` of chain `b` links to the next position, and is then not
   * empty, or it ends the chain with a null link.
   */
  ghost predicate LinkOk(c: Config, m: Mem, chains: seq<seq<Loc>>, b: nat, k: nat)
    requires b < |chains| && k < |chains[b]| && InMem(m, chains[b][k])
  {
    && (k + 1 < |chains[b]| ==>
          At(m, chains[b][k]).hash != Zero && At(m, chains[b][k]).next.Ref?
          && Target(At(m, chains[b][k]).next) == chains[b][k + 1])
    && (k + 1 == |chains[b]| ==> At(m, chains[b][k]).next == Null)
  }

  /** The chain locations are in memory, and the `next` links follow the chains. */
  ghost predicate LinksOk(c: Config, m: Mem, chains: seq<seq<Loc>>)
    requires |chains| == TableSize(c)
  {
    && (forall b, k :: 0 <= b < TableSize(c) && 0 <= k < |chains[b]| ==> InMem(m, chains[b][k]))
    && (forall b, k :: 0 <= b < TableSize(c) && 0 <= k < |chains[b]| ==> LinkOk(c, m, chains, b, k))
  }

  /** Each nonzero hash sits in its own bucket's chain, once, and agrees with the store. */
  ghost predicate KeysOk(c: Config, m: Mem, chains: seq<seq<Loc>>, slot: map<Key128, nat>, contents: Store)
    requires c.tableBits <= 64 && |chains| == TableSize(c) && LinksOk(c, m, chains)
  {
    && (forall b, k :: 0 <= b < TableSize(c) && 0 <= k < |chains[b]| && At(m, chains[b][k]).hash != Zero ==>
          Bucket(c, At(m, chains[b][k]).hash) == b && At(m, chains[b][k]).hash in slot
          && slot[At(m, chains[b][k]).hash] == k)
    && contents.Keys == slot.Keys
    && (forall h :: h in slot ==>
          h != Zero && slot[h] < |chains[Bucket(c, h)]|
          && At(m, chains[Bucket(c, h)][slot[h]]).hash == h
          && contents[h] == Entry(At(m, chains[Bucket(c, h)][slot[h]]).pos,
                                  At(m, chains[Bucket(c, h)][slot[h]]).count))
  }

  /** The invariant of the table. */
  ghost predicate Inv(c: Config, m: Mem, al: Alloc, lay: Layout, contents: Store)
  {
    && Shape(c, al, lay.chains)
    && MemShape(c, m)
    && BlocksOk(c, m, al)
    && ChainsOk(c, al.currentAlloc, al.indexInCurrent, lay.chains, lay.owner)
    && LinksOk(c, m, lay.chains)
    && KeysOk(c, m, lay.chains, lay.slot, contents)
  }

  /** The primary table as `malloc` and `memset` leave it. */
  function EmptyPrimary(c: Config): seq<Record>
  {
    seq(TableSize(c), _ => EmptyRecord)
  }

  /** Every chain is just its primary slot. */
  function InitialLayout(c: Config): Layout
  {
    Layout(seq(TableSize(c), b requires 0 <= b => [Primary(b)]), map[], map[])
  }

  /** No block allocated, the bump pointer at the start. */
  function InitialAlloc(c: Config): Alloc
  {
    Alloc(seq(c.maxExtraAllocs, _ => false), 0, 0)
  }

  /** A zeroed primary table with all blocks released holds nothing, whatever the blocks held. */
  lemma ResetInv(c: Config, blocks: seq<seq<Record>>)
    requires ConfigOk(c)
    requires |blocks| == c.maxExtraAllocs && forall a :: 0 <= a < |blocks| ==> |blocks[a]| == c.extraAllocSize
    ensures Inv(c, Mem(EmptyPrimary(c), blocks), InitialAlloc(c), InitialLayout(c), map[])
  {
    var m, al, lay := Mem(EmptyPrimary(c), blocks), InitialAlloc(c), InitialLayout(c);
    assert ChainsOk(c, al.currentAlloc, al.indexInCurrent, lay.chains, lay.owner);
    assert LinksOk(c, m, lay.chains);
  }

  /**
   * A store that keeps a record's link, and makes its hash nonzero only where it was zero,
   * keeps the links: used for the count update and for filling an empty record.
   */
  lemma StoreKeepsLinks(c: Config, m: Mem, chains: seq<seq<Loc>>, l: Loc, r: Record)
    requires |chains| == TableSize(c) && LinksOk(c, m, chains) && InMem(m, l)
    requires r.next == At(m, l).next && (r.hash == Zero ==> At(m, l).hash == Zero)
    ensures LinksOk(c, With(m, l, r), chains)
  {
    forall b, k | 0 <= b < TableSize(c) && 0 <= k < |chains[b]|
      ensures LinkOk(c, With(m, l, r), chains, b, k)
    {
      assert LinkOk(c, m, chains, b, k);
    }
  }

  /** A store to a used record leaves the zeroed slots past the bump pointer alone. */
  lemma StoreKeepsBlocks(c: Config, m: Mem, al: Alloc, l: Loc, r: Record)
    requires MemShape(c, m) && |al.blockAllocated| == c.maxExtraAllocs && al.currentAlloc < c.maxExtraAllocs
    requires BlocksOk(c, m, al) && Used(c, al.currentAlloc, al.indexInCurrent, l)
    ensures MemShape(c, With(m, l, r)) && BlocksOk(c, With(m, l, r), al)
  {
  }

  /** No other chain position holds the location at position `k` of chain `b`. */
  ghost predicate OnlyAt(chains: seq<seq<Loc>>, b: nat, k: nat)
    requires b < |chains| && k < |chains[b]|
  {
    forall b', k' :: 0 <= b' < |chains| && 0 <= k' < |chains[b']| && chains[b'][k'] == chains[b][k] ==> b' == b && k' == k
  }

  lemma ChainsInjective(c: Config, cur: nat, idx: nat, chains: seq<seq<Loc>>, owner: map<Loc, (nat, nat)>, b: nat, k: nat)
    requires |chains| == TableSize(c) && ChainsOk(c, cur, idx, chains, owner)
    requires b < |chains| && k < |chains[b]|
    ensures OnlyAt(chains, b, k)
  {
    forall b', k' | 0 <= b' < |chains| && 0 <= k' < |chains[b']| && chains[b'][k'] == chains[b][k]
      ensures b' == b && k' == k
    {
      if k == 0 || k' == 0 {
        assert chains[b'][k'].Primary? && chains[b][k].Primary?;
      }
    }
  }

  /**
   * A store that keeps the hash of a chain record: the stored entry of that hash, if it is
   * nonzero, becomes the new position and count.
   */
  lemma StoreKeepsKeys(c: Config, m: Mem, chains: seq<seq<Loc>>, slot: map<Key128, nat>, ct: Store,
                       b: nat, k: nat, r: Record)
    requires c.tableBits <= 64 && |chains| == TableSize(c) && LinksOk(c, m, chains) && KeysOk(c, m, chains, slot, ct)
    requires b < TableSize(c) && k < |chains[b]|
    requires InMem(m, chains[b][k]) && r.hash == At(m, chains[b][k]).hash && r.next == At(m, chains[b][k]).next
    ensures LinksOk(c, With(m, chains[b][k], r), chains)
    ensures KeysOk(c, With(m, chains[b][k], r), chains, slot,
                   if r.hash == Zero then ct else ct[r.hash := Entry(r.pos, r.count)])
  {
    var l := chains[b][k];
    var m' := With(m, l, r);
    var ct' := if r.hash == Zero then ct else ct[r.hash := Entry(r.pos, r.count)];
    StoreKeepsLinks(c, m, chains, l, r);
    forall b', k' | 0 <= b' < TableSize(c) && 0 <= k' < |chains[b']|
      ensures At(m', chains[b'][k']).hash == At(m, chains[b'][k']).hash
    {
    }
    forall h | h in slot
      ensures At(m', chains[Bucket(c, h)][slot[h]]).hash == h
      ensures ct'[h] == Entry(At(m', chains[Bucket(c, h)][slot[h]]).pos, At(m', chains[Bucket(c, h)][slot[h]]).count)
    {
      if chains[Bucket(c, h)][slot[h]] == l {
        assert r.hash == h;
      }
    }
  }

  /**
   * Filling the empty last record of a hash's bucket chain with a new nonzero hash stores
   * that hash, with the position and count written.
   */
  lemma FillKeepsKeys(c: Config, m: Mem, chains: seq<seq<Loc>>, slot: map<Key128, nat>, ct: Store,
                      h: Key128, pos: Position, partialCount: uint32)
    requires c.tableBits <= 64 && |chains| == TableSize(c) && LinksOk(c, m, chains) && KeysOk(c, m, chains, slot, ct)
    requires h != Zero && h !in slot
    requires |chains[Bucket(c, h)]| > 0 && OnlyAt(chains, Bucket(c, h), |chains[Bucket(c, h)]| - 1)
    requires At(m, chains[Bucket(c, h)][|chains[Bucket(c, h)]| - 1]).hash == Zero
    ensures var l := chains[Bucket(c, h)][|chains[Bucket(c, h)]| - 1];
            var m' := With(m, l, Record(h, pos, partialCount, Null));
            && LinksOk(c, m', chains)
            && KeysOk(c, m', chains, slot[h := |chains[Bucket(c, h)]| - 1], ct[h := Entry(pos, partialCount)])
  {
    var b := Bucket(c, h);
    var l := chains[b][|chains[b]| - 1];
    var r := Record(h, pos, partialCount, Null);
    var m' := With(m, l, r);
    assert LinkOk(c, m, chains, b, |chains[b]| - 1);
    StoreKeepsLinks(c, m, chains, l, r);
    var slot' := slot[h := |chains[b]| - 1];
    forall b', k' | 0 <= b' < TableSize(c) && 0 <= k' < |chains[b']| && At(m', chains[b'][k']).hash != Zero
      ensures Bucket(c, At(m', chains[b'][k']).hash) == b' && At(m', chains[b'][k']).hash in slot'
      ensures slot'[At(m', chains[b'][k']).hash] == k'
    {
      if chains[b'][k'] != l {
        assert At(m', chains[b'][k']) == At(m, chains[b'][k']);
      }
    }
    forall h' | h' in slot'
      ensures At(m', chains[Bucket(c, h')][slot'[h']]).hash == h'
    {
      if h' != h {
        assert chains[Bucket(c, h')][slot[h']] != l;
      }
    }
  }

  /** The record at every chain location is the same in both memories. */
  ghost predicate SameOnChains(c: Config, m: Mem, m': Mem, chains: seq<seq<Loc>>)
    requires |chains| == TableSize(c)
  {
    forall b, k :: 0 <= b < TableSize(c) && 0 <= k < |chains[b]| && InMem(m, chains[b][k]) ==>
      InMem(m', chains[b][k]) && At(m', chains[b][k]) == At(m, chains[b][k])
  }

  /** The links and keys only depend on the records at chain locations. */
  lemma TransferChains(c: Config, m: Mem, m': Mem, chains: seq<seq<Loc>>, slot: map<Key128, nat>, ct: Store)
    requires c.tableBits <= 64 && |chains| == TableSize(c) && LinksOk(c, m, chains) && KeysOk(c, m, chains, slot, ct)
    requires SameOnChains(c, m, m', chains)
    ensures LinksOk(c, m', chains) && KeysOk(c, m', chains, slot, ct)
  {
    forall b, k | 0 <= b < TableSize(c) && 0 <= k < |chains[b]|
      ensures InMem(m', chains[b][k]) && At(m', chains[b][k]) == At(m, chains[b][k])
      ensures LinkOk(c, m', chains, b, k)
    {
      assert LinkOk(c, m, chains, b, k);
    }
    forall h | h in slot
      ensures At(m', chains[Bucket(c, h)][slot[h]]) == At(m, chains[Bucket(c, h)][slot[h]])
    {
    }
  }

  /** The memory after the `malloc` and `memset` of block `a`. */
  function ZeroFilled(c: Config, m: Mem, a: nat): Mem
    requires a < |m.blocks|
  {
    m.(blocks := m.blocks[a := seq(c.extraAllocSize, _ => EmptyRecord)])
  }

  /** Allocating and zeroing the current block, while it is unallocated, keeps the invariant. */
  lemma ZeroFillKeepsInv(c: Config, m: Mem, al: Alloc, lay: Layout, ct: Store)
    requires Inv(c, m, al, lay, ct) && !al.blockAllocated[al.currentAlloc]
    ensures Inv(c, ZeroFilled(c, m, al.currentAlloc),
                al.(blockAllocated := al.blockAllocated[al.currentAlloc := true]), lay, ct)
  {
    var m' := ZeroFilled(c, m, al.currentAlloc);
    var al' := al.(blockAllocated := al.blockAllocated[al.currentAlloc := true]);
    assert SameOnChains(c, m, m', lay.chains) by {
      forall b, k | 0 <= b < TableSize(c) && 0 <= k < |lay.chains[b]| && InMem(m, lay.chains[b][k])
        ensures InMem(m', lay.chains[b][k]) && At(m', lay.chains[b][k]) == At(m, lay.chains[b][k])
      {
        if k > 0 {
          assert Used(c, al.currentAlloc, al.indexInCurrent, lay.chains[b][k]);
        }
      }
    }
    TransferChains(c, m, m', lay.chains, lay.slot, ct);
    assert BlocksOk(c, m', al');
  }

  /** The bump pointer after handing out one slot, rolling over at the end of a block. */
  function Bump(c: Config, al: Alloc): Alloc
  {
    if al.indexInCurrent + 1 == c.extraAllocSize then al.(currentAlloc := al.currentAlloc + 1, indexInCurrent := 0)
    else al.(indexInCurrent := al.indexInCurrent + 1)
  }

  /** Chain `b` extended by the new slot `e`. */
  function Extend(lay: Layout, b: nat, e: Loc): Layout
    requires b < |lay.chains|
  {
    Layout(lay.chains[b := lay.chains[b] + [e]], lay.slot, lay.owner[e := (b, |lay.chains[b]|)])
  }

  function Last(s: seq<Loc>): Loc
    requires |s| > 0
  {
    s[|s| - 1]
  }

  /** `prev->next = newEntry`. */
  function Linked(m: Mem, p: Loc, e: Loc): Mem
    requires InMem(m, p) && e.Overflow?
  {
    With(m, p, At(m, p).(next := Ref(e.block, e.index)))
  }

  lemma BumpBlocks(c: Config, m: Mem, al: Alloc, chains: seq<seq<Loc>>, owner: map<Loc, (nat, nat)>, b: nat)
    requires Shape(c, al, chains) && MemShape(c, m) && BlocksOk(c, m, al)
    requires ChainsOk(c, al.currentAlloc, al.indexInCurrent, chains, owner)
    requires al.blockAllocated[al.currentAlloc]
    requires !(al.indexInCurrent + 1 == c.extraAllocSize && al.currentAlloc + 1 == c.maxExtraAllocs)
    requires b < TableSize(c) && InMem(m, Last(chains[b]))
    ensures var m' := Linked(m, Last(chains[b]), Overflow(al.currentAlloc, al.indexInCurrent));
            Shape(c, Bump(c, al), chains) && MemShape(c, m') && BlocksOk(c, m', Bump(c, al))
  {
    var p := Last(chains[b]);
    if |chains[b]| > 1 {
      assert Used(c, al.currentAlloc, al.indexInCurrent, p);
    }
    StoreKeepsBlocks(c, m, al, p, At(m, p).(next := Ref(al.currentAlloc, al.indexInCurrent)));
  }

  lemma BumpChains(c: Config, al: Alloc, chains: seq<seq<Loc>>, owner: map<Loc, (nat, nat)>, b: nat)
    requires |chains| == TableSize(c) && ChainsOk(c, al.currentAlloc, al.indexInCurrent, chains, owner)
    requires al.indexInCurrent < c.extraAllocSize
    requires b < TableSize(c)
    ensures var e := Overflow(al.currentAlloc, al.indexInCurrent);
            var al' := Bump(c, al);
            var lay' := Extend(Layout(chains, map[], owner), b, e);
            ChainsOk(c, al'.currentAlloc, al'.indexInCurrent, lay'.chains, lay'.owner)
  {
    var e := Overflow(al.currentAlloc, al.indexInCurrent);
    var al' := Bump(c, al);
    var lay' := Extend(Layout(chains, map[], owner), b, e);
    assert e !in owner;
    forall a, i | Used(c, al'.currentAlloc, al'.indexInCurrent, Overflow(a, i))
      ensures Overflow(a, i) in lay'.owner
    {
      if Overflow(a, i) != e {
        assert Used(c, al.currentAlloc, al.indexInCurrent, Overflow(a, i));
      }
    }
    forall b', k | 0 <= b' < TableSize(c) && 0 < k < |lay'.chains[b']|
      ensures Used(c, al'.currentAlloc, al'.indexInCurrent, lay'.chains[b'][k])
      ensures lay'.chains[b'][k] in lay'.owner && lay'.owner[lay'.chains[b'][k]] == (b', k)
    {
      if b' == b && k == |chains[b]| {
      } else {
        assert lay'.chains[b'][k] == chains[b'][k];
        assert chains[b'][k] != e;
      }
    }
  }

  /** `e` is at no position of any chain. */
  ghost predicate NotInChains(chains: seq<seq<Loc>>, e: Loc)
  {
    forall b, k :: 0 <= b < |chains| && 0 <= k < |chains[b]| ==> chains[b][k] != e
  }

  lemma BumpLinks(c: Config, m: Mem, chains: seq<seq<Loc>>, b: nat, e: Loc)
    requires |chains| == TableSize(c) && LinksOk(c, m, chains)
    requires b < TableSize(c) && |chains[b]| > 0 && OnlyAt(chains, b, |chains[b]| - 1)
    requires At(m, Last(chains[b])).hash != Zero
    requires e.Overflow? && InMem(m, e) && At(m, e) == EmptyRecord && NotInChains(chains, e)
    ensures LinksOk(c, Linked(m, Last(chains[b]), e), chains[b := chains[b] + [e]])
  {
    var p := Last(chains[b]);
    var n := |chains[b]|;
    var m' := Linked(m, p, e);
    var chains' := chains[b := chains[b] + [e]];
    forall b', k | 0 <= b' < TableSize(c) && 0 <= k < |chains'[b']|
      ensures InMem(m', chains'[b'][k]) && LinkOk(c, m', chains', b', k)
    {
      if b' == b && k == n {
        assert chains'[b'][k] == e && e != p;
      } else if b' == b && k == n - 1 {
        assert chains'[b'][k] == p && chains'[b'][k + 1] == e;
      } else {
        assert LinkOk(c, m, chains, b', k);
        assert chains'[b'][k] == chains[b'][k] != p;
        assert k + 1 < |chains'[b']| ==> chains'[b'][k + 1] == chains[b'][k + 1];
      }
    }
  }

  lemma BumpKeys(c: Config, m: Mem, chains: seq<seq<Loc>>, slot: map<Key128, nat>, ct: Store, b: nat, e: Loc)
    requires c.tableBits <= 64 && |chains| == TableSize(c) && LinksOk(c, m, chains) && KeysOk(c, m, chains, slot, ct)
    requires b < TableSize(c) && |chains[b]| > 0 && OnlyAt(chains, b, |chains[b]| - 1)
    requires e.Overflow? && InMem(m, e) && At(m, e) == EmptyRecord && NotInChains(chains, e)
    requires LinksOk(c, Linked(m, Last(chains[b]), e), chains[b := chains[b] + [e]])
    ensures KeysOk(c, Linked(m, Last(chains[b]), e), chains[b := chains[b] + [e]], slot, ct)
  {
    var p := Last(chains[b]);
    var n := |chains[b]|;
    var m' := Linked(m, p, e);
    var chains' := chains[b := chains[b] + [e]];
    forall b', k | 0 <= b' < TableSize(c) && 0 <= k < |chains'[b']| && At(m', chains'[b'][k]).hash != Zero
      ensures Bucket(c, At(m', chains'[b'][k]).hash) == b' && At(m', chains'[b'][k]).hash in slot
      ensures slot[At(m', chains'[b'][k]).hash] == k
    {
      assert !(b' == b && k == n);
      assert chains'[b'][k] == chains[b'][k];
      assert At(m', chains[b'][k]).hash == At(m, chains[b'][k]).hash;
    }
    forall h | h in slot
      ensures chains'[Bucket(c, h)][slot[h]] == chains[Bucket(c, h)][slot[h]]
      ensures At(m', chains[Bucket(c, h)][slot[h]]).hash == At(m, chains[Bucket(c, h)][slot[h]]).hash
      ensures At(m', chains[Bucket(c, h)][slot[h]]).pos == At(m, chains[Bucket(c, h)][slot[h]]).pos
      ensures At(m', chains[Bucket(c, h)][slot[h]]).count == At(m, chains[Bucket(c, h)][slot[h]]).count
    {
    }
  }

  lemma BumpLinksKeys(c: Config, m: Mem, al: Alloc, lay: Layout, ct: Store, b: nat)
    requires Inv(c, m, al, lay, ct)
    requires al.blockAllocated[al.currentAlloc]
    requires b < TableSize(c) && At(m, Last(lay.chains[b])).hash != Zero
    ensures var e := Overflow(al.currentAlloc, al.indexInCurrent);
            var m' := Linked(m, Last(lay.chains[b]), e);
            var lay' := Extend(lay, b, e);
            LinksOk(c, m', lay'.chains) && KeysOk(c, m', lay'.chains, lay'.slot, ct)
  {
    var e := Overflow(al.currentAlloc, al.indexInCurrent);
    ChainsInjective(c, al.currentAlloc, al.indexInCurrent, lay.chains, lay.owner, b, |lay.chains[b]| - 1);
    assert NotInChains(lay.chains, e) by {
      forall b', k | 0 <= b' < |lay.chains| && 0 <= k < |lay.chains[b']|
        ensures lay.chains[b'][k] != e
      {
        if k > 0 {
          assert Used(c, al.currentAlloc, al.indexInCurrent, lay.chains[b'][k]);
        }
      }
    }
    BumpLinks(c, m, lay.chains, b, e);
    BumpKeys(c, m, lay.chains, lay.slot, ct, b, e);
  }

  /** Handing out the next overflow slot and linking it after the last record of chain `b`. */
  lemma BumpKeepsInv(c: Config, m: Mem, al: Alloc, lay: Layout, ct: Store, b: nat)
    requires Inv(c, m, al, lay, ct)
    requires al.blockAllocated[al.currentAlloc]
    requires !(al.indexInCurrent + 1 == c.extraAllocSize && al.currentAlloc + 1 == c.maxExtraAllocs)
    requires b < TableSize(c) && At(m, Last(lay.chains[b])).hash != Zero
    ensures var e := Overflow(al.currentAlloc, al.indexInCurrent);
            Inv(c, Linked(m, Last(lay.chains[b]), e), Bump(c, al), Extend(lay, b, e), ct)
  {
    BumpBlocks(c, m, al, lay.chains, lay.owner, b);
    BumpChains(c, al, lay.chains, lay.owner, b);
    BumpLinksKeys(c, m, al, lay, ct, b);
  }

  /** The memory once the current block is allocated: zeroed now if it was not yet. */
  function PreparedMem(c: Config, m: Mem, al: Alloc): Mem
    requires al.currentAlloc < |m.blocks| && al.currentAlloc < |al.blockAllocated|
  {
    if al.blockAllocated[al.currentAlloc] then m else ZeroFilled(c, m, al.currentAlloc)
  }

  /** The allocator once the current block is allocated. */
  function PreparedAlloc(al: Alloc): Alloc
    requires al.currentAlloc < |al.blockAllocated|
  {
    if al.blockAllocated[al.currentAlloc] then al
    else al.(blockAllocated := al.blockAllocated[al.currentAlloc := true])
  }

  /**
   * One step of the chain walk for hash `h`: when the record at position `k` of `h`'s bucket
   * chain does not hold `h`, and no earlier one does, `h` is stored further along if at all;
   * a chain that ends here, or an empty record here, means `h` is not stored.
   */
  lemma WalkStep(c: Config, m: Mem, chains: seq<seq<Loc>>, slot: map<Key128, nat>, ct: Store, h: Key128, k: nat)
    requires c.tableBits <= 64 && |chains| == TableSize(c) && LinksOk(c, m, chains) && KeysOk(c, m, chains, slot, ct)
    requires k < |chains[Bucket(c, h)]| && At(m, chains[Bucket(c, h)][k]).hash != h
    requires h in slot ==> slot[h] >= k
    ensures h in slot ==> slot[h] > k
    ensures k + 1 == |chains[Bucket(c, h)]| ==> h !in ct
    ensures At(m, chains[Bucket(c, h)][k]).hash == Zero ==> k + 1 == |chains[Bucket(c, h)]| && h !in ct
  {
    var b := Bucket(c, h);
    if h in slot {
      assert At(m, chains[b][slot[h]]).hash == h;
    }
    assert LinkOk(c, m, chains, b, k);
  }

  /** Following the `next` link of a chain record: null exactly at the chain's end, else the next location. */
  lemma LinkStep(c: Config, m: Mem, chains: seq<seq<Loc>>, b: nat, k: nat)
    requires |chains| == TableSize(c) && LinksOk(c, m, chains)
    requires b < TableSize(c) && k < |chains[b]|
    ensures At(m, chains[b][k]).next.Null? <==> k + 1 == |chains[b]|
    ensures k + 1 < |chains[b]| ==> Target(At(m, chains[b][k]).next) == chains[b][k + 1]
  {
    assert LinkOk(c, m, chains, b, k);
  }

  /** A nonzero hash met on a chain is stored, with the position and count of that record. */
  lemma WalkMatch(c: Config, m: Mem, chains: seq<seq<Loc>>, slot: map<Key128, nat>, ct: Store, b: nat, k: nat)
    requires c.tableBits <= 64 && |chains| == TableSize(c) && LinksOk(c, m, chains) && KeysOk(c, m, chains, slot, ct)
    requires b < TableSize(c) && k < |chains[b]| && At(m, chains[b][k]).hash != Zero
    ensures At(m, chains[b][k]).hash in ct && Bucket(c, At(m, chains[b][k]).hash) == b
    ensures ct[At(m, chains[b][k]).hash] == Entry(At(m, chains[b][k]).pos, At(m, chains[b][k]).count)
  {
    var h := At(m, chains[b][k]).hash;
    assert h in slot && slot[h] == k;
  }

  /** The hashes on a chain are distinct, all index that chain's bucket, and are exactly the stored ones. */
  lemma ChainHashes(c: Config, m: Mem, al: Alloc, lay: Layout, ct: Store)
    requires Inv(c, m, al, lay, ct)
    ensures forall b, k, k' :: 0 <= b < TableSize(c) && 0 <= k < |lay.chains[b]| && 0 <= k' < |lay.chains[b]|
              && At(m, lay.chains[b][k]).hash != Zero && At(m, lay.chains[b][k]).hash == At(m, lay.chains[b][k']).hash
              ==> k == k'
    ensures forall b, k :: 0 <= b < TableSize(c) && 0 <= k < |lay.chains[b]| && At(m, lay.chains[b][k]).hash != Zero
              ==> Bucket(c, At(m, lay.chains[b][k]).hash) == b && At(m, lay.chains[b][k]).hash in ct
    ensures forall h :: h in ct ==>
              h != Zero && exists k :: 0 <= k < |lay.chains[Bucket(c, h)]| && At(m, lay.chains[Bucket(c, h)][k]).hash == h
  {
    forall h | h in ct
      ensures exists k :: 0 <= k < |lay.chains[Bucket(c, h)]| && At(m, lay.chains[Bucket(c, h)][k]).hash == h
    {
      assert At(m, lay.chains[Bucket(c, h)][lay.slot[h]]).hash == h;
    }
  }

  /**
   * The match case: adding `partialCount` to the count of the chain record `l` holding `h`
   * keeps the invariant and makes the content that of `Insert`, which reports "found".
   */
  lemma CountKeepsInv(c: Config, m: Mem, al: Alloc, lay: Layout, ct: Store, h: Key128, k: nat,
                      pos: Position, partialCount: uint32, l: Loc, r: Record, ct': Store)
    requires Inv(c, m, al, lay, ct)
    requires k < |lay.chains[Bucket(c, h)]| && l == lay.chains[Bucket(c, h)][k] && At(m, l).hash == h
    requires r == At(m, l).(count := AddCount(At(m, l).count, partialCount))
    requires ct' == if h == Zero then ct else ct[h := Entry(r.pos, r.count)]
    ensures Inv(c, With(m, l, r), al, lay, ct')
    ensures Insert(ct, h, pos, partialCount) == (ct', true)
  {
    var b := Bucket(c, h);
    if h != Zero {
      WalkMatch(c, m, lay.chains, lay.slot, ct, b, k);
    }
    StoreKeepsKeys(c, m, lay.chains, lay.slot, ct, b, k, r);
    if k > 0 {
      assert Used(c, al.currentAlloc, al.indexInCurrent, l);
    }
    StoreKeepsBlocks(c, m, al, l, r);
  }

  /**
   * The empty-record case: filling the empty chain record `l` met by a walk that has not
   * seen the nonzero hash `h` keeps the invariant, and adds `h` as `Insert` does, which
   * reports "not found".
   */
  lemma FillKeepsInv(c: Config, m: Mem, al: Alloc, lay: Layout, ct: Store, h: Key128, k: nat,
                     pos: Position, partialCount: uint32, l: Loc, r: Record, lay': Layout, ct': Store)
    requires Inv(c, m, al, lay, ct)
    requires k < |lay.chains[Bucket(c, h)]| && l == lay.chains[Bucket(c, h)][k] && At(m, l).hash == Zero
    requires h != Zero && (h in lay.slot ==> lay.slot[h] >= k)
    requires r == Record(h, pos, partialCount, Null)
    requires lay' == lay.(slot := lay.slot[h := k]) && ct' == ct[h := Entry(pos, partialCount)]
    ensures Inv(c, With(m, l, r), al, lay', ct')
    ensures Insert(ct, h, pos, partialCount) == (ct', false)
  {
    var b := Bucket(c, h);
    var m' := With(m, l, r);
    assert k + 1 == |lay.chains[b]| && h !in ct by {
      WalkStep(c, m, lay.chains, lay.slot, ct, h, k);
    }
    assert LinksOk(c, m', lay.chains) && KeysOk(c, m', lay.chains, lay'.slot, ct') by {
      ChainsInjective(c, al.currentAlloc, al.indexInCurrent, lay.chains, lay.owner, b, k);
      FillKeepsKeys(c, m, lay.chains, lay.slot, ct, h, pos, partialCount);
    }
    assert MemShape(c, m') && BlocksOk(c, m', al) by {
      if k > 0 {
        assert Used(c, al.currentAlloc, al.indexInCurrent, l);
      }
      StoreKeepsBlocks(c, m, al, l, r);
    }
  }

  /** The change `findPositionAndUpdateCounter` makes to the record its walk stops at. */
  datatype Update = CountUp(partialCount: uint32) | FillIn(hash: Key128, pos: Position, partialCount: uint32)

  /** The record `u` leaves in place of `r`: the count raised, or the new entry with `next = NULL`. */
  function Applied(u: Update, r: Record): Record
  {
    match u
    case CountUp(partialCount) => r.(count := AddCount(r.count, partialCount))
    case FillIn(h, pos, partialCount) => Record(h, pos, partialCount, Null)
  }

  /**
   * The slot at the bump pointer of an allocated current block is still zero, and linking it
   * after the last record of chain `b` leaves it zero: the tail is a different slot.
   */
  lemma FreshSlot(c: Config, m: Mem, al: Alloc, lay: Layout, ct: Store, b: nat)
    requires Inv(c, m, al, lay, ct) && al.blockAllocated[al.currentAlloc] && b < TableSize(c)
    ensures var e := Overflow(al.currentAlloc, al.indexInCurrent);
            && InMem(m, Last(lay.chains[b])) && InMem(m, e)
            && At(Linked(m, Last(lay.chains[b]), e), e) == EmptyRecord
  {
    var e := Overflow(al.currentAlloc, al.indexInCurrent);
    var p := Last(lay.chains[b]);
    assert InMem(m, p);
    if |lay.chains[b]| > 1 {
      assert Used(c, al.currentAlloc, al.indexInCurrent, p);
    }
    assert p != e;
    assert m.blocks[al.currentAlloc][al.indexInCurrent] == EmptyRecord;
  }

  /**
   * The table holds no stray record: a primary slot with the zero hash has count 0, and every
   * overflow slot handed out holds a nonzero hash. A freshly zeroed table is clean, and
   * inserting nonzero keys keeps it so; only the key (0,0) leaves a count in an empty record.
   */
  ghost predicate Clean(c: Config, m: Mem, al: Alloc)
  {
    && (forall b :: 0 <= b < |m.primary| && m.primary[b].hash == Zero ==> m.primary[b].count == 0)
    && (forall a, i :: 0 <= a < |m.blocks| && 0 <= i < |m.blocks[a]| && Used(c, al.currentAlloc, al.indexInCurrent, Overflow(a, i))
          ==> m.blocks[a][i].hash != Zero)
  }

  /** A zeroed primary table with no overflow slot handed out is clean, whatever the blocks hold. */
  lemma InitialClean(c: Config, blocks: seq<seq<Record>>)
    ensures Clean(c, Mem(EmptyPrimary(c), blocks), InitialAlloc(c))
  {
  }

  /** Storing a record with a nonzero hash keeps the table clean. */
  lemma StoreClean(c: Config, m: Mem, al: Alloc, l: Loc, r: Record)
    requires Clean(c, m, al) && InMem(m, l) && r.hash != Zero
    ensures Clean(c, With(m, l, r), al)
  {
  }

  /** `prev->next = newEntry` keeps the table clean: only the link of `p` changes. */
  lemma LinkClean(c: Config, m: Mem, al: Alloc, p: Loc, e: Loc)
    requires Clean(c, m, al) && InMem(m, p) && e.Overflow?
    ensures Clean(c, Linked(m, p, e), al)
  {
  }

  /**
   * The `malloc` and `memset` of the current block keep the table clean: while the block is
   * unallocated, none of its slots has been handed out.
   */
  lemma PrepareClean(c: Config, m: Mem, al: Alloc)
    requires Clean(c, m, al) && al.currentAlloc < |m.blocks| && al.currentAlloc < |al.blockAllocated|
    requires !al.blockAllocated[al.currentAlloc] ==> al.indexInCurrent == 0
    ensures Clean(c, PreparedMem(c, m, al), PreparedAlloc(al))
  {
  }

  /** Handing out the slot at the bump pointer keeps the table clean once that slot holds a nonzero hash. */
  lemma BumpClean(c: Config, m: Mem, al: Alloc)
    requires Clean(c, m, al) && al.indexInCurrent < c.extraAllocSize
    requires InMem(m, Overflow(al.currentAlloc, al.indexInCurrent))
    requires At(m, Overflow(al.currentAlloc, al.indexInCurrent)).hash != Zero
    ensures Clean(c, m, Bump(c, al))
  {
    var al' := Bump(c, al);
    forall a, i | 0 <= a < |m.blocks| && 0 <= i < |m.blocks[a]| && Used(c, al'.currentAlloc, al'.indexInCurrent, Overflow(a, i))
      ensures m.blocks[a][i].hash != Zero
    {
      if !Used(c, al.currentAlloc, al.indexInCurrent, Overflow(a, i)) {
        assert a == al.currentAlloc && i == al.indexInCurrent;
      }
    }
  }
}
