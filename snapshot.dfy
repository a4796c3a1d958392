/**
 * The records `saveUniquesToFile` writes out of a table state, in file order: the primary
 * slots whose count is nonzero, in bucket order, then every record of the full overflow
 * blocks, then the handed-out part of the current block. What that sequence holds is proved
 * from the table invariant: each stored entry, each nonzero hash at most once.
 */
module Snapshot {
  import opened HashKey
  import opened UniqueStore
  import opened TableState

  /** The records of the primary table with a nonzero count, in bucket order. */
  function LivePrimaries(p: seq<Record>): seq<Record>
  {
    if |p| == 0 then []
    else LivePrimaries(p[..|p| - 1]) + (if p[|p| - 1].count != 0 then [p[|p| - 1]] else [])
  }

  /** The records of blocks `0 .. n-1`, one block after the other. */
  function FullBlocks(blocks: seq<seq<Record>>, n: nat): seq<Record>
    requires n <= |blocks|
  {
    if n == 0 then [] else FullBlocks(blocks, n - 1) + blocks[n - 1]
  }

  /** The file `saveUniquesToFile` writes. */
  function SavedImage(m: Mem, al: Alloc): seq<Record>
    requires al.currentAlloc < |m.blocks| && al.indexInCurrent <= |m.blocks[al.currentAlloc]|
  {
    LivePrimaries(m.primary) + FullBlocks(m.blocks, al.currentAlloc)
    + (if al.indexInCurrent != 0 then m.blocks[al.currentAlloc][..al.indexInCurrent] else [])
  }

  /** The locations of the live primary records, in bucket order. */
  function LivePrimaryLocs(p: seq<Record>): seq<Loc>
  {
    if |p| == 0 then []
    else LivePrimaryLocs(p[..|p| - 1]) + (if p[|p| - 1].count != 0 then [Primary(|p| - 1)] else [])
  }

  /** The first `n` slots of block `a`. */
  function BlockLocs(a: nat, n: nat): (r: seq<Loc>)
    ensures |r| == n && forall i :: 0 <= i < n ==> r[i] == Overflow(a, i)
  {
    seq(n, i requires 0 <= i => Overflow(a, i))
  }

  /** All slots of blocks `0 .. n-1`, one block after the other. */
  function FullBlockLocs(n: nat, size: nat): seq<Loc>
  {
    if n == 0 then [] else FullBlockLocs(n - 1, size) + BlockLocs(n - 1, size)
  }

  /** The location each record of the file is read from. */
  function ImageLocs(c: Config, m: Mem, al: Alloc): seq<Loc>
  {
    LivePrimaryLocs(m.primary) + FullBlockLocs(al.currentAlloc, c.extraAllocSize)
    + (if al.indexInCurrent != 0 then BlockLocs(al.currentAlloc, al.indexInCurrent) else [])
  }

  /** No location is listed twice. */
  ghost predicate NoDup(s: seq<Loc>)
  {
    forall i, j :: 0 <= i < |s| && 0 <= j < |s| && s[i] == s[j] ==> i == j
  }

  lemma NoDupConcat(s: seq<Loc>, t: seq<Loc>)
    requires NoDup(s) && NoDup(t) && forall i, j :: 0 <= i < |s| && 0 <= j < |t| ==> s[i] != t[j]
    ensures NoDup(s + t)
  {
    forall i, j | 0 <= i < |s + t| && 0 <= j < |s + t| && (s + t)[i] == (s + t)[j]
      ensures i == j
    {
      if i < |s| && j < |s| {
        assert s[i] == s[j];
      } else if i >= |s| && j >= |s| {
        assert t[i - |s|] == t[j - |s|];
      }
    }
  }

  /** The live primary records are the records at their locations, which are primary slots. */
  lemma {:induction false} LivePrimaryAt(p: seq<Record>)
    ensures |LivePrimaries(p)| == |LivePrimaryLocs(p)|
    ensures forall i :: 0 <= i < |LivePrimaryLocs(p)| ==>
              LivePrimaryLocs(p)[i].Primary? && LivePrimaryLocs(p)[i].bucket < |p|
              && LivePrimaries(p)[i] == p[LivePrimaryLocs(p)[i].bucket]
  {
    if |p| > 0 {
      var q := p[..|p| - 1];
      LivePrimaryAt(q);
      forall i | 0 <= i < |LivePrimaryLocs(q)|
        ensures LivePrimaryLocs(p)[i] == LivePrimaryLocs(q)[i] && LivePrimaries(p)[i] == LivePrimaries(q)[i]
        ensures q[LivePrimaryLocs(q)[i].bucket] == p[LivePrimaryLocs(q)[i].bucket]
      {
      }
    }
  }

  /** The live primary locations are in strictly increasing bucket order, so none is listed twice. */
  lemma {:induction false} LivePrimaryOrder(p: seq<Record>)
    ensures forall i :: 0 <= i < |LivePrimaryLocs(p)| ==>
              LivePrimaryLocs(p)[i].Primary? && LivePrimaryLocs(p)[i].bucket < |p|
    ensures forall i, j :: 0 <= i < j < |LivePrimaryLocs(p)| ==>
              LivePrimaryLocs(p)[i].bucket < LivePrimaryLocs(p)[j].bucket
  {
    if |p| > 0 {
      var q := p[..|p| - 1];
      LivePrimaryOrder(q);
      assert forall i :: 0 <= i < |LivePrimaryLocs(q)| ==> LivePrimaryLocs(p)[i] == LivePrimaryLocs(q)[i];
    }
  }

  /** A primary slot is listed exactly when its count is nonzero. */
  lemma {:induction false} LivePrimaryMembers(p: seq<Record>)
    ensures forall l :: l in LivePrimaryLocs(p) <==> l.Primary? && l.bucket < |p| && p[l.bucket].count != 0
  {
    if |p| > 0 {
      var q := p[..|p| - 1];
      LivePrimaryMembers(q);
      var tail := if p[|p| - 1].count != 0 then [Primary(|p| - 1)] else [];
      assert LivePrimaryLocs(p) == LivePrimaryLocs(q) + tail;
      forall l: Loc
        ensures l in LivePrimaryLocs(p) <==> l.Primary? && l.bucket < |p| && p[l.bucket].count != 0
      {
        if l.Primary? && l.bucket < |q| {
          assert q[l.bucket] == p[l.bucket];
        }
      }
    }
  }

  /** The records of the full blocks are those at the slots of the full blocks, in block order. */
  lemma {:induction false} FullBlocksAt(blocks: seq<seq<Record>>, n: nat, size: nat)
    requires n <= |blocks| && forall a :: 0 <= a < n ==> |blocks[a]| == size
    ensures |FullBlocks(blocks, n)| == |FullBlockLocs(n, size)|
    ensures forall i :: 0 <= i < |FullBlockLocs(n, size)| ==>
              FullBlockLocs(n, size)[i].Overflow? && FullBlockLocs(n, size)[i].block < n
              && FullBlockLocs(n, size)[i].index < size
              && FullBlocks(blocks, n)[i] == blocks[FullBlockLocs(n, size)[i].block][FullBlockLocs(n, size)[i].index]
  {
    if n > 0 {
      FullBlocksAt(blocks, n - 1, size);
      var s, t := FullBlockLocs(n - 1, size), BlockLocs(n - 1, size);
      assert FullBlockLocs(n, size) == s + t;
      assert FullBlocks(blocks, n) == FullBlocks(blocks, n - 1) + blocks[n - 1];
    }
  }

  /** The slots of the full blocks are listed once each, and are exactly the slots of blocks below `n`. */
  lemma {:induction false} FullBlockLocsMembers(n: nat, size: nat)
    ensures forall i :: 0 <= i < |FullBlockLocs(n, size)| ==>
              FullBlockLocs(n, size)[i].Overflow? && FullBlockLocs(n, size)[i].block < n
    ensures NoDup(FullBlockLocs(n, size))
    ensures forall l :: l in FullBlockLocs(n, size) <==> l.Overflow? && l.block < n && l.index < size
  {
    if n > 0 {
      FullBlockLocsMembers(n - 1, size);
      var s, t := FullBlockLocs(n - 1, size), BlockLocs(n - 1, size);
      assert FullBlockLocs(n, size) == s + t;
      NoDupConcat(s, t);
      forall l: Loc | l.Overflow? && l.block < n && l.index < size
        ensures l in FullBlockLocs(n, size)
      {
        if l.block == n - 1 {
          assert t[l.index] == l;
        } else {
          assert l in s;
        }
      }
    }
  }

  /** Each record of the file is the record at its location. */
  lemma ImageAt(c: Config, m: Mem, al: Alloc)
    requires MemShape(c, m) && al.currentAlloc < c.maxExtraAllocs && al.indexInCurrent < c.extraAllocSize
    ensures |SavedImage(m, al)| == |ImageLocs(c, m, al)|
    ensures forall i :: 0 <= i < |ImageLocs(c, m, al)| ==>
              InMem(m, ImageLocs(c, m, al)[i]) && SavedImage(m, al)[i] == At(m, ImageLocs(c, m, al)[i])
  {
    var cur, idx := al.currentAlloc, al.indexInCurrent;
    LivePrimaryAt(m.primary);
    FullBlocksAt(m.blocks, cur, c.extraAllocSize);
    var p, q := LivePrimaryLocs(m.primary), FullBlockLocs(cur, c.extraAllocSize);
    var r := if idx != 0 then BlockLocs(cur, idx) else [];
    var pp, qq := LivePrimaries(m.primary), FullBlocks(m.blocks, cur);
    var rr := if idx != 0 then m.blocks[cur][..idx] else [];
    assert ImageLocs(c, m, al) == p + q + r;
    assert SavedImage(m, al) == pp + qq + rr;
    forall i | 0 <= i < |p + q + r|
      ensures InMem(m, (p + q + r)[i]) && (pp + qq + rr)[i] == At(m, (p + q + r)[i])
    {
      if i < |p| {
        assert (p + q + r)[i] == p[i] && (pp + qq + rr)[i] == pp[i];
      } else if i < |p| + |q| {
        assert (p + q + r)[i] == q[i - |p|] && (pp + qq + rr)[i] == qq[i - |p|];
      } else {
        assert (p + q + r)[i] == r[i - |p| - |q|] && (pp + qq + rr)[i] == rr[i - |p| - |q|];
      }
    }
  }

  /** The file reads each used location once, skipping the primary slots whose count is zero. */
  lemma ImageLocsMembers(c: Config, m: Mem, al: Alloc)
    requires |m.primary| == TableSize(c) && al.currentAlloc < c.maxExtraAllocs && al.indexInCurrent < c.extraAllocSize
    ensures NoDup(ImageLocs(c, m, al))
    ensures forall l :: l in ImageLocs(c, m, al) <==>
              Used(c, al.currentAlloc, al.indexInCurrent, l) && (l.Primary? ==> m.primary[l.bucket].count != 0)
  {
    var cur, idx := al.currentAlloc, al.indexInCurrent;
    LivePrimaryOrder(m.primary);
    LivePrimaryMembers(m.primary);
    FullBlockLocsMembers(cur, c.extraAllocSize);
    var p, q := LivePrimaryLocs(m.primary), FullBlockLocs(cur, c.extraAllocSize);
    var r := if idx != 0 then BlockLocs(cur, idx) else [];
    assert NoDup(p);
    NoDupConcat(p, q);
    NoDupConcat(p + q, r);
    assert ImageLocs(c, m, al) == p + q + r;
    forall l: Loc
      ensures l in p + q + r <==>
                Used(c, cur, idx, l) && (l.Primary? ==> m.primary[l.bucket].count != 0)
    {
      assert l in p + q + r <==> l in p || l in q || l in r;
    }
  }

  /** A used location is on a chain: a primary slot heads its bucket's chain, an overflow slot follows. */
  lemma ChainOf(c: Config, al: Alloc, lay: Layout, l: Loc) returns (b: nat, k: nat)
    requires Shape(c, al, lay.chains) && ChainsOk(c, al.currentAlloc, al.indexInCurrent, lay.chains, lay.owner)
    requires Used(c, al.currentAlloc, al.indexInCurrent, l)
    ensures b < TableSize(c) && k < |lay.chains[b]| && lay.chains[b][k] == l
    ensures k == 0 <==> l.Primary?
  {
    if l.Primary? {
      b, k := l.bucket, 0;
    } else {
      assert l == Overflow(l.block, l.index);
      b, k := lay.owner[l].0, lay.owner[l].1;
    }
  }

  /**
   * Each record of the file with a nonzero hash carries the entry stored under that hash,
   * and is read from the chain position the table keeps for that hash.
   */
  lemma SavedMatches(c: Config, m: Mem, al: Alloc, lay: Layout, ct: Store)
    requires Inv(c, m, al, lay, ct)
    ensures |SavedImage(m, al)| == |ImageLocs(c, m, al)|
    ensures forall i :: 0 <= i < |SavedImage(m, al)| && SavedImage(m, al)[i].hash != Zero ==>
              SavedImage(m, al)[i].hash in ct
              && ct[SavedImage(m, al)[i].hash] == Entry(SavedImage(m, al)[i].pos, SavedImage(m, al)[i].count)
              && lay.chains[Bucket(c, SavedImage(m, al)[i].hash)][lay.slot[SavedImage(m, al)[i].hash]]
                 == ImageLocs(c, m, al)[i]
  {
    var f, locs := SavedImage(m, al), ImageLocs(c, m, al);
    ImageAt(c, m, al);
    ImageLocsMembers(c, m, al);
    forall i | 0 <= i < |f| && f[i].hash != Zero
      ensures f[i].hash in ct && ct[f[i].hash] == Entry(f[i].pos, f[i].count)
      ensures lay.chains[Bucket(c, f[i].hash)][lay.slot[f[i].hash]] == locs[i]
    {
      assert locs[i] in locs;
      var b, k := ChainOf(c, al, lay, locs[i]);
      WalkMatch(c, m, lay.chains, lay.slot, ct, b, k);
    }
  }

  /** No nonzero hash is written twice. */
  lemma SavedDistinct(c: Config, m: Mem, al: Alloc, lay: Layout, ct: Store)
    requires Inv(c, m, al, lay, ct)
    ensures forall i, j :: 0 <= i < |SavedImage(m, al)| && 0 <= j < |SavedImage(m, al)|
              && SavedImage(m, al)[i].hash != Zero && SavedImage(m, al)[i].hash == SavedImage(m, al)[j].hash
              ==> i == j
  {
    var f, locs := SavedImage(m, al), ImageLocs(c, m, al);
    SavedMatches(c, m, al, lay, ct);
    assert NoDup(locs) by { ImageLocsMembers(c, m, al); }
    forall i, j | 0 <= i < |f| && 0 <= j < |f| && f[i].hash != Zero && f[i].hash == f[j].hash
      ensures i == j
    {
      var h := f[i].hash;
      assert locs[i] == lay.chains[Bucket(c, h)][lay.slot[h]] == locs[j];
    }
  }

  /**
   * A stored hash is written exactly when its count is nonzero or it sits in an overflow
   * record: primary slots are skipped when their count is zero, overflow records never are.
   */
  lemma SavedWhen(c: Config, m: Mem, al: Alloc, lay: Layout, ct: Store)
    requires Inv(c, m, al, lay, ct)
    ensures forall h :: h in ct ==>
              ((exists i :: 0 <= i < |SavedImage(m, al)| && SavedImage(m, al)[i].hash == h)
               <==> ct[h].count != 0 || lay.slot[h] > 0)
  {
    var f, locs := SavedImage(m, al), ImageLocs(c, m, al);
    SavedMatches(c, m, al, lay, ct);
    ImageAt(c, m, al);
    ImageLocsMembers(c, m, al);
    forall h | h in ct
      ensures (exists i :: 0 <= i < |f| && f[i].hash == h) <==> ct[h].count != 0 || lay.slot[h] > 0
    {
      var l := lay.chains[Bucket(c, h)][lay.slot[h]];
      if ct[h].count != 0 || lay.slot[h] > 0 {
        if lay.slot[h] == 0 {
          assert l == Primary(Bucket(c, h));
        } else {
          assert Used(c, al.currentAlloc, al.indexInCurrent, l);
        }
        assert l in locs;
        var i :| 0 <= i < |locs| && locs[i] == l;
        assert f[i].hash == h;
      }
      if i :| 0 <= i < |f| && f[i].hash == h {
        assert locs[i] == l;
        assert locs[i] in locs;
      }
    }
  }

  /**
   * What the saved file holds: each record with a nonzero hash carries the entry stored
   * under that hash, no nonzero hash is written twice, and a stored hash is written exactly
   * when its count is nonzero or it sits in an overflow record.
   */
  lemma SavedEntries(c: Config, m: Mem, al: Alloc, lay: Layout, ct: Store)
    requires Inv(c, m, al, lay, ct)
    ensures forall i :: 0 <= i < |SavedImage(m, al)| && SavedImage(m, al)[i].hash != Zero ==>
              SavedImage(m, al)[i].hash in ct
              && ct[SavedImage(m, al)[i].hash] == Entry(SavedImage(m, al)[i].pos, SavedImage(m, al)[i].count)
    ensures forall i, j :: 0 <= i < |SavedImage(m, al)| && 0 <= j < |SavedImage(m, al)|
              && SavedImage(m, al)[i].hash != Zero && SavedImage(m, al)[i].hash == SavedImage(m, al)[j].hash
              ==> i == j
    ensures forall h :: h in ct ==>
              ((exists i :: 0 <= i < |SavedImage(m, al)| && SavedImage(m, al)[i].hash == h)
               <==> ct[h].count != 0 || lay.slot[h] > 0)
  {
    SavedMatches(c, m, al, lay, ct);
    SavedDistinct(c, m, al, lay, ct);
    SavedWhen(c, m, al, lay, ct);
  }

  /**
   * A file describes a store when each record with a nonzero hash carries the stored entry of
   * that hash, no nonzero hash is written twice, and every stored hash with a nonzero count
   * is written.
   */
  ghost predicate Describes(file: seq<Record>, ct: Store)
  {
    && (forall i :: 0 <= i < |file| && file[i].hash != Zero ==>
          file[i].hash in ct && ct[file[i].hash] == Entry(file[i].pos, file[i].count))
    && (forall i, j :: 0 <= i < |file| && 0 <= j < |file| && file[i].hash != Zero && file[i].hash == file[j].hash
          ==> i == j)
    && (forall h :: h in ct && ct[h].count != 0 ==> exists i :: 0 <= i < |file| && file[i].hash == h)
  }

  /** The saved image of a valid table describes its contents. */
  lemma SavedDescribes(c: Config, m: Mem, al: Alloc, lay: Layout, ct: Store)
    requires Inv(c, m, al, lay, ct)
    ensures Describes(SavedImage(m, al), ct)
  {
    SavedEntries(c, m, al, lay, ct);
  }

  /** Every record of the file carries a nonzero hash, so each one is a stored entry. */
  ghost predicate NoEmptyRecords(file: seq<Record>)
  {
    forall i :: 0 <= i < |file| ==> file[i].hash != Zero
  }

  /**
   * A clean table writes no empty record: the primary slots it writes have a nonzero count,
   * and the overflow slots it writes have all been handed out.
   */
  lemma SavedClean(c: Config, m: Mem, al: Alloc)
    requires MemShape(c, m) && al.currentAlloc < c.maxExtraAllocs && al.indexInCurrent < c.extraAllocSize
    requires Clean(c, m, al)
    ensures NoEmptyRecords(SavedImage(m, al))
  {
    var f, locs := SavedImage(m, al), ImageLocs(c, m, al);
    ImageAt(c, m, al);
    ImageLocsMembers(c, m, al);
    forall i | 0 <= i < |f|
      ensures f[i].hash != Zero
    {
      assert locs[i] in locs;
    }
  }
}
