/**
 * The driver of `uniques.h`: `perft_unique` expands a position a number of plies and inserts
 * each leaf into the table with a propagated weight, and `findUniques` saves each depth to a
 * file, then reads it back and expands every saved position one more ply with its count.
 *
 * A file is the sequence of records written to it. The move generator and the Zobrist key
 * tables are parameters.
 */
module Uniques {
  import opened HashKey
  import opened Board
  import opened Zobrist
  import opened UniqueStore
  import opened TableState
  import opened Snapshot
  import opened UniqueTable

  /** `perft_unique`'s count, or the out-of-memory exit of `findPositionAndUpdateCounter`. */
  datatype PerftResult = Counted(uniques: uint64) | Exhausted

  /** Why the depth loop of `findUniques` stopped. */
  datatype Stop = FileTooBig | OutOfMemoryExit | PassesDone

  /** `tempAllocSize`: the most records one pass reads back from a file. */
  const TEMP_ALLOC_SIZE: nat := 10 * 1024 * 1024

  /** The position `makeMove` leaves after the `i`-th generated move of `pos`. */
  function Child(mg: MoveGenerator, pos: Position, i: nat): Position
    requires i < |mg.generateMoves(pos)|
  {
    mg.makeMove(pos, mg.generateMoves(pos)[i], pos.chance)
  }

  /**
   * The positions `perft_unique(pos, depth)` reaches at depth 0, in the order it reaches them:
   * one per move path of length `depth`.
   */
  function Leaves(mg: MoveGenerator, pos: Position, depth: nat): seq<Position>
    decreases depth, 1, 0
  {
    if depth == 0 then [pos] else ChildLeaves(mg, pos, |mg.generateMoves(pos)|, depth - 1)
  }

  /** The leaves below the first `n` children of `pos`, `depth` plies below each child. */
  function ChildLeaves(mg: MoveGenerator, pos: Position, n: nat, depth: nat): seq<Position>
    requires n <= |mg.generateMoves(pos)|
    decreases depth + 1, 0, n
  {
    if n == 0 then [] else ChildLeaves(mg, pos, n - 1, depth) + Leaves(mg, Child(mg, pos, n - 1), depth)
  }

  /** The number of move paths of length `depth` from `pos`, counted child by child. */
  function PathCount(mg: MoveGenerator, pos: Position, depth: nat): nat
    decreases depth, 1, 0
  {
    if depth == 0 then 1 else ChildPaths(mg, pos, |mg.generateMoves(pos)|, depth - 1)
  }

  function ChildPaths(mg: MoveGenerator, pos: Position, n: nat, depth: nat): nat
    requires n <= |mg.generateMoves(pos)|
    decreases depth + 1, 0, n
  {
    if n == 0 then 0 else ChildPaths(mg, pos, n - 1, depth) + PathCount(mg, Child(mg, pos, n - 1), depth)
  }

  /** `perft_unique` reaches one leaf per move path. */
  lemma {:induction false} LeavesCount(mg: MoveGenerator, pos: Position, depth: nat)
    ensures |Leaves(mg, pos, depth)| == PathCount(mg, pos, depth)
    decreases depth, 1, 0
  {
    if depth > 0 {
      ChildLeavesCount(mg, pos, |mg.generateMoves(pos)|, depth - 1);
    }
  }

  lemma {:induction false} ChildLeavesCount(mg: MoveGenerator, pos: Position, n: nat, depth: nat)
    requires n <= |mg.generateMoves(pos)|
    ensures |ChildLeaves(mg, pos, n, depth)| == ChildPaths(mg, pos, n, depth)
    decreases depth + 1, 0, n
  {
    if n > 0 {
      ChildLeavesCount(mg, pos, n - 1, depth);
      LeavesCount(mg, Child(mg, pos, n - 1), depth);
    }
  }

  /** Each position of `s` with its Zobrist key, the order kept. */
  ghost function Keyed(z: Keys, s: seq<Position>): (r: seq<(Key128, Position)>)
    ensures |r| == |s|
    ensures forall i :: 0 <= i < |s| ==> r[i] == (ZobristHash(z, s[i]), s[i])
  {
    seq(|s|, i requires 0 <= i < |s| => (ZobristHash(z, s[i]), s[i]))
  }

  lemma KeyedAppend(z: Keys, a: seq<Position>, b: seq<Position>)
    ensures Keyed(z, a + b) == Keyed(z, a) + Keyed(z, b)
  {
  }

  /** The table contents after inserting each position of `s`, in order, with `partialCount`. */
  ghost function InsertAll(m: Store, z: Keys, s: seq<Position>, partialCount: uint32): Store
  {
    InsertEach(m, Keyed(z, s), partialCount)
  }

  /** No position of `s` has the zero Zobrist key. */
  ghost predicate ZeroFree(z: Keys, s: seq<Position>)
  {
    forall p :: p in s ==> ZobristHash(z, p) != Zero
  }

  /** Every leaf below child `i` is among the leaves below the first `n` children, for `i < n`. */
  lemma {:induction false} ChildLeavesHas(mg: MoveGenerator, pos: Position, n: nat, i: nat, depth: nat)
    requires i < n <= |mg.generateMoves(pos)|
    ensures forall p :: p in Leaves(mg, Child(mg, pos, i), depth) ==> p in ChildLeaves(mg, pos, n, depth)
    decreases n
  {
    if i < n - 1 {
      ChildLeavesHas(mg, pos, n - 1, i, depth);
    }
  }

  /** `uniques` is the number of records created, `after - before`, as a `uint64` holds it. */
  predicate Created(uniques: int, before: int, after: int)
  {
    uniques == (after - before) % TWO_TO_THE_64
  }

  /**
   * Expanding `pos` to `depth` adds `partialCount` to the total count of the table once per
   * move path, modulo 2^64, when no leaf has the zero key (a leaf with the zero key adds its
   * count to an empty record that the contents do not track).
   */
  lemma PerftWeight(m: Store, z: Keys, mg: MoveGenerator, pos: Position, depth: nat, partialCount: uint32)
    requires forall p :: p in Leaves(mg, pos, depth) ==> ZobristHash(z, p) != Zero
    ensures Weight(InsertAll(m, z, Leaves(mg, pos, depth), partialCount)) % TWO_TO_THE_64
            == (Weight(m) + partialCount * PathCount(mg, pos, depth)) % TWO_TO_THE_64
  {
    InsertAllWeight(m, z, Leaves(mg, pos, depth), partialCount);
    LeavesCount(mg, pos, depth);
  }

  /** Inserting positions none of which has the zero key adds `partialCount` per position. */
  lemma InsertAllWeight(m: Store, z: Keys, s: seq<Position>, partialCount: uint32)
    requires forall p :: p in s ==> ZobristHash(z, p) != Zero
    ensures Weight(InsertAll(m, z, s, partialCount)) % TWO_TO_THE_64
            == (Weight(m) + partialCount * |s|) % TWO_TO_THE_64
  {
    KeyedNonZero(z, s);
    InsertEachWeight(m, Keyed(z, s), partialCount);
  }

  /** When no position of `s` has the zero key, each of them counts. */
  lemma KeyedNonZero(z: Keys, s: seq<Position>)
    requires forall p :: p in s ==> ZobristHash(z, p) != Zero
    ensures NonZeroCount(Keyed(z, s)) == |s|
  {
    var items := Keyed(z, s);
    forall i | 0 <= i < |items| ensures items[i].0 != Zero {
      assert s[i] in s;
    }
    NonZeroAll(items);
  }

  /**
   * From an empty table, `perft_unique` counts the distinct nonzero Zobrist keys of the leaves,
   * modulo 2^64.
   */
  lemma PerftFromEmpty(z: Keys, mg: MoveGenerator, pos: Position, depth: nat, partialCount: uint32, uniques: uint64)
    requires Created(uniques, 0, |InsertAll(map[], z, Leaves(mg, pos, depth), partialCount)|)
    ensures uniques == |HashesOf(Keyed(z, Leaves(mg, pos, depth)))| % TWO_TO_THE_64
  {
    UniquesOfEmpty(Keyed(z, Leaves(mg, pos, depth)), partialCount);
  }

  /** Expanding child `i` after the first `i` children gives the first `i + 1` children. */
  lemma ChildStep(m: Store, z: Keys, mg: MoveGenerator, pos: Position, i: nat, depth: nat, partialCount: uint32)
    requires i < |mg.generateMoves(pos)|
    ensures InsertAll(InsertAll(m, z, ChildLeaves(mg, pos, i, depth), partialCount), z,
                      Leaves(mg, Child(mg, pos, i), depth), partialCount)
            == InsertAll(m, z, ChildLeaves(mg, pos, i + 1, depth), partialCount)
  {
    var done, next := ChildLeaves(mg, pos, i, depth), Leaves(mg, Child(mg, pos, i), depth);
    KeyedAppend(z, done, next);
    InsertEachAppend(m, Keyed(z, done), Keyed(z, next), partialCount);
  }

  /** The `uint64` running sum: adding the count of one child keeps it the growth so far, modulo 2^64. */
  lemma CountStep(start: int, before: int, after: int, sum: uint64, c: uint64)
    requires Created(sum, start, before) && Created(c, before, after)
    ensures Created(Add64(sum, c), start, after)
  {
    Add64Mod(sum, c);
    ModAdd(before - start, after - before);
    ModAdd(after - before, sum);
  }

  /** Inserting the single leaf `pos` is one insertion under its Zobrist key. */
  lemma LeafInsert(m: Store, z: Keys, pos: Position, partialCount: uint32)
    ensures InsertAll(m, z, [pos], partialCount) == Insert(m, ZobristHash(z, pos), pos, partialCount).0
  {
    var items := Keyed(z, [pos]);
    assert InsertAll(m, z, [pos], partialCount) == InsertEach(m, items, partialCount);
    assert |items| == 1 && items[..0] == [] && items[0] == (ZobristHash(z, pos), pos);
    assert InsertEach(m, items[..0], partialCount) == m;
  }

  /** A count of 0 or 1 is its own remainder modulo 2^64. */
  lemma CountSmall(u: int, before: int, after: int)
    requires u == after - before && 0 <= u < TWO_TO_THE_64
    ensures Created(u, before, after)
  {
  }

  /**
   * `perft_unique` at depth 0: the position is looked up by its Zobrist key and inserted with
   * `partialCount`; the result is 1 if it was new and 0 otherwise.
   */
  method PerftLeaf(t: Table, z: Keys, pos: Position, partialCount: uint32) returns (r: PerftResult)
    requires t.Valid()
    modifies t, t.hashTable, t.additionalAllocs
    ensures t.Valid()
    ensures r.Counted? ==>
              t.Contents == InsertAll(old(t.Contents), z, [pos], partialCount)
              && r.uniques == |t.Contents| - |old(t.Contents)|
              && (r.uniques == 0 <==> ZobristHash(z, pos) == Zero || ZobristHash(z, pos) in old(t.Contents))
    ensures r.Exhausted? ==> t.Contents == old(t.Contents) && t.ArenaFull()
    ensures r.Counted? && ZobristHash(z, pos) != Zero && old(t.Clean()) ==> t.Clean()
  {
    var hash := ComputeZobristKey128b(z, pos);
    var found;
    ghost var at;
    found, at := t.FindPositionAndUpdateCounter(pos, hash, partialCount);
    if found == OutOfMemory {
      return Exhausted;
    }
    InsertSize(old(t.Contents), hash, pos, partialCount);
    LeafInsert(old(t.Contents), z, pos, partialCount);
    return Counted(if found == Found then 0 else 1);
  }

  /**
   * `perft_unique`: at depth 0 the position is inserted as by `PerftLeaf`; at a greater depth
   * its children are expanded as by `PerftChildren`. The table ends up as if every leaf had
   * been inserted in order, and the result is the number of records created, modulo 2^64.
   */
  method PerftUnique(t: Table, mg: MoveGenerator, z: Keys, pos: Position, depth: nat, partialCount: uint32)
    returns (r: PerftResult)
    requires t.Valid()
    modifies t, t.hashTable, t.additionalAllocs
    ensures t.Valid()
    ensures r.Counted? ==>
              t.Contents == InsertAll(old(t.Contents), z, Leaves(mg, pos, depth), partialCount)
              && Created(r.uniques, |old(t.Contents)|, |t.Contents|)
    ensures r.Exhausted? ==> old(t.Contents).Keys <= t.Contents.Keys && t.ArenaFull()
    ensures r.Counted? && ZeroFree(z, Leaves(mg, pos, depth)) && old(t.Clean()) ==> t.Clean()
    decreases depth, 2
  {
    if depth == 0 {
      r := PerftLeaf(t, z, pos, partialCount);
      assert Leaves(mg, pos, depth) == [pos] && pos in Leaves(mg, pos, depth);
      if r.Counted? {
        CountSmall(r.uniques, |old(t.Contents)|, |t.Contents|);
      }
    } else {
      var childDepth := depth - 1;
      r := PerftChildren(t, mg, z, pos, childDepth, partialCount);
      assert Leaves(mg, pos, depth) == ChildLeaves(mg, pos, |mg.generateMoves(pos)|, childDepth);
    }
  }

  /**
   * The loop of `perft_unique` at a depth above 0: each child is expanded `depth` further
   * plies with the same `partialCount`, and the results are summed in a `uint64`.
   */
  method PerftChildren(t: Table, mg: MoveGenerator, z: Keys, pos: Position, depth: nat, partialCount: uint32)
    returns (r: PerftResult)
    requires t.Valid()
    modifies t, t.hashTable, t.additionalAllocs
    ensures t.Valid()
    ensures r.Counted? ==>
              t.Contents == InsertAll(old(t.Contents), z, ChildLeaves(mg, pos, |mg.generateMoves(pos)|, depth), partialCount)
              && Created(r.uniques, |old(t.Contents)|, |t.Contents|)
    ensures r.Exhausted? ==> old(t.Contents).Keys <= t.Contents.Keys && t.ArenaFull()
    ensures r.Counted? && ZeroFree(z, ChildLeaves(mg, pos, |mg.generateMoves(pos)|, depth)) && old(t.Clean()) ==> t.Clean()
    decreases depth + 1, 1
  {
    var moves := mg.generateMoves(pos);
    var uniqueCount: uint64 := 0;
    ghost var start, zeroFree, clean := t.Contents, ZeroFree(z, ChildLeaves(mg, pos, |moves|, depth)), t.Clean();
    for i := 0 to |moves|
      invariant t.Valid()
      invariant zeroFree && clean ==> t.Clean()
      invariant t.Contents == InsertAll(start, z, ChildLeaves(mg, pos, i, depth), partialCount)
      invariant Created(uniqueCount, |start|, |t.Contents|)
    {
      var c;
      c, uniqueCount := ExpandChild(t, mg, z, pos, i, depth, partialCount, start, uniqueCount, zeroFree);
      if c.Exhausted? {
        return Exhausted;
      }
    }
    return Counted(uniqueCount);
  }

  /**
   * The body of that loop: child `i`, the position `makeMove` leaves after the `i`-th move,
   * is expanded and its result added to `uniqueCount`.
   */
  method ExpandChild(t: Table, mg: MoveGenerator, z: Keys, pos: Position, i: nat, depth: nat, partialCount: uint32,
                     ghost start: Store, uniqueCount: uint64, ghost zeroFree: bool)
    returns (c: PerftResult, sum: uint64)
    requires t.Valid() && i < |mg.generateMoves(pos)|
    requires t.Contents == InsertAll(start, z, ChildLeaves(mg, pos, i, depth), partialCount)
    requires Created(uniqueCount, |start|, |t.Contents|)
    requires zeroFree ==> ZeroFree(z, ChildLeaves(mg, pos, |mg.generateMoves(pos)|, depth))
    modifies t, t.hashTable, t.additionalAllocs
    ensures t.Valid()
    ensures c.Counted? ==>
              t.Contents == InsertAll(start, z, ChildLeaves(mg, pos, i + 1, depth), partialCount)
              && Created(sum, |start|, |t.Contents|)
    ensures c.Exhausted? ==> start.Keys <= t.Contents.Keys && t.ArenaFull()
    ensures c.Counted? && zeroFree && old(t.Clean()) ==> t.Clean()
    decreases depth + 1, 0
  {
    var childPos := mg.makeMove(pos, mg.generateMoves(pos)[i], pos.chance);
    ChildLeavesHas(mg, pos, |mg.generateMoves(pos)|, i, depth);
    c := PerftUnique(t, mg, z, childPos, depth, partialCount);
    if c.Exhausted? {
      assert start.Keys <= t.Contents.Keys by {
        InsertEachGrows(start, Keyed(z, ChildLeaves(mg, pos, i, depth)), partialCount);
      }
      return c, uniqueCount;
    }
    sum := Add64(uniqueCount, c.uniques);
    assert t.Contents == InsertAll(start, z, ChildLeaves(mg, pos, i + 1, depth), partialCount) by {
      ChildStep(start, z, mg, pos, i, depth, partialCount);
    }
    assert Created(sum, |start|, |t.Contents|) by {
      CountStep(|start|, |old(t.Contents)|, |t.Contents|, uniqueCount, c.uniques);
    }
  }

  /** The `partialCount` a saved record is expanded with: its 64-bit count cut to 32 bits. */
  function PassCount(rec: Record): (r: uint32)
    ensures rec.count < TWO_TO_THE_32 ==> r == rec.count
  {
    rec.count % TWO_TO_THE_32
  }

  /** The contents after expanding each record of `records` one ply, in order, from `m`. */
  ghost function Expand(m: Store, z: Keys, mg: MoveGenerator, records: seq<Record>): Store
    decreases |records|
  {
    if records == [] then m
    else
      var last := records[|records| - 1];
      InsertAll(Expand(m, z, mg, records[..|records| - 1]), z, Leaves(mg, last.pos, 1), PassCount(last))
  }

  /** A pass never removes a key. */
  lemma {:induction false} ExpandGrows(m: Store, z: Keys, mg: MoveGenerator, records: seq<Record>)
    ensures m.Keys <= Expand(m, z, mg, records).Keys
    decreases |records|
  {
    if records != [] {
      var last := records[|records| - 1];
      var before := Expand(m, z, mg, records[..|records| - 1]);
      ExpandGrows(m, z, mg, records[..|records| - 1]);
      InsertEachGrows(before, Keyed(z, Leaves(mg, last.pos, 1)), PassCount(last));
    }
  }

  /** Expanding one more record is inserting that record's children. */
  lemma ExpandStep(m: Store, z: Keys, mg: MoveGenerator, records: seq<Record>, i: nat)
    requires i < |records|
    ensures Expand(m, z, mg, records[..i + 1])
            == InsertAll(Expand(m, z, mg, records[..i]), z, Leaves(mg, records[i].pos, 1), PassCount(records[i]))
  {
    assert records[..i + 1][..i] == records[..i];
  }

  /** No child of a record of `records` has the zero Zobrist key. */
  ghost predicate ExpandZeroFree(z: Keys, mg: MoveGenerator, records: seq<Record>)
  {
    forall r :: r in records ==> ZeroFree(z, Leaves(mg, r.pos, 1))
  }

  /**
   * The inner loop of `findUniques`: each record read back is expanded one ply with its count
   * as the propagated weight. `ok` is false when the table ran out of memory.
   */
  method ExpandRecords(t: Table, mg: MoveGenerator, z: Keys, records: seq<Record>) returns (ok: bool)
    requires t.Valid()
    modifies t, t.hashTable, t.additionalAllocs
    ensures t.Valid()
    ensures ok ==> t.Contents == Expand(old(t.Contents), z, mg, records)
    ensures !ok ==> old(t.Contents).Keys <= t.Contents.Keys && t.ArenaFull()
    ensures ok && ExpandZeroFree(z, mg, records) && old(t.Clean()) ==> t.Clean()
  {
    ghost var start, clean := t.Contents, ExpandZeroFree(z, mg, records) && t.Clean();
    for i := 0 to |records|
      invariant t.Valid()
      invariant clean ==> t.Clean()
      invariant t.Contents == Expand(start, z, mg, records[..i])
    {
      ok := ExpandRecord(t, mg, z, records, i, start);
      if !ok {
        return;
      }
    }
    assert records[..|records|] == records;
    ok := true;
  }

  /** The body of that loop, for record `i`. */
  method ExpandRecord(t: Table, mg: MoveGenerator, z: Keys, records: seq<Record>, i: nat, ghost start: Store)
    returns (ok: bool)
    requires t.Valid() && i < |records|
    requires t.Contents == Expand(start, z, mg, records[..i])
    modifies t, t.hashTable, t.additionalAllocs
    ensures t.Valid()
    ensures ok ==> t.Contents == Expand(start, z, mg, records[..i + 1])
    ensures !ok ==> start.Keys <= t.Contents.Keys && t.ArenaFull()
    ensures ok && ExpandZeroFree(z, mg, records) && old(t.Clean()) ==> t.Clean()
  {
    assert records[i] in records;
    var r := PerftUnique(t, mg, z, records[i].pos, 1, PassCount(records[i]));
    ok := r.Counted?;
    if ok {
      assert t.Contents == Expand(start, z, mg, records[..i + 1]) by {
        ExpandStep(start, z, mg, records, i);
      }
    } else {
      assert start.Keys <= t.Contents.Keys by {
        ExpandGrows(start, z, mg, records[..i]);
      }
    }
  }

  /**
   * The files of `findUniques` are those of the depths `first` to `last`, and the file of each
   * depth after `first` describes the expansion, one ply, of the whole file before it, which
   * was read back in one go.
   */
  ghost predicate Chained(z: Keys, mg: MoveGenerator, files: map<int, seq<Record>>, first: int, last: int) {
    && (forall d :: d in files <==> first <= d <= last)
    && (forall d :: d in files && d != first ==> d - 1 in files && Follows(z, mg, files[d], files[d - 1]))
  }

  /**
   * `file` is what a pass saves after reading `prev` back whole: the expansion, one ply, of
   * every record of `prev`, with no empty record among them when no child has the zero key.
   */
  ghost predicate Follows(z: Keys, mg: MoveGenerator, file: seq<Record>, prev: seq<Record>) {
    && |prev| < TEMP_ALLOC_SIZE && Describes(file, Expand(map[], z, mg, prev))
    && (ExpandZeroFree(z, mg, prev) ==> NoEmptyRecords(file))
  }

  /** Saving the expansion of the last file extends the chain by one depth. */
  lemma ChainedExtend(z: Keys, mg: MoveGenerator, files: map<int, seq<Record>>, first: int, last: int, next: seq<Record>)
    requires Chained(z, mg, files, first, last) && first <= last
    requires Follows(z, mg, next, files[last])
    ensures Chained(z, mg, files[last + 1 := next], first, last + 1)
    ensures files[last + 1 := next][first] == files[first]
  {
    var extended := files[last + 1 := next];
    forall d | d in extended && d != first
      ensures d - 1 in extended && Follows(z, mg, extended[d], extended[d - 1])
    {
      if d == last + 1 {
        assert extended[d] == next && extended[d - 1] == files[last];
      } else {
        assert d in files && d - 1 in files && Follows(z, mg, files[d], files[d - 1]);
        assert extended[d] == files[d] && extended[d - 1] == files[d - 1];
      }
    }
  }

  /**
   * One pass of the depth loop of `findUniques`: at most `TEMP_ALLOC_SIZE` records of the
   * previous file are read back and expanded one ply; if the file was read whole, the table
   * is saved as `next` and emptied (`halt` is `None`), and otherwise the loop stops.
   */
  method Pass(t: Table, mg: MoveGenerator, z: Keys, prev: seq<Record>) returns (halt: Option<Stop>, next: seq<Record>)
    requires t.Valid() && t.Contents == map[]
    modifies t, t.hashTable, t.additionalAllocs
    ensures t.Valid()
    ensures halt.None? ==>
              && |prev| < TEMP_ALLOC_SIZE
              && Describes(next, Expand(map[], z, mg, prev))
              && t.Contents == map[]
    ensures halt == Some(FileTooBig) ==>
              && |prev| >= TEMP_ALLOC_SIZE
              && t.Contents == Expand(map[], z, mg, prev[..TEMP_ALLOC_SIZE])
    ensures halt.Some? ==> halt.value != PassesDone
    ensures halt == Some(OutOfMemoryExit) ==> t.ArenaFull()
    ensures halt.None? ==> t.Clean()
    ensures halt.None? && ExpandZeroFree(z, mg, prev) && old(t.Clean()) ==> NoEmptyRecords(next)
  {
    var read := if |prev| < TEMP_ALLOC_SIZE then |prev| else TEMP_ALLOC_SIZE;
    var ok := ExpandRecords(t, mg, z, prev[..read]);
    if !ok {
      return Some(OutOfMemoryExit), [];
    }
    if read < TEMP_ALLOC_SIZE {
      assert prev[..read] == prev;
      var recordsWritten;
      next, recordsWritten := t.SaveUniquesToFile();
      halt := None;
    } else {
      halt := Some(FileTooBig);
      next := [];
    }
  }

  /** The first file of `findUniques`, alone, is a chain. */
  lemma ChainedStart(z: Keys, mg: MoveGenerator, file: seq<Record>, first: int)
    ensures Chained(z, mg, map[first := file], first, first)
  {
  }

  /**
   * The first part of `findUniques`: `perft_unique` from the start position with weight 1,
   * then the table saved as the file of `depth`.
   */
  method FirstFile(t: Table, mg: MoveGenerator, z: Keys, start: Position, depth: nat)
    returns (count: PerftResult, file: seq<Record>)
    requires t.Valid() && t.Contents == map[]
    modifies t, t.hashTable, t.additionalAllocs
    ensures t.Valid()
    ensures count.Counted? ==>
              && Created(count.uniques, 0, |InsertAll(map[], z, Leaves(mg, start, depth), 1)|)
              && Describes(file, InsertAll(map[], z, Leaves(mg, start, depth), 1))
              && t.Contents == map[]
    ensures count.Exhausted? ==> t.ArenaFull()
    ensures count.Counted? ==> t.Clean()
    ensures count.Counted? && ZeroFree(z, Leaves(mg, start, depth)) && old(t.Clean()) ==> NoEmptyRecords(file)
  {
    count := PerftUnique(t, mg, z, start, depth, 1);
    if count.Exhausted? {
      return count, [];
    }
    var recordsWritten;
    file, recordsWritten := t.SaveUniquesToFile();
  }

  /**
   * One pass of the depth loop on the chain of files `first` to `last`: when the last file is
   * read whole and its expansion saved, the chain grows by that file.
   */
  method Advance(t: Table, mg: MoveGenerator, z: Keys, files: map<int, seq<Record>>, first: int, last: int)
    returns (halt: Option<Stop>, files': map<int, seq<Record>>, last': int)
    requires t.Valid() && t.Contents == map[] && t.Clean()
    requires Chained(z, mg, files, first, last) && first <= last
    modifies t, t.hashTable, t.additionalAllocs
    ensures t.Valid()
    ensures halt.None? ==> t.Clean()
    ensures Chained(z, mg, files', first, last') && last <= last' && files'[first] == files[first]
    ensures halt.None? ==> last' == last + 1 && t.Contents == map[]
    ensures halt.Some? ==> last' == last && files' == files && halt.value != PassesDone
    ensures halt == Some(OutOfMemoryExit) ==> t.ArenaFull()
    ensures halt == Some(FileTooBig) ==>
              && |files[last]| >= TEMP_ALLOC_SIZE
              && t.Contents == Expand(map[], z, mg, files[last][..TEMP_ALLOC_SIZE])
  {
    var next;
    halt, next := Pass(t, mg, z, files[last]);
    if halt.Some? {
      return halt, files, last;
    }
    ChainedExtend(z, mg, files, first, last, next);
    files', last' := files[last + 1 := next], last + 1;
  }

  /**
   * The depth loop of `findUniques`, run for at most `passes` passes from the chain of files
   * `first` to `last0`, with the table empty.
   */
  method DepthLoop(t: Table, mg: MoveGenerator, z: Keys, files0: map<int, seq<Record>>,
                   first: int, last0: int, passes: nat)
    returns (files: map<int, seq<Record>>, stop: Stop, last: int)
    requires t.Valid() && t.Contents == map[] && t.Clean()
    requires Chained(z, mg, files0, first, last0) && first <= last0
    modifies t, t.hashTable, t.additionalAllocs
    ensures t.Valid()
    ensures Chained(z, mg, files, first, last) && last0 <= last
    ensures files[first] == files0[first]
    ensures stop == FileTooBig ==>
              && |files[last]| >= TEMP_ALLOC_SIZE
              && t.Contents == Expand(map[], z, mg, files[last][..TEMP_ALLOC_SIZE])
    ensures stop == PassesDone ==> last == last0 + passes && t.Contents == map[]
    ensures stop == OutOfMemoryExit ==> t.ArenaFull()
  {
    files, last := files0, last0;
    var fuel := passes;
    while fuel > 0
      invariant t.Valid() && t.Contents == map[] && t.Clean()
      invariant Chained(z, mg, files, first, last) && last0 <= last
      invariant files[first] == files0[first]
      invariant last - last0 + fuel == passes
      decreases fuel
    {
      var halt;
      halt, files, last := Advance(t, mg, z, files, first, last);
      if halt.Some? {
        return files, halt.value, last;
      }
      fuel := fuel - 1;
    }
    stop := PassesDone;
  }

  /**
   * `findUniques`: the start position is expanded `depth` plies with weight 1 and the table
   * saved as the file of `depth`; then, pass after pass, the last file is read back (at most
   * `TEMP_ALLOC_SIZE` records), each record expanded one more ply with its count, and the
   * table saved as the file of the next depth. The loop stops when a file holds too many
   * records to read in one go, when the table runs out of memory, or after `passes` passes.
   * `count` is the number of unique positions at `depth`, and `lastDepth` the deepest file.
   */
  method FindUniques(t: Table, mg: MoveGenerator, z: Keys, start: Position, depth: nat, passes: nat)
    returns (count: PerftResult, files: map<int, seq<Record>>, stop: Stop, lastDepth: int)
    requires t.Valid() && t.Contents == map[]
    modifies t, t.hashTable, t.additionalAllocs
    ensures t.Valid()
    ensures count.Exhausted? ==> stop == OutOfMemoryExit && files == map[]
    ensures count.Counted? ==>
              && Created(count.uniques, 0, |InsertAll(map[], z, Leaves(mg, start, depth), 1)|)
              && depth in files
              && Describes(files[depth], InsertAll(map[], z, Leaves(mg, start, depth), 1))
    ensures count.Counted? && ZeroFree(z, Leaves(mg, start, depth)) && old(t.Clean()) ==> NoEmptyRecords(files[depth])
    ensures Chained(z, mg, files, depth, lastDepth)
    ensures stop == FileTooBig ==>
              && lastDepth in files
              && |files[lastDepth]| >= TEMP_ALLOC_SIZE
              && t.Contents == Expand(map[], z, mg, files[lastDepth][..TEMP_ALLOC_SIZE])
    ensures stop == PassesDone ==> lastDepth == depth + passes && t.Contents == map[]
    ensures stop == OutOfMemoryExit ==> t.ArenaFull()
  {
    var file;
    count, file := FirstFile(t, mg, z, start, depth);
    if count.Exhausted? {
      return count, map[], OutOfMemoryExit, depth - 1;
    }
    ChainedStart(z, mg, file, depth);
    files, stop, lastDepth := DepthLoop(t, mg, z, map[depth := file], depth, depth, passes);
  }
}
