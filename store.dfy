/**
 * The abstract content of the unique-position table: a map from each stored nonzero hash to
 * the position first inserted under it and its occurrence count, and what one insertion into
 * `findPositionAndUpdateCounter` does to it.
 */
module UniqueStore {
  import opened HashKey
  import opened Board

  const TWO_TO_THE_32: nat := 0x1_0000_0000
  const TWO_TO_THE_64: nat := 0x1_0000_0000_0000_0000

  type uint32 = x: int | 0 <= x < TWO_TO_THE_32
  type uint64 = x: int | 0 <= x < TWO_TO_THE_64

  /** What the table remembers about one hash: the first position and the occurrence count. */
  datatype Entry = Entry(pos: Position, count: uint64)

  type Store = map<Key128, Entry>

  /** `count += partialCount` on a `uint64` count: wraps around modulo 2^64. */
  function AddCount(count: uint64, partialCount: uint32): (r: uint64)
    ensures count + partialCount < TWO_TO_THE_64 ==> r == count + partialCount
    ensures count + partialCount >= TWO_TO_THE_64 ==> r == count + partialCount - TWO_TO_THE_64
  {
    (count + partialCount) % TWO_TO_THE_64
  }

  /**
   * One insertion: the zero hash is the empty-slot sentinel and is always "found" without
   * being stored; a stored hash has its count increased; a new hash is stored with the
   * position and `partialCount`. The flag is the value `findPositionAndUpdateCounter` returns.
   */
  function Insert(m: Store, h: Key128, pos: Position, partialCount: uint32): (r: (Store, bool))
    ensures r.1 <==> h == Zero || h in m
    ensures r.0.Keys == if h == Zero then m.Keys else m.Keys + {h}
  {
    if h == Zero then (m, true)
    else if h in m then (m[h := m[h].(count := AddCount(m[h].count, partialCount))], true)
    else (m[h := Entry(pos, partialCount)], false)
  }

  /** A new hash adds one key and "found" adds none, so the "not found" results count the distinct hashes. */
  lemma InsertSize(m: Store, h: Key128, pos: Position, partialCount: uint32)
    ensures |Insert(m, h, pos, partialCount).0| == if Insert(m, h, pos, partialCount).1 then |m| else |m| + 1
  {
    var r := Insert(m, h, pos, partialCount);
    if !r.1 {
      assert r.0.Keys == m.Keys + {h};
    }
  }

  /**
   * Only the entry of the inserted hash changes: a stored hash keeps its first position
   * and gains `partialCount`; a new one gets the position and `partialCount`.
   */
  lemma InsertEntries(m: Store, h: Key128, pos: Position, partialCount: uint32)
    ensures forall k :: k in m && k != h ==> Insert(m, h, pos, partialCount).0[k] == m[k]
    ensures h != Zero && h in m ==>
              Insert(m, h, pos, partialCount).0[h] == Entry(m[h].pos, AddCount(m[h].count, partialCount))
    ensures h != Zero && h !in m ==> Insert(m, h, pos, partialCount).0[h] == Entry(pos, partialCount)
  {
  }

  /** The sum of the occurrence counts of a store. */
  ghost function Weight(m: Store): nat
    decreases |m|
  {
    if m == map[] then 0
    else
      var k :| k in m;
      Weight(m - {k}) + m[k].count
  }

  /** Any key can be taken out first: the sum does not depend on the order. */
  lemma {:induction false} WeightRemove(m: Store, k: Key128)
    requires k in m
    ensures Weight(m) == Weight(m - {k}) + m[k].count
    decreases |m|
  {
    var j :| j in m && Weight(m) == Weight(m - {j}) + m[j].count;
    if j != k {
      WeightRemove(m - {j}, k);
      WeightRemove(m - {k}, j);
      assert m - {j} - {k} == m - {k} - {j};
    }
  }

  /** Taking off one modulus does not change the remainder. */
  lemma ModMinus(x: int, y: int)
    requires y == x || (x >= TWO_TO_THE_64 && y == x - TWO_TO_THE_64)
    ensures y % TWO_TO_THE_64 == x % TWO_TO_THE_64
  {
  }

  /** Adding to the count of a stored hash adds to the total, modulo 2^64. */
  lemma WeightUpdate(m: Store, h: Key128, e: Entry)
    requires h in m
    ensures e.count >= m[h].count ==> Weight(m[h := e]) == Weight(m) + (e.count - m[h].count)
    ensures Weight(m[h := e]) + m[h].count == Weight(m) + e.count
  {
    WeightRemove(m[h := e], h);
    WeightRemove(m, h);
    assert m[h := e] - {h} == m - {h};
  }

  /** Storing a new hash adds its count to the total. */
  lemma WeightAdd(m: Store, h: Key128, e: Entry)
    requires h !in m
    ensures Weight(m[h := e]) == Weight(m) + e.count
  {
    WeightRemove(m[h := e], h);
    assert m[h := e] - {h} == m;
  }

  /** Each insertion of a nonzero hash adds `partialCount` to the total count, modulo 2^64. */
  lemma WeightInsert(m: Store, h: Key128, pos: Position, partialCount: uint32)
    requires h != Zero
    ensures Weight(Insert(m, h, pos, partialCount).0) % TWO_TO_THE_64 == (Weight(m) + partialCount) % TWO_TO_THE_64
  {
    if h in m {
      var e := m[h].(count := AddCount(m[h].count, partialCount));
      assert Insert(m, h, pos, partialCount).0 == m[h := e];
      WeightUpdate(m, h, e);
      assert Weight(m[h := e]) == Weight(m) + partialCount || Weight(m[h := e]) == Weight(m) + partialCount - TWO_TO_THE_64;
      ModMinus(Weight(m) + partialCount, Weight(m[h := e]));
    } else {
      assert Insert(m, h, pos, partialCount).0 == m[h := Entry(pos, partialCount)];
      WeightAdd(m, h, Entry(pos, partialCount));
    }
  }

  /** The store after inserting each (hash, position) pair of `items`, in order, with `partialCount`. */
  function InsertEach(m: Store, items: seq<(Key128, Position)>, partialCount: uint32): Store
  {
    if |items| == 0 then m
    else Insert(InsertEach(m, items[..|items| - 1], partialCount), items[|items| - 1].0, items[|items| - 1].1, partialCount).0
  }

  /** The distinct nonzero hashes among `items`. */
  function HashesOf(items: seq<(Key128, Position)>): set<Key128>
  {
    set i | 0 <= i < |items| && items[i].0 != Zero :: items[i].0
  }

  /** The number of `items` whose hash is nonzero, repeats included. */
  function NonZeroCount(items: seq<(Key128, Position)>): nat
  {
    if |items| == 0 then 0
    else NonZeroCount(items[..|items| - 1]) + (if items[|items| - 1].0 != Zero then 1 else 0)
  }

  /** When no item has the zero hash, every item counts. */
  lemma {:induction false} NonZeroAll(items: seq<(Key128, Position)>)
    requires forall i :: 0 <= i < |items| ==> items[i].0 != Zero
    ensures NonZeroCount(items) == |items|
  {
    if |items| > 0 {
      NonZeroAll(items[..|items| - 1]);
    }
  }

  /** Inserting `a` and then `b` is inserting `a + b`. */
  lemma {:induction false} InsertEachAppend(m: Store, a: seq<(Key128, Position)>, b: seq<(Key128, Position)>, partialCount: uint32)
    ensures InsertEach(InsertEach(m, a, partialCount), b, partialCount) == InsertEach(m, a + b, partialCount)
    decreases |b|
  {
    if |b| == 0 {
      assert a + b == a;
    } else {
      InsertEachAppend(m, a, b[..|b| - 1], partialCount);
      assert (a + b)[..|a + b| - 1] == a + b[..|b| - 1];
    }
  }

  /** Afterwards the store holds the hashes it held and the nonzero hashes inserted, and no others. */
  lemma {:induction false} InsertEachKeys(m: Store, items: seq<(Key128, Position)>, partialCount: uint32)
    ensures InsertEach(m, items, partialCount).Keys == m.Keys + HashesOf(items)
  {
    if |items| > 0 {
      var rest, last := items[..|items| - 1], items[|items| - 1];
      InsertEachKeys(m, rest, partialCount);
      assert HashesOf(items) == HashesOf(rest) + (if last.0 != Zero then {last.0} else {}) by {
        forall h | h in HashesOf(items) ensures h in HashesOf(rest) || (last.0 != Zero && h == last.0) {
          var i :| 0 <= i < |items| && items[i].0 != Zero && items[i].0 == h;
          if i < |rest| {
            assert rest[i] == items[i];
          }
        }
        forall h | h in HashesOf(rest) ensures h in HashesOf(items) {
          var i :| 0 <= i < |rest| && rest[i].0 != Zero && rest[i].0 == h;
          assert items[i] == rest[i];
        }
        if last.0 != Zero {
          assert items[|items| - 1].0 in HashesOf(items);
        }
      }
    }
  }

  lemma SubsetCard<T>(a: set<T>, b: set<T>)
    requires a <= b
    ensures |a| <= |b|
  {
    assert b == a + (b - a);
  }

  /** The store never shrinks under insertion. */
  lemma InsertEachGrows(m: Store, items: seq<(Key128, Position)>, partialCount: uint32)
    ensures m.Keys <= InsertEach(m, items, partialCount).Keys
    ensures |m| <= |InsertEach(m, items, partialCount)|
  {
    InsertEachKeys(m, items, partialCount);
    var r := InsertEach(m, items, partialCount);
    SubsetCard(m.Keys, r.Keys);
  }

  /**
   * Starting from an empty store, the number of entries is the number of distinct nonzero
   * hashes inserted.
   */
  lemma UniquesOfEmpty(items: seq<(Key128, Position)>, partialCount: uint32)
    ensures |InsertEach(map[], items, partialCount)| == |HashesOf(items)|
  {
    InsertEachKeys(map[], items, partialCount);
    assert InsertEach(map[], items, partialCount).Keys == HashesOf(items);
  }

  /** `(a mod 2^64 + b) mod 2^64 == (a + b) mod 2^64`. */
  lemma ModAdd(a: int, b: int)
    ensures (a % TWO_TO_THE_64 + b) % TWO_TO_THE_64 == (a + b) % TWO_TO_THE_64
  {
    var q := a / TWO_TO_THE_64;
    assert a == q * TWO_TO_THE_64 + a % TWO_TO_THE_64;
    ModShift(a % TWO_TO_THE_64 + b, q);
  }

  /** Adding a multiple of 2^64 does not change the remainder. */
  lemma ModShift(x: int, q: int)
    ensures (x + q * TWO_TO_THE_64) % TWO_TO_THE_64 == x % TWO_TO_THE_64
  {
    var r := x % TWO_TO_THE_64;
    var d := x / TWO_TO_THE_64;
    assert x == d * TWO_TO_THE_64 + r;
    assert x + q * TWO_TO_THE_64 == (d + q) * TWO_TO_THE_64 + r;
  }

  /** A step of a sum modulo 2^64: if `w0 == a` and `w == w0 + d` modulo 2^64 then `w == a + d`. */
  lemma ModStep(w: int, w0: int, a: int, d: int)
    requires w % TWO_TO_THE_64 == (w0 + d) % TWO_TO_THE_64 && w0 % TWO_TO_THE_64 == a % TWO_TO_THE_64
    ensures w % TWO_TO_THE_64 == (a + d) % TWO_TO_THE_64
  {
    ModAdd(w0, d);
    ModAdd(a, d);
  }

  /** `a + b` on `uint64` values: wraps around past 2^64 - 1. */
  function Add64(a: uint64, b: uint64): uint64
  {
    if a + b < TWO_TO_THE_64 then a + b else a + b - TWO_TO_THE_64
  }

  lemma Add64Mod(a: uint64, b: uint64)
    ensures Add64(a, b) == (a + b) % TWO_TO_THE_64
  {
    ModMinus(a + b, Add64(a, b));
  }

  lemma ModSmall(x: int)
    requires 0 <= x < TWO_TO_THE_64
    ensures x % TWO_TO_THE_64 == x
  {
  }

  lemma MulSucc(x: int, n: int)
    ensures x * (n + 1) == x * n + x
  {
  }

  /**
   * Every inserted item with a nonzero hash adds `partialCount` to the total count of the
   * store, modulo 2^64.
   */
  lemma {:induction false} InsertEachWeight(m: Store, items: seq<(Key128, Position)>, partialCount: uint32)
    ensures Weight(InsertEach(m, items, partialCount)) % TWO_TO_THE_64
            == (Weight(m) + partialCount * NonZeroCount(items)) % TWO_TO_THE_64
  {
    if |items| > 0 {
      var rest, last := items[..|items| - 1], items[|items| - 1];
      var before := InsertEach(m, rest, partialCount);
      var n := NonZeroCount(rest);
      InsertEachWeight(m, rest, partialCount);
      if last.0 != Zero {
        MulSucc(partialCount, n);
        WeightInsert(before, last.0, last.1, partialCount);
        ModStep(Weight(InsertEach(m, items, partialCount)), Weight(before), Weight(m) + partialCount * n, partialCount);
      }
    }
  }
}
