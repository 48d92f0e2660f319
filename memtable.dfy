/**
 * The MemTable: the latest version of every written key, tombstones included,
 * kept in one vector sorted by key and searched by binary search.
 *
 * The first half is the value-level specification (a `Table` is the pair of the
 * entry vector and the running `size`); the class `MemTable` at the end is the
 * object that `set` and `delete` update in place, proved against it.
 */
module Memtable {
  import opened Wrappers
  import opened Bytes
  import opened Lex

  /** Bytes that `size` charges for the tombstone flag. */
  const TOMBSTONE_SIZE: nat := 1

  /** One record: `value` is `None` for a tombstone. */
  datatype MemTableEntry = MemTableEntry(key: Bytes, value: Option<Bytes>, timestamp: u128, deleted: bool)

  /** `set` stores a value with the flag clear, `delete` no value with the flag set. */
  predicate Consistent(e: MemTableEntry)
  {
    e.value.None? <==> e.deleted
  }

  /** Keys strictly ascending in byte order, so each key occurs at most once. */
  predicate Sorted(es: seq<MemTableEntry>)
  {
    forall i, j :: 0 <= i < j < |es| ==> Less(es[i].key, es[j].key)
  }

  /** The first entry whose key is `key`: the reference lookup. */
  function Find(es: seq<MemTableEntry>, key: seq<byte>): (r: Option<MemTableEntry>)
    ensures r.Some? ==> r.value in es && r.value.key == key
    ensures r.None? <==> forall i :: 0 <= i < |es| ==> es[i].key != key
  {
    if es == [] then None
    else if es[0].key == key then Some(es[0])
    else Find(es[1..], key)
  }

  /**
   * The reference update: walk the keys in order, replace the entry with the same
   * key, or put `e` in front of the first larger key.
   */
  function Put(es: seq<MemTableEntry>, e: MemTableEntry): seq<MemTableEntry>
  {
    if es == [] then [e]
    else if es[0].key == e.key then [e] + es[1..]
    else if Less(e.key, es[0].key) then [e] + es
    else [es[0]] + Put(es[1..], e)
  }

  /** What `size` charges for an entry: key, value, timestamp and flag. */
  function Cost(e: MemTableEntry): nat
  {
    |e.key| + (if e.value.Some? then |e.value.value| else 0) + TIMESTAMP_SIZE + TOMBSTONE_SIZE
  }

  function TotalCost(es: seq<MemTableEntry>): nat
  {
    if es == [] then 0 else Cost(es[0]) + TotalCost(es[1..])
  }

  /** The fields of a `MemTable`: the entry vector and the `size` counter (an `int`, see README). */
  datatype Table = Table(entries: seq<MemTableEntry>, size: int)

  predicate WellFormed(t: Table)
  {
    Sorted(t.entries) && forall i :: 0 <= i < |t.entries| ==> Consistent(t.entries[i])
  }

  /** `MemTable::new()`. */
  const EMPTY: Table := Table([], 0)

  /**
   * `set`: a new key is charged in full; over a live value `size` moves by the
   * difference of the value lengths; over a tombstone it does not move.
   */
  function SetModel(t: Table, key: Bytes, value: Bytes, timestamp: u128): Table
  {
    var size := match Find(t.entries, key)
      case None => t.size + |key| + |value| + TIMESTAMP_SIZE + TOMBSTONE_SIZE
      case Some(prev) => if prev.value.Some? then t.size - |prev.value.value| + |value| else t.size;
    Table(Put(t.entries, MemTableEntry(key, Some(value), timestamp, false)), size)
  }

  /**
   * `delete`: a new key is charged for key, timestamp and flag; over a live value
   * `size` loses the value's length; over a tombstone it does not move.
   */
  function DeleteModel(t: Table, key: Bytes, timestamp: u128): Table
  {
    var size := match Find(t.entries, key)
      case None => t.size + |key| + TIMESTAMP_SIZE + TOMBSTONE_SIZE
      case Some(prev) => if prev.value.Some? then t.size - |prev.value.value| else t.size;
    Table(Put(t.entries, MemTableEntry(key, None, timestamp, true)), size)
  }

  // ----- Lemmas about the reference definitions -----

  /** In a sorted vector the entry at `i` is the one lookup finds for its key. */
  lemma {:induction false} FindInSorted(es: seq<MemTableEntry>, i: nat)
    requires Sorted(es) && i < |es|
    ensures Find(es, es[i].key) == Some(es[i])
  {
    if i > 0 {
      LessImpliesDistinct(es[0].key, es[i].key);
      FindInSorted(es[1..], i - 1);
    }
  }

  /** Over an existing key, `Put` is an in-place overwrite (`entries[idx] = entry`). */
  lemma {:induction false} PutReplaces(es: seq<MemTableEntry>, i: nat, e: MemTableEntry)
    requires Sorted(es) && i < |es| && es[i].key == e.key
    ensures Put(es, e) == es[i := e]
  {
    if i > 0 {
      LessImpliesDistinct(es[0].key, es[i].key);
      LessAsymmetric(es[0].key, es[i].key);
      PutReplaces(es[1..], i - 1, e);
      assert es[i := e] == [es[0]] + es[1..][i - 1 := e];
    }
  }

  /** At an insertion point, `Put` is `entries.insert(idx, entry)`. */
  lemma {:induction false} PutInserts(es: seq<MemTableEntry>, i: nat, e: MemTableEntry)
    requires i <= |es|
    requires forall j :: 0 <= j < i ==> Less(es[j].key, e.key)
    requires forall j :: i <= j < |es| ==> Less(e.key, es[j].key)
    ensures Put(es, e) == es[..i] + [e] + es[i..]
  {
    if i == 0 {
      if es != [] {
        LessImpliesDistinct(e.key, es[0].key);
      }
      assert es[..0] + [e] + es[0..] == [e] + es;
    } else {
      LessImpliesDistinct(es[0].key, e.key);
      LessAsymmetric(es[0].key, e.key);
      PutInserts(es[1..], i - 1, e);
      assert es[..i] + [e] + es[i..] == [es[0]] + (es[1..][..i - 1] + [e] + es[1..][i - 1..]);
    }
  }

  /** `Put` keeps the keys strictly ascending and adds no entry other than `e`. */
  lemma {:induction false} PutKeepsSorted(es: seq<MemTableEntry>, e: MemTableEntry)
    requires Sorted(es)
    ensures Sorted(Put(es, e))
    ensures forall x :: x in Put(es, e) ==> x == e || x in es
  {
    if es == [] {
    } else if es[0].key == e.key {
      ReplaceHeadSorted(es, e);
    } else if Less(e.key, es[0].key) {
      PrependSorted(es, e);
    } else {
      LessTotal(e.key, es[0].key);
      PutKeepsSorted(es[1..], e);
      ConsSorted(es[0], es[1..], Put(es[1..], e), e);
      assert Put(es, e) == [es[0]] + Put(es[1..], e);
    }
  }

  /** Replacing the first entry by one with the same key keeps the order. */
  lemma ReplaceHeadSorted(es: seq<MemTableEntry>, e: MemTableEntry)
    requires Sorted(es) && es != [] && es[0].key == e.key
    ensures Sorted([e] + es[1..])
  {
    var r := [e] + es[1..];
    forall i, j | 0 <= i < j < |r| ensures Less(r[i].key, r[j].key) {
      assert r[j] == es[j];
      if i > 0 { assert r[i] == es[i]; }
    }
  }

  /** An entry below the first key can go in front. */
  lemma PrependSorted(es: seq<MemTableEntry>, e: MemTableEntry)
    requires Sorted(es) && es != [] && Less(e.key, es[0].key)
    ensures Sorted([e] + es)
  {
    var r := [e] + es;
    forall i, j | 0 <= i < j < |r| ensures Less(r[i].key, r[j].key) {
      if i == 0 && j > 1 {
        LessTransitive(e.key, es[0].key, es[j - 1].key);
      }
    }
  }

  /**
   * `head` in front of `rest` stays sorted when `rest` holds only `e` and entries of
   * the sorted `tail`, and `head` is below `e` and every key of `tail`.
   */
  lemma ConsSorted(head: MemTableEntry, tail: seq<MemTableEntry>, rest: seq<MemTableEntry>, e: MemTableEntry)
    requires Sorted([head] + tail) && Sorted(rest) && Less(head.key, e.key)
    requires forall x :: x in rest ==> x == e || x in tail
    ensures Sorted([head] + rest)
  {
    var r := [head] + rest;
    forall i, j | 0 <= i < j < |r| ensures Less(r[i].key, r[j].key) {
      if i == 0 {
        assert r[j] == rest[j - 1] && rest[j - 1] in rest;
        if r[j] != e {
          var k :| 0 <= k < |tail| && tail[k] == r[j];
          assert ([head] + tail)[0] == head && ([head] + tail)[k + 1] == r[j];
        }
      } else {
        assert r[i] == rest[i - 1] && r[j] == rest[j - 1];
      }
    }
  }

  /** After `Put`, lookup of `e.key` finds `e` and lookup of every other key is unchanged. */
  lemma {:induction false} FindAfterPut(es: seq<MemTableEntry>, e: MemTableEntry, k: seq<byte>)
    ensures Find(Put(es, e), k) == if k == e.key then Some(e) else Find(es, k)
  {
    if es != [] && es[0].key != e.key && !Less(e.key, es[0].key) {
      FindAfterPut(es[1..], e, k);
    }
  }

  /** `Put` adds an entry exactly when the key was absent. */
  lemma {:induction false} PutLength(es: seq<MemTableEntry>, e: MemTableEntry)
    requires Sorted(es)
    ensures |Put(es, e)| == |es| + (if Find(es, e.key).None? then 1 else 0)
  {
    if es == [] {
    } else if es[0].key == e.key {
    } else if Less(e.key, es[0].key) {
      forall j | 0 <= j < |es| ensures es[j].key != e.key {
        if j > 0 { LessTransitive(e.key, es[0].key, es[j].key); }
        LessImpliesDistinct(e.key, es[j].key);
      }
    } else {
      PutLength(es[1..], e);
    }
  }

  /** The cost of the vector after `Put`: the new entry's cost replaces the old one's. */
  lemma {:induction false} PutCost(es: seq<MemTableEntry>, e: MemTableEntry)
    requires Sorted(es)
    ensures TotalCost(Put(es, e)) == TotalCost(es) + Cost(e) - (if Find(es, e.key).Some? then Cost(Find(es, e.key).value) else 0)
  {
    if es == [] {
    } else if es[0].key == e.key {
      assert Put(es, e)[1..] == es[1..];
    } else if Less(e.key, es[0].key) {
      PutLength(es, e);
      assert Put(es, e)[1..] == es;
    } else {
      PutCost(es[1..], e);
      assert Put(es, e)[1..] == Put(es[1..], e);
    }
  }

  /** Every entry stored by `Put` is consistent when the old ones and `e` are. */
  lemma PutKeepsConsistent(es: seq<MemTableEntry>, e: MemTableEntry)
    requires Sorted(es) && Consistent(e)
    requires forall i :: 0 <= i < |es| ==> Consistent(es[i])
    ensures forall i :: 0 <= i < |Put(es, e)| ==> Consistent(Put(es, e)[i])
  {
    PutKeepsSorted(es, e);
    forall i | 0 <= i < |Put(es, e)| ensures Consistent(Put(es, e)[i]) {
      var x := Put(es, e)[i];
      assert x in Put(es, e);
      if x != e {
        var k :| 0 <= k < |es| && es[k] == x;
      }
    }
  }

  /** The keys that have an entry, tombstones included. */
  function Keys(es: seq<MemTableEntry>): set<seq<byte>>
  {
    if es == [] then {} else {es[0].key} + Keys(es[1..])
  }

  /** A key has an entry exactly when the lookup finds one. */
  lemma {:induction false} KeysFind(es: seq<MemTableEntry>, k: seq<byte>)
    ensures k in Keys(es) <==> Find(es, k).Some?
  {
    if es != [] {
      KeysFind(es[1..], k);
    }
  }

  /** Sorted entries have distinct keys: there are as many keys as entries. */
  lemma {:induction false} KeyCount(es: seq<MemTableEntry>)
    requires Sorted(es)
    ensures |Keys(es)| == |es|
  {
    if es != [] {
      var rest := es[1..];
      KeyCount(rest);
      KeysFind(rest, es[0].key);
      forall j | 0 <= j < |rest| ensures rest[j].key != es[0].key {
        LessImpliesDistinct(es[0].key, rest[j].key);
      }
    }
  }

  /**
   * `set(k, v, t)`: the entries stay sorted; afterwards the only entry for `k` is
   * `(k, Some(v), t, false)`, every other key looks up as before, and the length
   * grows by one exactly when `k` was absent.
   */
  lemma SetSpec(t: Table, key: Bytes, value: Bytes, timestamp: u128)
    requires WellFormed(t)
    ensures var t' := SetModel(t, key, value, timestamp);
      && WellFormed(t')
      && Find(t'.entries, key) == Some(MemTableEntry(key, Some(value), timestamp, false))
      && (forall i :: 0 <= i < |t'.entries| && t'.entries[i].key == key ==>
            t'.entries[i] == MemTableEntry(key, Some(value), timestamp, false))
      && (forall k :: k != key ==> Find(t'.entries, k) == Find(t.entries, k))
      && |t'.entries| == |t.entries| + (if Find(t.entries, key).None? then 1 else 0)
  {
    var e := MemTableEntry(key, Some(value), timestamp, false);
    var es' := Put(t.entries, e);
    PutKeepsSorted(t.entries, e);
    PutKeepsConsistent(t.entries, e);
    PutLength(t.entries, e);
    FindAfterPut(t.entries, e, key);
    forall k | k != key ensures Find(es', k) == Find(t.entries, k) {
      FindAfterPut(t.entries, e, k);
    }
    forall i | 0 <= i < |es'| && es'[i].key == key ensures es'[i] == e {
      FindInSorted(es', i);
    }
  }

  /**
   * `delete(k, t)`: the entries stay sorted; afterwards the only entry for `k` is the
   * tombstone `(k, None, t, true)`, every other key looks up as before, and the
   * length grows by one exactly when `k` was absent.
   */
  lemma DeleteSpec(t: Table, key: Bytes, timestamp: u128)
    requires WellFormed(t)
    ensures var t' := DeleteModel(t, key, timestamp);
      && WellFormed(t')
      && Find(t'.entries, key) == Some(MemTableEntry(key, None, timestamp, true))
      && (forall i :: 0 <= i < |t'.entries| && t'.entries[i].key == key ==>
            t'.entries[i] == MemTableEntry(key, None, timestamp, true))
      && (forall k :: k != key ==> Find(t'.entries, k) == Find(t.entries, k))
      && |t'.entries| == |t.entries| + (if Find(t.entries, key).None? then 1 else 0)
  {
    var e := MemTableEntry(key, None, timestamp, true);
    var es' := Put(t.entries, e);
    PutKeepsSorted(t.entries, e);
    PutKeepsConsistent(t.entries, e);
    PutLength(t.entries, e);
    FindAfterPut(t.entries, e, key);
    forall k | k != key ensures Find(es', k) == Find(t.entries, k) {
      FindAfterPut(t.entries, e, k);
    }
    forall i | 0 <= i < |es'| && es'[i].key == key ensures es'[i] == e {
      FindInSorted(es', i);
    }
  }

  /** The amount by which `size` falls short of the entries' total cost. */
  function Shortfall(t: Table): int
  {
    TotalCost(t.entries) - t.size
  }

  /**
   * `size` tracks the entries' cost through every `set` except one that overwrites a
   * tombstone: that one leaves `size` alone although the entry now costs `|v|` more.
   */
  lemma SetSizeAccounting(t: Table, key: Bytes, value: Bytes, timestamp: u128)
    requires WellFormed(t)
    ensures Shortfall(SetModel(t, key, value, timestamp)) ==
      Shortfall(t) + (if Find(t.entries, key).Some? && Find(t.entries, key).value.value.None? then |value| else 0)
  {
    PutCost(t.entries, MemTableEntry(key, Some(value), timestamp, false));
  }

  /** `size` tracks the entries' cost through every `delete`. */
  lemma DeleteSizeAccounting(t: Table, key: Bytes, timestamp: u128)
    requires WellFormed(t)
    ensures Shortfall(DeleteModel(t, key, timestamp)) == Shortfall(t)
  {
    PutCost(t.entries, MemTableEntry(key, None, timestamp, true));
  }

  /**
   * Once a `set` has overwritten a tombstone, a later `delete` subtracts a value length
   * that was never added: with key `[7]` and a 20-byte value the counter ends at -2,
   * where the `usize` field of the source underflows.
   */
  lemma SizeCanUnderflow()
    ensures var k: Bytes := [7];
      DeleteModel(SetModel(DeleteModel(EMPTY, k, 0), k, Zeros(20), 1), k, 2).size == -2
  {
    var k: Bytes := [7];
    var t1 := DeleteModel(EMPTY, k, 0);
    assert t1 == Table([MemTableEntry(k, None, 0, true)], 18);
    var t2 := SetModel(t1, k, Zeros(20), 1);
    assert t2 == Table([MemTableEntry(k, Some(Zeros(20)), 1, false)], 18);
  }

  // ----- The object -----

  /** The answer of `binary_search_by_key`: `Ok(index)` or `Err(insertion point)`. */
  datatype Search = Found(index: nat) | Missing(insertAt: nat)

  class MemTable {
    var entries: seq<MemTableEntry>
    var size: int

    ghost function Model(): Table
      reads this
    {
      Table(entries, size)
    }

    ghost predicate Valid()
      reads this
    {
      WellFormed(Model())
    }

    constructor ()
      ensures Valid() && Model() == EMPTY
    {
      entries := [];
      size := 0;
    }

    /**
     * Binary search by key: `Found(i)` only when `entries[i]` has the key; otherwise
     * `Missing(i)` with every key before `i` smaller and every key from `i` on larger.
     */
    method GetIndex(key: seq<byte>) returns (r: Search)
      requires Valid()
      ensures r.Found? ==> r.index < |entries| && entries[r.index].key == key
      ensures r.Missing? ==>
        && r.insertAt <= |entries|
        && (forall j :: 0 <= j < r.insertAt ==> Less(entries[j].key, key))
        && (forall j :: r.insertAt <= j < |entries| ==> Less(key, entries[j].key))
    {
      var lo, hi := 0, |entries|;
      while lo < hi
        invariant 0 <= lo <= hi <= |entries|
        invariant forall j :: 0 <= j < lo ==> Less(entries[j].key, key)
        invariant forall j :: hi <= j < |entries| ==> Less(key, entries[j].key)
      {
        var mid := (lo + hi) / 2;
        var midKey := entries[mid].key;
        if Less(midKey, key) {
          forall j | 0 <= j <= mid ensures Less(entries[j].key, key) {
            if j < mid { LessTransitive(entries[j].key, midKey, key); }
          }
          lo := mid + 1;
        } else if midKey == key {
          return Found(mid);
        } else {
          LessTotal(midKey, key);
          forall j | mid <= j < |entries| ensures Less(key, entries[j].key) {
            if j > mid { LessTransitive(key, midKey, entries[j].key); }
          }
          hi := mid;
        }
      }
      return Missing(lo);
    }

    /** `get`: the entry stored for `key`, or `None` when there is none. */
    method Get(key: seq<byte>) returns (r: Option<MemTableEntry>)
      requires Valid()
      ensures r == Find(entries, key)
    {
      var idx := GetIndex(key);
      match idx {
        case Found(i) =>
          FindInSorted(entries, i);
          r := Some(entries[i]);
        case Missing(i) =>
          forall j | 0 <= j < |entries| ensures entries[j].key != key {
            if j < i {
              LessImpliesDistinct(entries[j].key, key);
            } else {
              LessImpliesDistinct(key, entries[j].key);
            }
          }
          r := None;
      }
    }

    /** `set`: overwrite the entry for `key` in place, or insert one at its sorted position. */
    method Set(key: Bytes, value: Bytes, timestamp: u128)
      requires Valid()
      modifies this
      ensures Valid()
      ensures Model() == SetModel(old(Model()), key, value, timestamp)
    {
      ghost var before := Model();
      SetSpec(before, key, value, timestamp);
      var entry := MemTableEntry(key, Some(value), timestamp, false);
      var idx := GetIndex(key);
      match idx {
        case Found(i) =>
          FindInSorted(entries, i);
          PutReplaces(entries, i, entry);
          var prev := entries[i].value;
          if prev.Some? {
            if |value| < |prev.value| {
              size := size - (|prev.value| - |value|);
            } else {
              size := size + (|value| - |prev.value|);
            }
          }
          entries := entries[i := entry];
        case Missing(i) =>
          PutInserts(entries, i, entry);
          GetIndexMissingAbsent(entries, key, i);
          size := size + |key| + |value| + TIMESTAMP_SIZE + TOMBSTONE_SIZE;
          entries := entries[..i] + [entry] + entries[i..];
      }
    }

    /** `delete`: store a tombstone for `key`, in place or at its sorted position. */
    method Delete(key: Bytes, timestamp: u128)
      requires Valid()
      modifies this
      ensures Valid()
      ensures Model() == DeleteModel(old(Model()), key, timestamp)
    {
      ghost var before := Model();
      DeleteSpec(before, key, timestamp);
      var entry := MemTableEntry(key, None, timestamp, true);
      var idx := GetIndex(key);
      match idx {
        case Found(i) =>
          FindInSorted(entries, i);
          PutReplaces(entries, i, entry);
          var prev := entries[i].value;
          if prev.Some? {
            size := size - |prev.value|;
          }
          entries := entries[i := entry];
        case Missing(i) =>
          PutInserts(entries, i, entry);
          GetIndexMissingAbsent(entries, key, i);
          size := size + |key| + TIMESTAMP_SIZE + TOMBSTONE_SIZE;
          entries := entries[..i] + [entry] + entries[i..];
      }
    }

    /** `len`: the number of entries, which is the number of keys written, tombstones included. */
    function Len(): (n: nat)
      reads this
      requires Valid()
      ensures n == |Keys(entries)|
      ensures n == |Model().entries|
    {
      KeyCount(entries);
      |entries|
    }
  }

  /** An insertion point rules the key out. */
  lemma GetIndexMissingAbsent(es: seq<MemTableEntry>, key: seq<byte>, i: nat)
    requires i <= |es|
    requires forall j :: 0 <= j < i ==> Less(es[j].key, key)
    requires forall j :: i <= j < |es| ==> Less(key, es[j].key)
    ensures Find(es, key).None?
  {
    forall j | 0 <= j < |es| ensures es[j].key != key {
      if j < i {
        LessImpliesDistinct(es[j].key, key);
      } else {
        LessImpliesDistinct(key, es[j].key);
      }
    }
  }

  // ----- The unit tests of memtable.rs, replayed on the model -----

  const APPLE: Bytes := Ascii("Apple")
  const LIME: Bytes := Ascii("Lime")
  const ORANGE: Bytes := Ascii("Orange")
  const APPLE_SMOOTHIE: Bytes := Ascii("Apple Smoothie")
  const LIME_SMOOTHIE: Bytes := Ascii("Lime Smoothie")
  const ORANGE_SMOOTHIE: Bytes := Ascii("Orange Smoothie")

  /** `test_mem_table_put_start`: three inserts cost 108 and come out in key order. */
  method PutStartExample() returns (entries: seq<MemTableEntry>, size: int)
    ensures entries == [
      MemTableEntry(APPLE, Some(APPLE_SMOOTHIE), 20, false),
      MemTableEntry(LIME, Some(LIME_SMOOTHIE), 0, false),
      MemTableEntry(ORANGE, Some(ORANGE_SMOOTHIE), 10, false)]
    ensures size == 108
  {
    var eL := MemTableEntry(LIME, Some(LIME_SMOOTHIE), 0, false);
    var eO := MemTableEntry(ORANGE, Some(ORANGE_SMOOTHIE), 10, false);
    var eA := MemTableEntry(APPLE, Some(APPLE_SMOOTHIE), 20, false);
    assert APPLE[0] < LIME[0] < ORANGE[0];
    var table := new MemTable();
    table.Set(LIME, LIME_SMOOTHIE, 0);
    assert table.Model() == Table([eL], 34);
    table.Set(ORANGE, ORANGE_SMOOTHIE, 10);
    assert Put([eL], eO) == [eL] + Put([], eO);
    assert table.Model() == Table([eL, eO], 72);
    table.Set(APPLE, APPLE_SMOOTHIE, 20);
    assert table.entries == [eA, eL, eO];
    entries := table.entries;
    size := table.size;
  }

  /** Apple, Lime and Orange set in key order, as several tests begin. */
  method ThreeFruits(t0: u128, t1: u128, t2: u128) returns (table: MemTable)
    ensures fresh(table) && table.Valid()
    ensures table.entries == [
      MemTableEntry(APPLE, Some(APPLE_SMOOTHIE), t0, false),
      MemTableEntry(LIME, Some(LIME_SMOOTHIE), t1, false),
      MemTableEntry(ORANGE, Some(ORANGE_SMOOTHIE), t2, false)]
    ensures table.size == 108
  {
    var eA := MemTableEntry(APPLE, Some(APPLE_SMOOTHIE), t0, false);
    var eL := MemTableEntry(LIME, Some(LIME_SMOOTHIE), t1, false);
    var eO := MemTableEntry(ORANGE, Some(ORANGE_SMOOTHIE), t2, false);
    assert APPLE[0] < LIME[0] < ORANGE[0];
    table := new MemTable();
    table.Set(APPLE, APPLE_SMOOTHIE, t0);
    assert table.Model() == Table([eA], 36);
    assert Put([eA], eL) == [eA] + Put([], eL);
    table.Set(LIME, LIME_SMOOTHIE, t1);
    assert table.Model() == Table([eA, eL], 70);
    assert Put([eA, eL], eO) == [eA] + Put([eL], eO);
    assert Put([eL], eO) == [eL] + Put([], eO);
    table.Set(ORANGE, ORANGE_SMOOTHIE, t2);
  }

  /** `test_mem_table_put_overwrite`: a shorter value for `Lime` takes the size to 107. */
  method PutOverwriteExample() returns (entry: Option<MemTableEntry>, size: int)
    ensures entry == Some(MemTableEntry(LIME, Some(Ascii("A sour fruit")), 30, false))
    ensures size == 107
  {
    var table := ThreeFruits(0, 10, 20);
    FindInSorted(table.entries, 1);
    ghost var before := table.Model();
    var sour := Ascii("A sour fruit");
    table.Set(LIME, sour, 30);
    SetSpec(before, LIME, sour, 30);
    entry := table.Get(LIME);
    size := table.size;
  }

  /** `test_mem_table_get_not_exists`: a key never written looks up as `None`. */
  method GetNotExistsExample() returns (entry: Option<MemTableEntry>)
    ensures entry == None
  {
    var table := ThreeFruits(0, 0, 0);
    var potato := Ascii("Potato");
    assert potato != APPLE && potato != LIME && potato[0] != ORANGE[0];
    entry := table.Get(potato);
  }

  /** `test_mem_table_delete_exists` and `test_mem_table_delete_empty`: both leave a tombstone and size 22. */
  method DeleteExamples() returns (afterSet: Option<MemTableEntry>, sizeAfterSet: int, onEmpty: Option<MemTableEntry>, sizeOnEmpty: int)
    ensures afterSet == Some(MemTableEntry(APPLE, None, 10, true)) && sizeAfterSet == 22
    ensures onEmpty == Some(MemTableEntry(APPLE, None, 10, true)) && sizeOnEmpty == 22
  {
    var table := new MemTable();
    table.Set(APPLE, APPLE_SMOOTHIE, 0);
    table.Delete(APPLE, 10);
    afterSet := table.Get(APPLE);
    sizeAfterSet := table.size;
    var empty := new MemTable();
    empty.Delete(APPLE, 10);
    onEmpty := empty.Get(APPLE);
    sizeOnEmpty := empty.size;
  }

}
