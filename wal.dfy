/**
 * The write-ahead log: an append-only byte buffer written record by record, an
 * iterator that reads records back field by field, and recovery, which replays
 * every log file of a directory, in file-name order, into a fresh MemTable while
 * re-appending each record to a fresh log.
 *
 * Files are values: a directory maps file names to their bytes, or marks a file
 * that cannot be opened.
 */
module WriteAheadLog {
  import opened Wrappers
  import opened Bytes
  import opened Lex
  import opened Memtable
  import opened WalCodec

  type FileName = seq<byte>

  /** What opening a listed file gives: its bytes, or a failure that recovery skips. */
  datatype FileState = Readable(bytes: seq<byte>) | Unopenable

  type Directory = map<FileName, FileState>

  // ----- Replay: the value-level meaning of recovery -----

  /** One decoded record applied to the MemTable: tombstones by `delete`, the rest by `set`. */
  function ReplayEntry(t: Table, e: WalEntry): Table
    requires e.deleted || e.value.Some?
  {
    if e.deleted then DeleteModel(t, e.key, e.timestamp) else SetModel(t, e.key, e.value.value, e.timestamp)
  }

  /** The records `es` applied to `t` in order. */
  function Replay(t: Table, es: seq<WalEntry>): Table
    requires Replayable(es)
  {
    if es == [] then t else ReplayEntry(Replay(t, es[..|es| - 1]), es[|es| - 1])
  }

  /** The MemTable entry that replaying `e` leaves for `e.key`. */
  function ToMemEntry(e: WalEntry): MemTableEntry
  {
    MemTableEntry(e.key, if e.deleted then None else e.value, e.timestamp, e.deleted)
  }

  /** The last record in `es` for key `k`. */
  function LastFor(es: seq<WalEntry>, k: seq<byte>): (r: Option<WalEntry>)
    ensures r.Some? ==> r.value in es && r.value.key == k
    ensures r.None? <==> forall i :: 0 <= i < |es| ==> es[i].key != k
  {
    if es == [] then None
    else if es[|es| - 1].key == k then Some(es[|es| - 1])
    else LastFor(es[..|es| - 1], k)
  }

  /** The records recovery reads from one listed file; an unopenable file yields none. */
  function FileEntries(dir: Directory, name: FileName): (es: seq<WalEntry>)
    ensures AllConsistent(es)
  {
    if name in dir && dir[name].Readable? then DecodeAll(dir[name].bytes) else []
  }

  /** The records of the files `names`, file after file, in the given order. */
  function Recovered(dir: Directory, names: seq<FileName>): (es: seq<WalEntry>)
    ensures AllConsistent(es) && Replayable(es)
  {
    if names == [] then []
    else
      var init := Recovered(dir, names[..|names| - 1]);
      var last := FileEntries(dir, names[|names| - 1]);
      ConcatConsistent(init, last);
      init + last
  }

  lemma ConcatConsistent(a: seq<WalEntry>, b: seq<WalEntry>)
    requires AllConsistent(a) && AllConsistent(b)
    ensures AllConsistent(a + b) && Replayable(a + b)
  {
    forall i | 0 <= i < |a + b| ensures WalCodec.Consistent((a + b)[i]) {
      if i < |a| { assert (a + b)[i] == a[i]; } else { assert (a + b)[i] == b[i - |a|]; }
    }
  }

  // ----- Lemmas about replay -----

  /**
   * Last writer wins: after replay, the entry for `k` is the one the last record for
   * `k` leaves (a value for `set`, a tombstone for `delete`), or the old one when no
   * record names `k`; and the entries stay sorted.
   */
  lemma {:induction false} ReplayFind(t: Table, es: seq<WalEntry>, k: seq<byte>)
    requires WellFormed(t) && Replayable(es)
    ensures WellFormed(Replay(t, es))
    ensures Find(Replay(t, es).entries, k) ==
      match LastFor(es, k)
      case None => Find(t.entries, k)
      case Some(e) => Some(ToMemEntry(e))
  {
    if es != [] {
      var init := es[..|es| - 1];
      var x := es[|es| - 1];
      ReplayFind(t, init, k);
      var mid := Replay(t, init);
      if x.deleted {
        DeleteSpec(mid, x.key, x.timestamp);
      } else {
        SetSpec(mid, x.key, x.value.value, x.timestamp);
      }
    }
  }

  /** Replaying `a` then `b` is replaying their concatenation. */
  lemma {:induction false} ReplayConcat(t: Table, a: seq<WalEntry>, b: seq<WalEntry>)
    requires Replayable(a) && Replayable(b) && Replayable(a + b)
    ensures Replay(t, a + b) == Replay(Replay(t, a), b)
  {
    if b == [] {
      assert a + b == a;
    } else {
      assert (a + b)[..|a + b| - 1] == a + b[..|b| - 1];
      ReplayConcat(t, a, b[..|b| - 1]);
    }
  }

  /** The last record for a key in a concatenation comes from the later part when it has one. */
  lemma {:induction false} LastForConcat(a: seq<WalEntry>, b: seq<WalEntry>, k: seq<byte>)
    ensures LastFor(a + b, k) == if LastFor(b, k).Some? then LastFor(b, k) else LastFor(a, k)
  {
    if b == [] {
      assert a + b == a;
    } else {
      assert (a + b)[..|a + b| - 1] == a + b[..|b| - 1];
      LastForConcat(a, b[..|b| - 1], k);
    }
  }

  /**
   * Among the files replayed, a later file's record for `k` overrides every earlier
   * file's: the entry recovered for `k` comes from the last file, in the given order,
   * that mentions it.
   */
  lemma LaterFileWins(dir: Directory, names: seq<FileName>, k: seq<byte>)
    requires names != []
    requires LastFor(FileEntries(dir, names[|names| - 1]), k).Some?
    ensures Find(Replay(EMPTY, Recovered(dir, names)).entries, k)
      == Some(ToMemEntry(LastFor(FileEntries(dir, names[|names| - 1]), k).value))
  {
    var init := Recovered(dir, names[..|names| - 1]);
    var last := FileEntries(dir, names[|names| - 1]);
    LastForConcat(init, last, k);
    ReplayFind(EMPTY, Recovered(dir, names), k);
  }

  /** A log holding the re-encoded records recovers exactly those records again. */
  lemma RecoverAgain(d: Directory, name: FileName, es: seq<WalEntry>)
    requires AllConsistent(es)
    requires Replayable(es) && name in d && d[name] == Readable(EncodeAll(es))
    ensures Recovered(d, [name]) == es
    ensures Replay(EMPTY, Recovered(d, [name])) == Replay(EMPTY, es)
  {
    RoundTrip(es);
    assert FileEntries(d, name) == es;
    assert [name][..0] == [] && [name][0] == name;
    assert Recovered(d, [name]) == Recovered(d, []) + FileEntries(d, name);
    EmptyPrefix(es);
  }

  /** Encoding is compositional: the log of `a + b` is the log of `a` followed by that of `b`. */
  lemma {:induction false} EncodeAllConcat(a: seq<WalEntry>, b: seq<WalEntry>)
    requires Replayable(a) && Replayable(b) && Replayable(a + b)
    ensures EncodeAll(a + b) == EncodeAll(a) + EncodeAll(b)
  {
    if a == [] {
      assert a + b == b;
    } else {
      assert (a + b)[0] == a[0];
      assert (a + b)[1..] == a[1..] + b;
      EncodeAllConcat(a[1..], b);
    }
  }

  lemma ReplayAppend(t: Table, es: seq<WalEntry>, e: WalEntry)
    requires Replayable(es) && Replayable(es + [e])
    ensures Replay(t, es + [e]) == ReplayEntry(Replay(t, es), e)
  {
    assert (es + [e])[..|es|] == es;
  }

  lemma RecoveredAppend(dir: Directory, names: seq<FileName>, i: nat)
    requires i < |names|
    ensures Recovered(dir, names[..i + 1]) == Recovered(dir, names[..i]) + FileEntries(dir, names[i])
  {
    assert names[..i + 1][..i] == names[..i];
  }

  // ----- The log object -----

  /**
   * An open log file: its path and the bytes it holds. `set` and `delete` append one
   * field at a time, as the `write_all` calls do.
   */
  class Wal {
    const path: FileName
    var file: seq<byte>

    /** A newly created, empty log at `path` (the file name is given, not taken from the clock). */
    constructor (path: FileName)
      ensures this.path == path && file == []
    {
      this.path := path;
      file := [];
    }

    /** `Wal::set`: appends a live record. */
    method Set(key: Bytes, value: Bytes, timestamp: u128)
      modifies this
      ensures file == old(file) + EncodeSet(key, value, timestamp)
    {
      ghost var start := file;
      file := file + ToLE(|key|, LEN_SIZE);
      file := file + [0];
      file := file + ToLE(|value|, LEN_SIZE);
      file := file + key;
      file := file + value;
      file := file + ToLE(timestamp, TIMESTAMP_SIZE);
      assert file == start + (ToLE(|key|, LEN_SIZE) + ([0] + (ToLE(|value|, LEN_SIZE) + (key + value))))
                           + ToLE(timestamp, TIMESTAMP_SIZE);
    }

    /** `Wal::delete`: appends a tombstone record. */
    method Delete(key: Bytes, timestamp: u128)
      modifies this
      ensures file == old(file) + EncodeDelete(key, timestamp)
    {
      ghost var start := file;
      file := file + ToLE(|key|, LEN_SIZE);
      file := file + [1];
      file := file + key;
      file := file + ToLE(timestamp, TIMESTAMP_SIZE);
      assert file == start + (ToLE(|key|, LEN_SIZE) + ([1] + key)) + ToLE(timestamp, TIMESTAMP_SIZE);
    }
  }

  // ----- The iterator -----

  /** A reader over the bytes of one log file. */
  class WalIterator {
    const data: seq<byte>
    var pos: nat

    /** The entries still to come. */
    ghost function Remaining(): seq<WalEntry>
      reads this
      requires pos <= |data|
    {
      DecodeAll(data[pos..])
    }

    constructor (data: seq<byte>)
      ensures this.data == data && pos == 0
    {
      this.data := data;
      pos := 0;
    }

    /**
     * `read_exact` of `n` bytes: succeeds when that many remain; otherwise it fails
     * after consuming what is left. Either way `buf` holds the bytes consumed.
     */
    method ReadExact(n: nat) returns (buf: seq<byte>, ok: bool)
      requires pos <= |data|
      modifies this
      ensures ok <==> old(pos) + n <= |data|
      ensures pos == (if ok then old(pos) + n else |data|)
      ensures buf == data[old(pos)..pos]
    {
      if pos + n <= |data| {
        buf, ok := data[pos..pos + n], true;
        pos := pos + n;
      } else {
        buf, ok := data[pos..], false;
        pos := |data|;
      }
    }

    /** The timestamp field: up to 16 bytes, zero-padded when the file ends early. */
    method ReadStamp() returns (timestamp: u128)
      requires pos <= |data|
      modifies this
      ensures pos == old(pos) + |Available(data[old(pos)..], TIMESTAMP_SIZE)| && pos <= |data|
      ensures timestamp == Stamp(data[old(pos)..])
    {
      ghost var p0 := pos;
      Pow256Widths();
      var stampBuf, stampOk := ReadExact(TIMESTAMP_SIZE);
      if stampOk {
        assert data[p0..][..16] == stampBuf;
      } else {
        assert data[p0..] == stampBuf;
      }
      timestamp := FromLE(ZeroPadded(stampBuf, TIMESTAMP_SIZE));
    }

    /** The rest of a tombstone record: the key and the timestamp. */
    method ReadTombstoneBody(keyLen: nat) returns (r: Option<WalEntry>)
      requires pos <= |data| && keyLen < U64_LIMIT
      modifies this
      ensures pos <= |data|
      ensures match DecodeTombstoneBody(keyLen, data[old(pos)..])
        case None => r.None? && pos == |data|
        case Some((e, n)) => r == Some(e) && pos == old(pos) + n
    {
      ghost var p0 := pos;
      var key, ok := ReadExact(keyLen);
      if !ok {
        return None;
      }
      assert data[p0..][..keyLen] == key;
      assert data[p0..][keyLen..] == data[pos..];
      var timestamp := ReadStamp();
      r := Some(WalEntry(key, None, timestamp, true));
    }

    /** The rest of a live record: the key, the value and the timestamp. */
    method ReadLiveBody(keyLen: nat, valueLen: nat) returns (r: Option<WalEntry>)
      requires pos <= |data| && keyLen < U64_LIMIT && valueLen < U64_LIMIT
      modifies this
      ensures pos <= |data|
      ensures match DecodeLiveBody(keyLen, valueLen, data[old(pos)..])
        case None => r.None? && pos == |data|
        case Some((e, n)) => r == Some(e) && pos == old(pos) + n
    {
      ghost var p0 := pos;
      var key, ok := ReadExact(keyLen);
      if !ok {
        return None;
      }
      var valueBuf;
      valueBuf, ok := ReadExact(valueLen);
      if !ok {
        return None;
      }
      assert data[p0..][..keyLen] == key;
      assert data[p0..][keyLen..keyLen + valueLen] == valueBuf;
      assert data[p0..][keyLen + valueLen..] == data[pos..];
      var timestamp := ReadStamp();
      r := Some(WalEntry(key, Some(valueBuf), timestamp, false));
    }

    /**
     * `WalIterator::next`: reads key length, flag, value length (live records only),
     * key, value and timestamp; a short read of any field but the timestamp ends the
     * iteration. The step is the one `DecodeNext` describes.
     */
    method Next() returns (r: Option<WalEntry>)
      requires pos <= |data|
      modifies this
      ensures pos <= |data|
      ensures match DecodeNext(data[old(pos)..])
        case None => r.None? && pos == |data|
        case Some((e, n)) => r == Some(e) && pos == old(pos) + n
    {
      ghost var bs := data[pos..];
      Pow256Widths();
      var lenBuf, ok := ReadExact(LEN_SIZE);
      if !ok {
        return None;
      }
      var keyLen := FromLE(lenBuf);
      var flag, flagOk := ReadExact(FLAG_SIZE);
      if !flagOk {
        return None;
      }
      assert lenBuf == bs[..LEN_SIZE] && flag[0] == bs[LEN_SIZE];
      var deleted := flag[0] != 0;
      if deleted {
        assert data[pos..] == bs[LEN_SIZE + FLAG_SIZE..];
        r := ReadTombstoneBody(keyLen);
      } else {
        lenBuf, ok := ReadExact(LEN_SIZE);
        if !ok {
          return None;
        }
        assert lenBuf == bs[LEN_SIZE + FLAG_SIZE..LEN_SIZE + FLAG_SIZE + LEN_SIZE];
        assert data[pos..] == bs[LEN_SIZE + FLAG_SIZE + LEN_SIZE..];
        var valueLen := FromLE(lenBuf);
        r := ReadLiveBody(keyLen, valueLen);
      }
    }
  }

  // ----- Recovery -----

  /** The log after appending one more record to `done`. */
  lemma LogGrows(f0: seq<byte>, done: seq<WalEntry>, e: WalEntry)
    requires Replayable(done) && Replayable(done + [e]) && (e.deleted || e.value.Some?)
    ensures f0 + EncodeAll(done + [e]) == (f0 + EncodeAll(done)) + Encode(e)
  {
    EncodeAllConcat(done, [e]);
    assert EncodeAll([e]) == Encode(e) + EncodeAll([]);
    assert Encode(e) + [] == Encode(e);
  }

  lemma EmptyPrefix(s: seq<WalEntry>)
    ensures [] + s == s
  {
  }

  lemma EmptySuffix(s: seq<WalEntry>)
    ensures s + [] == s
  {
  }

  lemma ShiftOne(done: seq<WalEntry>, e: WalEntry, next: seq<WalEntry>, rest: seq<WalEntry>)
    ensures done + [e] + (next + rest) == done + [e] + next + rest
  {
  }

  /** What one `next` step leaves of the entries still to come. */
  lemma NextStep(data: seq<byte>, p: nat, p': nat, r: Option<WalEntry>)
    requires p <= |data| && p' <= |data|
    requires match DecodeNext(data[p..])
      case None => r.None? && p' == |data|
      case Some((e, n)) => r == Some(e) && p' == p + n
    ensures r.None? ==> DecodeAll(data[p..]) == []
    ensures r.Some? ==> p < p' && DecodeAll(data[p..]) == [r.value] + DecodeAll(data[p'..])
  {
    if r.Some? {
      var (e, n) := DecodeNext(data[p..]).value;
      assert data[p..][n..] == data[p'..];
    }
  }

  /** The first step of an iterator starts its file's progress with nothing applied. */
  lemma FirstStep(data: seq<byte>, p': nat, r: Option<WalEntry>)
    requires p' <= |data|
    requires r.None? ==> DecodeAll(data[0..]) == []
    requires r.Some? ==> DecodeAll(data[0..]) == [r.value] + DecodeAll(data[p'..])
    ensures Progress(data, p', r, [])
  {
    assert data[0..] == data;
    match r {
      case None =>
      case Some(e) =>
        EmptyPrefix([e] + DecodeAll(data[p'..]));
    }
  }

  /** One recovered entry: `delete` or `set` on the MemTable, then the same on the new log. */
  method ApplyEntry(entry: WalEntry, memtable: MemTable, wal: Wal)
    requires WalCodec.Consistent(entry) && memtable.Valid()
    modifies memtable, wal
    ensures memtable.Valid()
    ensures memtable.Model() == ReplayEntry(old(memtable.Model()), entry)
    ensures wal.file == old(wal.file) + Encode(entry)
  {
    if entry.deleted {
      memtable.Delete(entry.key, entry.timestamp);
      wal.Delete(entry.key, entry.timestamp);
    } else {
      memtable.Set(entry.key, entry.value.value, entry.timestamp);
      wal.Set(entry.key, entry.value.value, entry.timestamp);
    }
  }

  /**
   * Where reading one file stands: `done` are the records already applied, `next` the
   * one the iterator just yielded (if any) and `pos` where it stopped in `data`.
   */
  ghost predicate Progress(data: seq<byte>, pos: nat, next: Option<WalEntry>, done: seq<WalEntry>)
  {
    && pos <= |data|
    && AllConsistent(done)
    && match next
       case Some(e) => DecodeAll(data) == done + [e] + DecodeAll(data[pos..])
       case None => DecodeAll(data) == done
  }

  /**
   * One turn of the inner loop of `load_from_dir`: apply the entry the iterator just
   * yielded, then ask it for the next one. `done` are the entries of this file applied
   * before.
   */
  method Step(it: WalIterator, entry: WalEntry, memtable: MemTable, wal: Wal,
              ghost t0: Table, ghost f0: seq<byte>, ghost done: seq<WalEntry>)
    returns (next: Option<WalEntry>)
    requires Progress(it.data, it.pos, Some(entry), done) && memtable.Valid()
    requires memtable.Model() == Replay(t0, done) && wal.file == f0 + EncodeAll(done)
    modifies it, memtable, wal
    ensures Progress(it.data, it.pos, next, done + [entry]) && memtable.Valid()
    ensures old(it.pos) <= it.pos && (next.Some? ==> old(it.pos) < it.pos)
    ensures memtable.Model() == Replay(t0, done + [entry]) && wal.file == f0 + EncodeAll(done + [entry])
  {
    assert WalCodec.Consistent(entry) by {
      assert entry == DecodeAll(it.data)[|done|];
    }
    ConcatConsistent(done, [entry]);
    ReplayAppend(t0, done, entry);
    LogGrows(f0, done, entry);
    ghost var p := it.pos;
    ApplyEntry(entry, memtable, wal);
    next := it.Next();
    NextStep(it.data, p, it.pos, next);
    if next.Some? {
      ShiftOne(done, entry, [next.value], DecodeAll(it.data[it.pos..]));
    } else {
      EmptySuffix(done + [entry]);
    }
  }

  /** `wal.into_iter()` and its first `next`. */
  method Open(bytes: seq<byte>) returns (it: WalIterator, next: Option<WalEntry>)
    ensures fresh(it) && it.data == bytes
    ensures Progress(bytes, it.pos, next, [])
  {
    it := new WalIterator(bytes);
    next := it.Next();
    NextStep(bytes, 0, it.pos, next);
    FirstStep(bytes, it.pos, next);
  }

  /**
   * The inner loop of `load_from_dir` for one opened file: every entry the iterator
   * yields goes to the MemTable and is re-appended to the new log, in file order.
   */
  method ReplayInto(bytes: seq<byte>, memtable: MemTable, wal: Wal)
    requires memtable.Valid()
    modifies memtable, wal
    ensures memtable.Valid()
    ensures memtable.Model() == Replay(old(memtable.Model()), DecodeAll(bytes))
    ensures wal.file == old(wal.file) + EncodeAll(DecodeAll(bytes))
  {
    ghost var t0 := memtable.Model();
    ghost var f0 := wal.file;
    var it, next := Open(bytes);
    ghost var fromFile: seq<WalEntry> := [];
    while next.Some?
      invariant it.data == bytes && fresh(it)
      invariant Progress(bytes, it.pos, next, fromFile) && memtable.Valid()
      invariant memtable.Model() == Replay(t0, fromFile) && wal.file == f0 + EncodeAll(fromFile)
      decreases |bytes| - it.pos + (if next.Some? then 1 else 0)
    {
      var entry := next.value;
      next := Step(it, entry, memtable, wal, t0, f0, fromFile);
      fromFile := fromFile + [entry];
    }
  }

  /** Creating the new log, filling it and then removing the listed files. */
  lemma RemoveListed(dir: Directory, listing: seq<FileName>, newName: FileName, bytes: seq<byte>)
    requires forall i :: 0 <= i < |listing| ==> listing[i] in dir
    requires newName !in dir
    ensures dir[newName := Readable([])][newName := Readable(bytes)] - (set n | n in listing)
      == (dir - set n | n in listing)[newName := Readable(bytes)]
  {
    assert newName !in listing;
  }

  /** The body of the `load_from_dir` loop: one listed file replayed and rewritten, if it opens. */
  method RecoverFile(dir: Directory, name: FileName, memtable: MemTable, wal: Wal, ghost done: seq<WalEntry>)
    requires name in dir && memtable.Valid() && AllConsistent(done)
    requires memtable.Model() == Replay(EMPTY, done) && wal.file == EncodeAll(done)
    modifies memtable, wal
    ensures memtable.Valid()
    ensures memtable.Model() == Replay(EMPTY, done + FileEntries(dir, name))
    ensures wal.file == EncodeAll(done + FileEntries(dir, name))
  {
    var found := FileEntries(dir, name);
    ConcatConsistent(done, found);
    match dir[name] {
      case Unopenable =>
        assert done + found == done;
      case Readable(bytes) =>
        ReplayInto(bytes, memtable, wal);
        ReplayConcat(EMPTY, done, found);
        EncodeAllConcat(done, found);
    }
  }

  /**
   * `Wal::load_from_dir`. `listing` is the directory listing of log files taken before
   * the new log `newName` is created. Each listed file is replayed, in ascending name
   * order, into a fresh MemTable and re-appended to the new log; files that cannot be
   * opened are skipped. Afterwards every listed file is removed and the new log holds
   * the re-encoded records.
   */
  method LoadFromDir(dir: Directory, listing: seq<FileName>, newName: FileName)
    returns (wal: Wal, memtable: MemTable, after: Directory)
    requires forall i :: 0 <= i < |listing| ==> listing[i] in dir
    requires newName !in dir
    ensures fresh(wal) && fresh(memtable) && memtable.Valid()
    ensures wal.path == newName
    ensures memtable.Model() == Replay(EMPTY, Recovered(dir, SortNames(listing)))
    ensures wal.file == EncodeAll(Recovered(dir, SortNames(listing)))
    ensures after == (dir - set n | n in listing)[newName := Readable(wal.file)]
  {
    var names := SortNames(listing);
    memtable := new MemTable();
    wal := new Wal(newName);
    var current := dir[newName := Readable(wal.file)];
    ghost var done: seq<WalEntry> := [];
    var i := 0;
    while i < |names|
      invariant 0 <= i <= |names|
      invariant fresh(wal) && fresh(memtable) && memtable.Valid() && wal.path == newName
      invariant done == Recovered(dir, names[..i])
      invariant memtable.Model() == Replay(EMPTY, done)
      invariant wal.file == EncodeAll(done)
    {
      var name := names[i];
      assert name in multiset(listing) by {
        assert name in multiset(names);
      }
      RecoveredAppend(dir, names, i);
      RecoverFile(dir, name, memtable, wal, done);
      done := done + FileEntries(dir, name);
      i := i + 1;
    }
    assert names[..i] == names;
    current := current[newName := Readable(wal.file)];
    after := current - set n | n in listing;
    RemoveListed(dir, listing, newName, wal.file);
  }

  // ----- The unit tests of wal.rs, on the model -----

  /** `test_read_wal_none`: with no log files, the MemTable and the new log are empty. */
  method ReadNoneExample(dir: Directory, newName: FileName) returns (len: nat, logLength: nat)
    requires newName !in dir
    ensures len == 0 && logLength == 0
  {
    var wal, memtable, after := LoadFromDir(dir, [], newName);
    assert SortNames([]) == [];
    len := memtable.Len();
    logLength := |wal.file|;
  }

}
