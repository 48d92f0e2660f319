/**
 * The Plain-Table rows of an SSTable: the row type and its byte, the 64-bit trailer
 * that packs row type and sequence number, the decoders `read_key`, `read_value`
 * and `read_key_value`, the prefix-index lookup `get` with its `linear_search`, and
 * the loop of `write` that emits one row per MemTable entry.
 *
 * A Rust panic (a slice out of range, an invalid row-type byte) is an explicit
 * `Panic` outcome; `None` is kept for the `Option` the source returns.
 */
module PlainTable {
  import opened Wrappers
  import opened Bytes
  import opened Memtable

  /** `PREFIX_LENGTH`: the bytes of a key the index is keyed by. */
  const PREFIX_LENGTH: nat := 10

  /** `SEQUENCE_ID`: the sequence number every row is written with. */
  const SEQUENCE_ID: u64 := 42

  /** `1 << 24`: the row type occupies bits 24..31 of the trailer word. */
  const TYPE_SHIFT: nat := 0x100_0000

  datatype RowType = Deletion | Value | Merge

  /** Why a Rust function panicked. */
  datatype Fault = SliceOutOfRange | InvalidRowType(b: byte)

  /** The result of code that may panic. */
  datatype Outcome<T> = Ok(value: T) | Panic(fault: Fault)

  // ----- Row types -----

  /** `u8::from(RowType)`: the `repr(u8)` discriminant. */
  function RowTypeByte(t: RowType): (b: byte)
    ensures b < 3
  {
    match t
    case Deletion => 0
    case Value => 1
    case Merge => 2
  }

  /** `RowType::from(u8)`: 0, 1 and 2 name the types; any other byte panics. */
  function RowTypeFromByte(b: byte): (r: Outcome<RowType>)
    ensures r.Ok? <==> b < 3
    ensures r.Ok? ==> RowTypeByte(r.value) == b
    ensures r.Panic? ==> r.fault == InvalidRowType(b)
  {
    if b == 0 then Ok(Deletion)
    else if b == 1 then Ok(Value)
    else if b == 2 then Ok(Merge)
    else Panic(InvalidRowType(b))
  }

  lemma RowTypeRoundTrip(t: RowType)
    ensures RowTypeFromByte(RowTypeByte(t)) == Ok(t)
  {
  }

  // ----- The trailer word -----

  /** `(w & (0xFF << 24)) >> 24`: bits 24..31 of the trailer. */
  function RowTypeBits(w: u64): byte
  {
    (w / TYPE_SHIFT) % 0x100
  }

  /** `w & !(0xFF << 24)`: the trailer with bits 24..31 cleared. */
  function SequenceBits(w: u64): (s: u64)
    ensures RowTypeBits(s) == 0
    ensures s == w - RowTypeBits(w) * TYPE_SHIFT
  {
    TrailerSplit(w);
    (w / 0x1_0000_0000) * 0x1_0000_0000 + w % TYPE_SHIFT
  }

  /** A word is its bits above 32, its type bits and its low 24 bits. */
  lemma TrailerSplit(w: nat)
    ensures w == (w / 0x1_0000_0000) * 0x1_0000_0000 + ((w / TYPE_SHIFT) % 0x100) * TYPE_SHIFT + w % TYPE_SHIFT
    ensures ((w / 0x1_0000_0000) * 0x1_0000_0000 + w % TYPE_SHIFT) / TYPE_SHIFT % 0x100 == 0
  {
    var h := w / 0x1_0000_0000;
    var l := w % TYPE_SHIFT;
    assert w / TYPE_SHIFT == h * 0x100 + (w / TYPE_SHIFT) % 0x100;
    assert (h * 0x1_0000_0000 + l) / TYPE_SHIFT == h * 0x100 by {
      assert h * 0x1_0000_0000 + l == (h * 0x100) * TYPE_SHIFT + l;
    }
  }

  /**
   * The trailer `write` packs: `((t as u64) << 24) | (s & !(0xFF << 24))`. The two
   * operands of `|` have no set bit in common, so the `|` is a sum.
   */
  function PackTrailer(t: RowType, s: u64): u64
  {
    TrailerSplit(s);
    RowTypeByte(t) * TYPE_SHIFT + SequenceBits(s)
  }

  /** The parts of `h * 2^32 + b * 2^24 + l`, for a byte `b` and `l` below `2^24`. */
  lemma Unpack(h: nat, b: nat, l: nat)
    requires b < 0x100 && l < TYPE_SHIFT
    ensures var w := h * 0x1_0000_0000 + b * TYPE_SHIFT + l;
      && (w / TYPE_SHIFT) % 0x100 == b
      && w % TYPE_SHIFT == l
      && w / 0x1_0000_0000 == h
  {
    var w := h * 0x1_0000_0000 + b * TYPE_SHIFT + l;
    assert w == (h * 0x100 + b) * TYPE_SHIFT + l;
    assert w / TYPE_SHIFT == h * 0x100 + b;
    assert (h * 0x100 + b) % 0x100 == b;
    assert w == h * 0x1_0000_0000 + (b * TYPE_SHIFT + l) && b * TYPE_SHIFT + l < 0x1_0000_0000;
  }

  /** Unpacking a packed trailer gives back the row type's byte and `s & !(0xFF << 24)`. */
  lemma TrailerRoundTrip(t: RowType, s: u64)
    ensures RowTypeBits(PackTrailer(t, s)) == RowTypeByte(t)
    ensures SequenceBits(PackTrailer(t, s)) == SequenceBits(s)
  {
    var c := SequenceBits(s);
    var h := c / 0x1_0000_0000;
    var l := c % TYPE_SHIFT;
    var b := RowTypeByte(t);
    TrailerSplit(c);
    assert c == h * 0x1_0000_0000 + l;
    var w := PackTrailer(t, s);
    assert w == h * 0x1_0000_0000 + b * TYPE_SHIFT + l;
    Unpack(h, b, l);
    assert RowTypeBits(w) == b;
    assert SequenceBits(w) == h * 0x1_0000_0000 + l;
  }

  /**
   * The row type is byte 3 of the little-endian trailer, not its top byte 7 as the
   * format's diagram draws it.
   */
  lemma TrailerTypeByte(w: u64)
    ensures ToLE(w, 8)[3] == RowTypeBits(w)
  {
    var a, b, c := w / 0x100, w / 0x100 / 0x100, w / 0x100 / 0x100 / 0x100;
    assert ToLE(w, 8)[3] == ToLE(a, 7)[2] == ToLE(b, 6)[1] == ToLE(c, 5)[0] == c % 0x100;
    assert (w / 0x100) / 0x100 == w / 0x1_0000;
    assert (w / 0x1_0000) / 0x100 == w / TYPE_SHIFT;
  }

  /** A sequence number below `1 << 24`, such as `SEQUENCE_ID`, survives the mask. */
  lemma SmallSequence(s: u64)
    requires s < TYPE_SHIFT
    ensures SequenceBits(s) == s
  {
  }

  // ----- Decoding rows -----

  datatype KeyParts = KeyParts(key: seq<byte>, rowType: RowType, sequenceId: u64, offset: nat)
  datatype ValueParts = ValueParts(value: seq<byte>, offset: nat)
  datatype KeyValueParts = KeyValueParts(key: seq<byte>, rowType: RowType, sequenceId: u64, value: seq<byte>, nextIncrement: nat)

  /**
   * `read_key`: a 4-byte little-endian key length, the key and the 8-byte trailer.
   * `offset` is where the value part begins. Slicing the key or the trailer beyond
   * `data` panics, as does a type byte other than 0, 1 and 2.
   */
  function ReadKey(data: seq<byte>): (r: Outcome<KeyParts>)
    ensures r.Ok? ==> && 4 <= |data|
                      && |r.value.key| == FromLE(data[..4])
                      && r.value.offset == 12 + |r.value.key| <= |data|
                      && r.value.key == data[4..4 + |r.value.key|]
    ensures (|data| < 4 || |data| < 12 + FromLE(data[..4])) ==> r == Panic(SliceOutOfRange)
  {
    Pow256Widths();
    if |data| < 4 then Panic(SliceOutOfRange)
    else
      var keyOffset := 4 + FromLE(data[..4]);
      if |data| < keyOffset + 8 then Panic(SliceOutOfRange)
      else
        var internal := FromLE(data[keyOffset..keyOffset + 8]);
        match RowTypeFromByte(RowTypeBits(internal))
        case Panic(f) => Panic(f)
        case Ok(t) => Ok(KeyParts(data[4..keyOffset], t, SequenceBits(internal), keyOffset + 8))
  }

  /** `read_value`: a 4-byte little-endian value length and the value; `offset` is just past it. */
  function ReadValue(data: seq<byte>): (r: Outcome<ValueParts>)
    ensures r.Ok? <==> 4 <= |data| && 4 + FromLE(data[..4]) <= |data|
    ensures r.Ok? ==> && r.value.offset == 4 + |r.value.value|
                      && |r.value.value| == FromLE(data[..4])
                      && r.value.value == data[4..r.value.offset]
    ensures r.Panic? ==> r.fault == SliceOutOfRange
  {
    if |data| < 4 then Panic(SliceOutOfRange)
    else
      var offset := 4 + FromLE(data[..4]);
      if |data| < offset then Panic(SliceOutOfRange)
      else Ok(ValueParts(data[4..offset], offset))
  }

  /**
   * `read_key_value`: the key part, then the value part read from where the key part
   * ends. The last component is the value part's `offset`: it counts from the start
   * of the value part, not from the start of the row.
   */
  function ReadKeyValue(data: seq<byte>): (r: Outcome<KeyValueParts>)
    ensures r.Ok? ==> && r.value.nextIncrement == 4 + |r.value.value|
                      && 12 + |r.value.key| + r.value.nextIncrement <= |data|
  {
    match ReadKey(data)
    case Panic(f) => Panic(f)
    case Ok(k) =>
      match ReadValue(data[k.offset..])
      case Panic(f) => Panic(f)
      case Ok(v) => Ok(KeyValueParts(k.key, k.rowType, k.sequenceId, v.value, v.offset))
  }

  // ----- Lookup -----

  datatype SSTableRow = SSTableRow(key: seq<byte>, rowType: RowType, sequenceId: u64, value: seq<byte>)

  /**
   * `PlainSSTable`: the mapped file's bytes and the index from key prefixes to
   * offsets. The source never fills the index, so it is an input here.
   */
  datatype PlainSSTable = PlainSSTable(data: seq<byte>, index: map<seq<byte>, nat>)

  /** `key_prefix`: the first `PREFIX_LENGTH` bytes; a shorter key panics. */
  function KeyPrefix(key: seq<byte>): (r: Outcome<seq<byte>>)
    ensures r.Ok? <==> |key| >= PREFIX_LENGTH
    ensures r.Ok? ==> |r.value| == PREFIX_LENGTH && r.value <= key
    ensures r.Panic? ==> r.fault == SliceOutOfRange
  {
    if |key| < PREFIX_LENGTH then Panic(SliceOutOfRange) else Ok(key[..PREFIX_LENGTH])
  }

  /** `key_prefix(key) == key_prefix(row_key)`: either key shorter than the prefix panics. */
  function SamePrefix(key: seq<byte>, rowKey: seq<byte>): (r: Outcome<bool>)
    ensures r.Ok? <==> |key| >= PREFIX_LENGTH && |rowKey| >= PREFIX_LENGTH
    ensures r.Ok? ==> (r.value <==> key[..PREFIX_LENGTH] == rowKey[..PREFIX_LENGTH])
  {
    match KeyPrefix(key)
    case Panic(f) => Panic(f)
    case Ok(keyPrefix) =>
      match KeyPrefix(rowKey)
      case Panic(f) => Panic(f)
      case Ok(rowPrefix) => Ok(keyPrefix == rowPrefix)
  }

  /** How one turn of `linear_search` ends: with a result, or by moving on to `next`. */
  datatype Turn = Stop(result: Outcome<Option<SSTableRow>>) | Advance(next: nat)

  /**
   * One turn of `linear_search` at `offset`: the row there has the key (found), or
   * decoding it or a prefix panics, or its prefix differs from the key's (not found),
   * or the search moves on `nextIncrement` bytes.
   */
  function TurnAt(data: seq<byte>, key: seq<byte>, offset: nat): (t: Turn)
    requires offset < |data|
    ensures t.Advance? ==> t.next >= offset + 4
    ensures t.Advance? ==>
      && ReadKeyValue(data[offset..]).Ok?
      && var p := ReadKeyValue(data[offset..]).value;
         p.key != key && |key| >= PREFIX_LENGTH && |p.key| >= PREFIX_LENGTH
         && key[..PREFIX_LENGTH] == p.key[..PREFIX_LENGTH] && t.next == offset + p.nextIncrement
    ensures t == Stop(Ok(None)) ==>
      && ReadKeyValue(data[offset..]).Ok?
      && SamePrefix(key, ReadKeyValue(data[offset..]).value.key) == Ok(false)
    ensures t.Stop? && t.result.Ok? && t.result.value.Some? ==> t.result.value.value.key == key
  {
    match ReadKeyValue(data[offset..])
    case Panic(f) => Stop(Panic(f))
    case Ok(p) =>
      if p.key == key then Stop(Ok(Some(SSTableRow(p.key, p.rowType, p.sequenceId, p.value))))
      else
        match SamePrefix(key, p.key)
        case Panic(f) => Stop(Panic(f))
        case Ok(same) => if !same then Stop(Ok(None)) else Advance(offset + p.nextIncrement)
  }

  /**
   * What `linear_search` returns from `offset` on: the first row whose key is `key`,
   * or `None` at the first row whose prefix differs from the key's or once the offset
   * reaches the end. After a row is passed over the search goes on `nextIncrement`
   * bytes further, as the source does.
   */
  function SearchFrom(data: seq<byte>, key: seq<byte>, offset: nat): (r: Outcome<Option<SSTableRow>>)
    ensures r.Ok? && r.value.Some? ==> r.value.value.key == key
    decreases |data| - offset
  {
    if offset >= |data| then Ok(None)
    else
      match TurnAt(data, key, offset)
      case Stop(r) => r
      case Advance(next) => SearchFrom(data, key, next)
  }

  /** The body of the `linear_search` loop at `offset`. */
  method SearchStep(data: seq<byte>, key: seq<byte>, offset: nat) returns (t: Turn)
    requires offset < |data|
    ensures t == TurnAt(data, key, offset)
  {
    var parts := ReadKeyValue(data[offset..]);
    if parts.Panic? {
      return Stop(Panic(parts.fault));
    }
    var p := parts.value;
    if p.key == key {
      return Stop(Ok(Some(SSTableRow(p.key, p.rowType, p.sequenceId, p.value))));
    }
    var same := SamePrefix(key, p.key);
    if same.Panic? {
      return Stop(Panic(same.fault));
    }
    if !same.value {
      return Stop(Ok(None));
    }
    return Advance(offset + p.nextIncrement);
  }

  /** `PlainSSTable::linear_search`: the loop; each turn advances `offset` by at least 4. */
  method LinearSearch(table: PlainSSTable, key: seq<byte>, start: nat) returns (r: Outcome<Option<SSTableRow>>)
    ensures r == SearchFrom(table.data, key, start)
    ensures r.Ok? && r.value.Some? ==> r.value.value.key == key
  {
    var data := table.data;
    ghost var result := SearchFrom(data, key, start);
    var offset := start;
    while offset < |data|
      invariant SearchFrom(data, key, offset) == result
      decreases |data| - offset
    {
      var t := SearchStep(data, key, offset);
      match t {
        case Stop(found) =>
          return found;
        case Advance(next) =>
          offset := next;
      }
    }
    return Ok(None);
  }

  /**
   * What `get` returns: a key shorter than the prefix panics, a prefix the index
   * lacks gives `None`, and otherwise the search runs from the indexed offset.
   */
  function Lookup(table: PlainSSTable, key: seq<byte>): (r: Outcome<Option<SSTableRow>>)
    ensures |key| < PREFIX_LENGTH ==> r == Panic(SliceOutOfRange)
    ensures |key| >= PREFIX_LENGTH && key[..PREFIX_LENGTH] !in table.index ==> r == Ok(None)
    ensures r.Ok? && r.value.Some? ==> r.value.value.key == key
  {
    match KeyPrefix(key)
    case Panic(f) => Panic(f)
    case Ok(prefix) =>
      if prefix !in table.index then Ok(None) else SearchFrom(table.data, key, table.index[prefix])
  }

  /** `PlainSSTable::get`. */
  method Get(table: PlainSSTable, key: seq<byte>) returns (r: Outcome<Option<SSTableRow>>)
    ensures r == Lookup(table, key)
  {
    var prefix := KeyPrefix(key);
    if prefix.Panic? {
      return Panic(prefix.fault);
    }
    if prefix.value !in table.index {
      return Ok(None);
    }
    r := LinearSearch(table, key, table.index[prefix.value]);
  }

  // ----- Writing rows -----

  /** The row type `write` gives an entry. */
  function RowTypeOf(e: MemTableEntry): RowType
  {
    if e.deleted then Deletion else Value
  }

  /**
   * The bytes `write` emits for one entry: the key length truncated to 32 bits, the
   * key, the trailer with `SEQUENCE_ID`, and the value length (0 for a tombstone).
   * The value's own bytes are not written.
   */
  function EncodeRow(e: MemTableEntry): seq<byte>
    requires e.deleted || e.value.Some?
  {
    ToLE(|e.key| % U32_LIMIT, 4) + (e.key + (Trailer(e) + ValueLength(e)))
  }

  /** The trailer bytes of an entry's row. */
  function Trailer(e: MemTableEntry): seq<byte>
  {
    ToLE(PackTrailer(RowTypeOf(e), SEQUENCE_ID), 8)
  }

  /** The value-length bytes of an entry's row: 0 for a tombstone. */
  function ValueLength(e: MemTableEntry): seq<byte>
    requires e.deleted || e.value.Some?
  {
    ToLE(if e.deleted then 0 else |e.value.value| % U32_LIMIT, 4)
  }

  predicate Writable(es: seq<MemTableEntry>)
  {
    forall i :: 0 <= i < |es| ==> es[i].deleted || es[i].value.Some?
  }

  /** The rows of `es`, in order. */
  function EncodeRows(es: seq<MemTableEntry>): seq<byte>
    requires Writable(es)
  {
    if es == [] then [] else EncodeRows(es[..|es| - 1]) + EncodeRow(es[|es| - 1])
  }

  lemma Append4(out: seq<byte>, a: seq<byte>, b: seq<byte>, c: seq<byte>, d: seq<byte>)
    ensures out + a + b + c + d == out + (a + (b + (c + d)))
  {
  }

  /** The body of the row loop of `write`: one entry's four fields appended to `out`. */
  method AppendRow(out: seq<byte>, entry: MemTableEntry) returns (out': seq<byte>)
    requires entry.deleted || entry.value.Some?
    ensures out' == out + EncodeRow(entry)
  {
    var keyLen := ToLE(|entry.key| % U32_LIMIT, 4);
    out' := out + keyLen;
    out' := out' + entry.key;
    var rowType := if entry.deleted then Deletion else Value;
    var internal := ToLE(PackTrailer(rowType, SEQUENCE_ID), 8);
    out' := out' + internal;
    var valueLen;
    if rowType == Deletion {
      valueLen := ToLE(0, 4);
    } else {
      valueLen := ToLE(|entry.value.value| % U32_LIMIT, 4);
    }
    out' := out' + valueLen;
    Append4(out, keyLen, entry.key, internal, valueLen);
  }

  /**
   * The row loop of `write`: for each entry of the MemTable, in order, its key length,
   * key, trailer and value length. The property block and footer after the loop are
   * `todo!()` in the source.
   */
  method WriteRows(memtable: MemTable) returns (out: seq<byte>)
    requires memtable.Valid()
    ensures out == EncodeRows(memtable.entries)
  {
    out := [];
    var i := 0;
    while i < |memtable.entries|
      invariant 0 <= i <= |memtable.entries|
      invariant Writable(memtable.entries[..i])
      invariant out == EncodeRows(memtable.entries[..i])
    {
      var entry := memtable.entries[i];
      assert entry.deleted || entry.value.Some? by {
        assert Memtable.Consistent(memtable.entries[i]);
      }
      out := AppendRow(out, entry);
      assert memtable.entries[..i + 1][..i] == memtable.entries[..i];
      i := i + 1;
    }
    assert memtable.entries[..i] == memtable.entries;
  }

  // ----- Lemmas about written rows -----

  /** A row is 16 bytes besides the key: no value bytes are written. */
  lemma RowLength(e: MemTableEntry)
    requires e.deleted || e.value.Some?
    ensures |EncodeRow(e)| == 16 + |e.key|
  {
  }

  lemma WritableConcat(a: seq<MemTableEntry>, b: seq<MemTableEntry>)
    requires Writable(a) && Writable(b)
    ensures Writable(a + b)
  {
    forall i | 0 <= i < |a + b| ensures (a + b)[i].deleted || (a + b)[i].value.Some? {
      if i < |a| { assert (a + b)[i] == a[i]; } else { assert (a + b)[i] == b[i - |a|]; }
    }
  }

  /** Rows of consecutive entries lie end to end. */
  lemma {:induction false} EncodeRowsConcat(a: seq<MemTableEntry>, b: seq<MemTableEntry>)
    requires Writable(a) && Writable(b)
    ensures Writable(a + b) && EncodeRows(a + b) == EncodeRows(a) + EncodeRows(b)
  {
    WritableConcat(a, b);
    if b == [] {
      assert a + b == a;
    } else {
      var init := b[..|b| - 1];
      var last := b[|b| - 1];
      assert Writable(init) by {
        forall i | 0 <= i < |init| ensures init[i].deleted || init[i].value.Some? {
          assert init[i] == b[i];
        }
      }
      EncodeRowsConcat(a, init);
      assert (a + b)[..|a + b| - 1] == a + init;
      assert (a + b)[|a + b| - 1] == last;
      assert EncodeRows(a + b) == EncodeRows(a + init) + EncodeRow(last);
      ConcatAssoc(EncodeRows(a), EncodeRows(init), EncodeRow(last));
    }
  }

  /** Slicing `a + (b + (c + rest))` at the field boundaries. */
  lemma Fields(a: seq<byte>, b: seq<byte>, c: seq<byte>, rest: seq<byte>)
    ensures var bs := a + (b + (c + rest));
      && bs[..|a|] == a
      && bs[|a|..|a| + |b|] == b
      && bs[|a| + |b|..|a| + |b| + |c|] == c
      && bs[|a| + |b| + |c|..] == rest
  {
    var bs := a + (b + (c + rest));
    assert bs[|a|..] == b + (c + rest);
    assert bs[|a| + |b|..] == c + rest;
  }

  lemma AppendTail(a: seq<byte>, b: seq<byte>, c: seq<byte>, d: seq<byte>, tail: seq<byte>)
    ensures a + (b + (c + d)) + tail == a + (b + (c + (d + tail)))
  {
  }

  /** Slicing four fields `a`, `b`, `c`, `d` laid end to end in front of `tail`. */
  lemma Layout(a: seq<byte>, b: seq<byte>, c: seq<byte>, d: seq<byte>, tail: seq<byte>)
    ensures var bs := a + (b + (c + d)) + tail;
      && |bs| == |a| + |b| + |c| + |d| + |tail|
      && bs[..|a|] == a
      && bs[|a|..|a| + |b|] == b
      && bs[|a| + |b|..|a| + |b| + |c|] == c
      && bs[|a| + |b| + |c|..] == d + tail
  {
    AppendTail(a, b, c, d, tail);
    Fields(a, b, c, d + tail);
  }

  /** The fields of a written row, one slice at a time. */
  lemma RowLayout(e: MemTableEntry, tail: seq<byte>)
    requires e.deleted || e.value.Some?
    requires |e.key| < U32_LIMIT
    ensures var bs := EncodeRow(e) + tail;
      var k := |e.key|;
      && |bs| == 16 + k + |tail|
      && bs[..4] == ToLE(k, 4)
      && bs[4..4 + k] == e.key
      && bs[4 + k..12 + k] == Trailer(e)
      && bs[12 + k..] == ValueLength(e) + tail
  {
    assert |e.key| % U32_LIMIT == |e.key|;
    Layout(ToLE(|e.key|, 4), e.key, Trailer(e), ValueLength(e), tail);
  }

  /** `read_key` on bytes holding a key length, that many key bytes and a trailer word `w`. */
  lemma ReadKeyFields(bs: seq<byte>, key: seq<byte>, w: u64)
    requires |bs| >= 12 + |key| && FromLE(bs[..4]) == |key| && bs[4..4 + |key|] == key
    requires FromLE(bs[4 + |key|..12 + |key|]) == w && RowTypeBits(w) < 3
    ensures ReadKey(bs) == Ok(KeyParts(key, RowTypeFromByte(RowTypeBits(w)).value, SequenceBits(w), 12 + |key|))
  {
  }

  /** `read_key` on a written row gives back its key, its type and `SEQUENCE_ID`. */
  lemma ReadKeyOfRow(e: MemTableEntry, tail: seq<byte>)
    requires e.deleted || e.value.Some?
    requires |e.key| < U32_LIMIT
    ensures ReadKey(EncodeRow(e) + tail) == Ok(KeyParts(e.key, RowTypeOf(e), SEQUENCE_ID, 12 + |e.key|))
  {
    Pow256Widths();
    RowLayout(e, tail);
    FromToLE(|e.key|, 4);
    var w := PackTrailer(RowTypeOf(e), SEQUENCE_ID);
    FromToLE(w, 8);
    TrailerRoundTrip(RowTypeOf(e), SEQUENCE_ID);
    SmallSequence(SEQUENCE_ID);
    RowTypeRoundTrip(RowTypeOf(e));
    ReadKeyFields(EncodeRow(e) + tail, e.key, w);
  }

  /** `read_value` on a value length `v` in front of `tail` takes `v` bytes of `tail`. */
  lemma ReadValueOfLength(v: nat, tail: seq<byte>)
    requires v < U32_LIMIT
    ensures ReadValue(ToLE(v, 4) + tail) ==
      if |tail| < v then Panic(SliceOutOfRange) else Ok(ValueParts(tail[..v], 4 + v))
  {
    Pow256Widths();
    FromToLE(v, 4);
    var bs := ToLE(v, 4) + tail;
    assert bs[..4] == ToLE(v, 4);
    if |tail| >= v {
      assert bs[4..4 + v] == tail[..v];
    }
  }

  /** `read_key_value` on a key part followed by a value length `v` and `tail`. */
  lemma ReadKeyValueFields(bs: seq<byte>, k: KeyParts, v: nat, tail: seq<byte>)
    requires ReadKey(bs) == Ok(k) && v < U32_LIMIT && bs[k.offset..] == ToLE(v, 4) + tail
    ensures ReadKeyValue(bs) ==
      if |tail| < v then Panic(SliceOutOfRange)
      else Ok(KeyValueParts(k.key, k.rowType, k.sequenceId, tail[..v], 4 + v))
  {
    ReadValueOfLength(v, tail);
  }

  /** The value part of a written row in front of `tail`: the value length `v`, then `tail`. */
  lemma RowValuePart(e: MemTableEntry, tail: seq<byte>, v: nat)
    requires e.deleted || e.value.Some?
    requires |e.key| < U32_LIMIT && v == (if e.deleted then 0 else |e.value.value|) && v < U32_LIMIT
    ensures (EncodeRow(e) + tail)[12 + |e.key|..] == ToLE(v, 4) + tail
  {
    RowLayout(e, tail);
    assert (if e.deleted then 0 else |e.value.value| % U32_LIMIT) == v;
  }

  /** `read_key_value` on a written row: its key part, then the value part after it. */
  lemma ReadRow(e: MemTableEntry, tail: seq<byte>)
    requires e.deleted || e.value.Some?
    requires |e.key| < U32_LIMIT && (!e.deleted ==> |e.value.value| < U32_LIMIT)
    ensures var v := if e.deleted then 0 else |e.value.value|;
      ReadKeyValue(EncodeRow(e) + tail) ==
        if |tail| < v then Panic(SliceOutOfRange)
        else Ok(KeyValueParts(e.key, RowTypeOf(e), SEQUENCE_ID, tail[..v], 4 + v))
  {
    var v := if e.deleted then 0 else |e.value.value|;
    ReadKeyOfRow(e, tail);
    RowValuePart(e, tail, v);
    ReadKeyValueFields(EncodeRow(e) + tail, KeyParts(e.key, RowTypeOf(e), SEQUENCE_ID, 12 + |e.key|), v, tail);
  }

  /** A written tombstone reads back whole: key, `Deletion`, `SEQUENCE_ID`, an empty value. */
  lemma TombstoneRowRoundTrip(e: MemTableEntry, tail: seq<byte>)
    requires e.deleted && |e.key| < U32_LIMIT
    ensures ReadKeyValue(EncodeRow(e) + tail) == Ok(KeyValueParts(e.key, Deletion, SEQUENCE_ID, [], 4))
  {
    ReadRow(e, tail);
  }

  /**
   * A written live row has a value length but no value: `read_key_value` takes the
   * `|value|` bytes that follow the row as its value, and panics when fewer follow.
   */
  lemma LiveRowTakesFollowingBytes(e: MemTableEntry, tail: seq<byte>)
    requires !e.deleted && e.value.Some?
    requires |e.key| < U32_LIMIT && |e.value.value| < U32_LIMIT
    ensures var v := |e.value.value|;
      ReadKeyValue(EncodeRow(e) + tail) ==
        if |tail| < v then Panic(SliceOutOfRange)
        else Ok(KeyValueParts(e.key, Value, SEQUENCE_ID, tail[..v], 4 + v))
  {
    ReadRow(e, tail);
  }

  // ----- The value-relative increment, on two written rows -----

  /** The keys `0123456789A` and `0123456789B`, byte by byte. */
  const KEY_A: Bytes := [0x30, 0x31, 0x32, 0x33, 0x34, 0x35, 0x36, 0x37, 0x38, 0x39, 0x41]
  const KEY_B: Bytes := [0x30, 0x31, 0x32, 0x33, 0x34, 0x35, 0x36, 0x37, 0x38, 0x39, 0x42]

  /** Two tombstones whose keys share the prefix `0123456789`, written one after the other. */
  function TwoRows(): seq<byte>
  {
    EncodeRow(MemTableEntry(KEY_A, None, 0, true)) + EncodeRow(MemTableEntry(KEY_B, None, 0, true))
  }

  /** The table of those two rows with the shared prefix indexed at offset 0. */
  function TwoRowTable(): PlainSSTable
  {
    PlainSSTable(TwoRows(), map[KEY_A[..PREFIX_LENGTH] := 0])
  }

  /** The first row of the prefix is found. */
  lemma FirstRowOfPrefixFound()
    ensures Lookup(TwoRowTable(), KEY_A) == Ok(Some(SSTableRow(KEY_A, Deletion, SEQUENCE_ID, [])))
  {
    var rowB := EncodeRow(MemTableEntry(KEY_B, None, 0, true));
    TombstoneRowRoundTrip(MemTableEntry(KEY_A, None, 0, true), rowB);
    assert TwoRows()[0..] == TwoRows();
  }

  /** At offset 0 the search passes row A, which shares the prefix, and moves on 4 bytes. */
  lemma FirstTurnMovesFour()
    ensures TurnAt(TwoRows(), KEY_B, 0) == Advance(4)
  {
    var eB := MemTableEntry(KEY_B, None, 0, true);
    TombstoneRowRoundTrip(MemTableEntry(KEY_A, None, 0, true), EncodeRow(eB));
    assert TwoRows()[0..] == TwoRows();
    assert KEY_B[..PREFIX_LENGTH] == KEY_A[..PREFIX_LENGTH] && KEY_A[10] != KEY_B[10];
  }

  /** At offset 4 the key bytes `0123` read as a key length far beyond the data. */
  lemma SecondTurnPanics()
    ensures TurnAt(TwoRows(), KEY_B, 4) == Stop(Panic(SliceOutOfRange))
  {
    var eA := MemTableEntry(KEY_A, None, 0, true);
    var eB := MemTableEntry(KEY_B, None, 0, true);
    RowLength(eA);
    RowLength(eB);
    RowLayout(eA, EncodeRow(eB));
    var s := TwoRows()[4..];
    assert s[..4] == KEY_A[..4];
    assert s[..4][1] == 0x31;
    assert FromLE(s[..4]) >= 0x100 * FromLE(s[..4][1..]) >= 0x100 * (s[..4][1] as int);
    assert ReadKey(s) == Panic(SliceOutOfRange);
  }

  /** Row B, searched for from its own offset 27, is found. */
  lemma SecondRowAtItsOffset()
    ensures SearchFrom(TwoRows(), KEY_B, 27) == Ok(Some(SSTableRow(KEY_B, Deletion, SEQUENCE_ID, [])))
  {
    var eA := MemTableEntry(KEY_A, None, 0, true);
    var eB := MemTableEntry(KEY_B, None, 0, true);
    RowLength(eA);
    TombstoneRowRoundTrip(eB, []);
    assert TwoRows()[27..] == EncodeRow(eB) + [];
  }

  /**
   * The second row of the prefix is missed: it starts at offset 27, but after the
   * first row the search moves on only `4 + |value|` = 4 bytes, reads the key bytes
   * `0123` there as a key length of 858927408 and panics slicing past the end.
   */
  lemma SecondRowOfPrefixMissed()
    ensures Lookup(TwoRowTable(), KEY_B) == Panic(SliceOutOfRange)
    ensures SearchFrom(TwoRows(), KEY_B, 27) == Ok(Some(SSTableRow(KEY_B, Deletion, SEQUENCE_ID, [])))
  {
    RowLength(MemTableEntry(KEY_A, None, 0, true));
    FirstTurnMovesFour();
    SecondTurnPanics();
    assert SearchFrom(TwoRows(), KEY_B, 4) == Panic(SliceOutOfRange);
    assert SearchFrom(TwoRows(), KEY_B, 0) == Panic(SliceOutOfRange);
    assert KEY_B[..PREFIX_LENGTH] == KEY_A[..PREFIX_LENGTH];
    SecondRowAtItsOffset();
  }
}
