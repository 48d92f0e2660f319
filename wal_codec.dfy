/**
 * The byte layout of one write-ahead-log record, little-endian throughout:
 *
 *   key length (8 bytes) | tombstone flag (1 byte) | value length (8 bytes, live records only)
 *   | key | value (live records only) | timestamp (16 bytes)
 *
 * `EncodeSet` and `EncodeDelete` are what `Wal::set` and `Wal::delete` append;
 * `DecodeNext` is one step of `WalIterator::next` and `DecodeAll` the whole iteration.
 */
module WalCodec {
  import opened Wrappers
  import opened Bytes

  /** Width of the key and value length fields: a 64-bit `usize`. */
  const LEN_SIZE: nat := 8
  /** Width of the tombstone flag. */
  const FLAG_SIZE: nat := 1

  datatype WalEntry = WalEntry(key: Bytes, value: Option<Bytes>, timestamp: u128, deleted: bool)

  /** A tombstone carries no value and a live record carries one. */
  predicate Consistent(e: WalEntry)
  {
    e.value.None? <==> e.deleted
  }

  /** Replay can take the value of every record that is not a tombstone. */
  predicate Replayable(es: seq<WalEntry>)
  {
    forall i :: 0 <= i < |es| ==> es[i].deleted || es[i].value.Some?
  }

  predicate AllConsistent(es: seq<WalEntry>)
  {
    forall i :: 0 <= i < |es| ==> Consistent(es[i])
  }

  /** Everything `Wal::set` appends before the timestamp. */
  function LiveHead(key: Bytes, value: Bytes): seq<byte>
  {
    ToLE(|key|, LEN_SIZE) + ([0] + (ToLE(|value|, LEN_SIZE) + (key + value)))
  }

  /** Everything `Wal::delete` appends before the timestamp. */
  function TombstoneHead(key: Bytes): seq<byte>
  {
    ToLE(|key|, LEN_SIZE) + ([1] + key)
  }

  /** The bytes `Wal::set` appends. */
  function EncodeSet(key: Bytes, value: Bytes, timestamp: u128): seq<byte>
  {
    LiveHead(key, value) + ToLE(timestamp, TIMESTAMP_SIZE)
  }

  /** The bytes `Wal::delete` appends. */
  function EncodeDelete(key: Bytes, timestamp: u128): seq<byte>
  {
    TombstoneHead(key) + ToLE(timestamp, TIMESTAMP_SIZE)
  }

  /** The record that recovery re-appends for a decoded entry. */
  function Encode(e: WalEntry): seq<byte>
    requires e.deleted || e.value.Some?
  {
    if e.deleted then EncodeDelete(e.key, e.timestamp) else EncodeSet(e.key, e.value.value, e.timestamp)
  }

  function EncodeAll(es: seq<WalEntry>): seq<byte>
    requires Replayable(es)
  {
    if es == [] then [] else Encode(es[0]) + EncodeAll(es[1..])
  }

  /** At most `n` bytes from the front of `bs`: what a `read_exact` of `n` bytes gets. */
  function Available(bs: seq<byte>, n: nat): (r: seq<byte>)
    ensures |r| <= n && |r| <= |bs| && r == bs[..|r|]
    ensures |r| == n || r == bs
  {
    if |bs| < n then bs else bs[..n]
  }

  /** The timestamp made of the (at most 16) bytes at the front of `tail`, zero-padded. */
  function Stamp(tail: seq<byte>): u128
  {
    Pow256Widths();
    FromLE(ZeroPadded(Available(tail, TIMESTAMP_SIZE), TIMESTAMP_SIZE))
  }

  /**
   * The rest of a tombstone record after its key length and flag: the key, then the
   * timestamp. The number is the count of bytes consumed from `body`.
   */
  function DecodeTombstoneBody(keyLen: nat, body: seq<byte>): (r: Option<(WalEntry, nat)>)
    requires keyLen < U64_LIMIT
    ensures r.Some? ==> r.value.1 <= |body| && Consistent(r.value.0) && r.value.0.deleted
  {
    if |body| < keyLen then None
    else Some((WalEntry(body[..keyLen], None, Stamp(body[keyLen..]), true),
               keyLen + |Available(body[keyLen..], TIMESTAMP_SIZE)|))
  }

  /** The rest of a live record after its key length, flag and value length: key, value, timestamp. */
  function DecodeLiveBody(keyLen: nat, valueLen: nat, body: seq<byte>): (r: Option<(WalEntry, nat)>)
    requires keyLen < U64_LIMIT && valueLen < U64_LIMIT
    ensures r.Some? ==> r.value.1 <= |body| && Consistent(r.value.0) && !r.value.0.deleted
  {
    if |body| < keyLen + valueLen then None
    else Some((WalEntry(body[..keyLen], Some(body[keyLen..keyLen + valueLen]), Stamp(body[keyLen + valueLen..]), false),
               keyLen + valueLen + |Available(body[keyLen + valueLen..], TIMESTAMP_SIZE)|))
  }

  /** A body decoder's result, with the header's `k` bytes added to the count consumed. */
  function AfterHeader(r: Option<(WalEntry, nat)>, k: nat): Option<(WalEntry, nat)>
  {
    match r
    case None => None
    case Some((e, n)) => Some((e, k + n))
  }

  /**
   * One step of `WalIterator::next` on the unread bytes `bs`: the entry and the number
   * of bytes consumed, or `None` when the key length, flag, value length, key or value
   * is cut short. A cut-short timestamp does not end the step: the bytes present stay
   * in the zeroed 16-byte buffer and make up the timestamp.
   */
  function DecodeNext(bs: seq<byte>): (r: Option<(WalEntry, nat)>)
    ensures r.Some? ==> && 0 < r.value.1 <= |bs|
                        && |bs| > LEN_SIZE
                        && Consistent(r.value.0)
                        && (r.value.0.deleted <==> bs[LEN_SIZE] != 0)
  {
    Pow256Widths();
    if |bs| < LEN_SIZE + FLAG_SIZE then None
    else
      var keyLen := FromLE(bs[..LEN_SIZE]);
      if bs[LEN_SIZE] != 0 then
        AfterHeader(DecodeTombstoneBody(keyLen, bs[LEN_SIZE + FLAG_SIZE..]), LEN_SIZE + FLAG_SIZE)
      else if |bs| < LEN_SIZE + FLAG_SIZE + LEN_SIZE then None
      else
        var valueLen := FromLE(bs[LEN_SIZE + FLAG_SIZE..LEN_SIZE + FLAG_SIZE + LEN_SIZE]);
        AfterHeader(DecodeLiveBody(keyLen, valueLen, bs[LEN_SIZE + FLAG_SIZE + LEN_SIZE..]), LEN_SIZE + FLAG_SIZE + LEN_SIZE)
  }

  /** Every entry the iterator yields over the bytes of one log file, in file order. */
  function DecodeAll(bs: seq<byte>): (es: seq<WalEntry>)
    ensures AllConsistent(es)
    decreases |bs|
  {
    match DecodeNext(bs)
    case None => []
    case Some((e, n)) => [e] + DecodeAll(bs[n..])
  }

  // ----- Lemmas -----

  /** `set` writes 33 bytes besides key and value, `delete` 25 besides the key. */
  lemma EncodedLengths(key: Bytes, value: Bytes, timestamp: u128)
    ensures |EncodeSet(key, value, timestamp)| == 33 + |key| + |value|
    ensures |EncodeDelete(key, timestamp)| == 25 + |key|
  {
  }

  /** `bs` holds a tombstone header of `headLen` bytes for `key`, followed by `tail`. */
  predicate TombstoneShaped(bs: seq<byte>, key: Bytes, tail: seq<byte>, headLen: nat)
  {
    && headLen == LEN_SIZE + FLAG_SIZE + |key|
    && |bs| >= LEN_SIZE + FLAG_SIZE + |key|
    && FromLE(bs[..LEN_SIZE]) == |key| && bs[LEN_SIZE] != 0
    && bs[LEN_SIZE + FLAG_SIZE..LEN_SIZE + FLAG_SIZE + |key|] == key
    && bs[LEN_SIZE + FLAG_SIZE + |key|..] == tail
  }

  /** `bs` holds a live header of `headLen` bytes for `key` and `value`, followed by `tail`. */
  predicate LiveShaped(bs: seq<byte>, key: Bytes, value: Bytes, tail: seq<byte>, headLen: nat)
  {
    && headLen == 17 + |key| + |value|
    && |bs| >= 17 + |key| + |value|
    && FromLE(bs[..LEN_SIZE]) == |key| && bs[LEN_SIZE] == 0 && FromLE(bs[9..17]) == |value|
    && bs[17..17 + |key|] == key && bs[17 + |key|..17 + |key| + |value|] == value
    && bs[17 + |key| + |value|..] == tail
  }

  /** What `DecodeNext` yields on bytes that start with a complete tombstone header and key. */
  lemma DecodeTombstone(bs: seq<byte>, key: Bytes, tail: seq<byte>, headLen: nat)
    ensures TombstoneShaped(bs, key, tail, headLen) ==>
      DecodeNext(bs) == Some((WalEntry(key, None, Stamp(tail), true), headLen + |Available(tail, TIMESTAMP_SIZE)|))
  {
    if TombstoneShaped(bs, key, tail, headLen) {
      var body := bs[LEN_SIZE + FLAG_SIZE..];
      assert body[..|key|] == key;
      assert body[|key|..] == bs[LEN_SIZE + FLAG_SIZE + |key|..];
    }
  }

  /** What `DecodeNext` yields on bytes that start with a complete live header, key and value. */
  lemma DecodeLive(bs: seq<byte>, key: Bytes, value: Bytes, tail: seq<byte>, headLen: nat)
    ensures LiveShaped(bs, key, value, tail, headLen) ==>
      DecodeNext(bs) == Some((WalEntry(key, Some(value), Stamp(tail), false), headLen + |Available(tail, TIMESTAMP_SIZE)|))
  {
    if LiveShaped(bs, key, value, tail, headLen) {
      var body := bs[17..];
      assert body[..|key|] == key;
      assert body[|key|..|key| + |value|] == value;
      assert body[|key| + |value|..] == bs[17 + |key| + |value|..];
    }
  }

  /** The fields of a tombstone header in front of any `tail`, one suffix at a time. */
  lemma TombstoneLayout(key: Bytes, tail: seq<byte>)
    ensures var bs := TombstoneHead(key) + tail;
      && |TombstoneHead(key)| == 9 + |key|
      && bs[..8] == ToLE(|key|, 8) && bs[8] == 1
      && bs[9..9 + |key|] == key
      && bs[9 + |key|..] == tail
  {
    var bs := TombstoneHead(key) + tail;
    var s2 := key + tail;
    var s1 := [1] + s2;
    ConcatAssoc([1], key, tail);
    ConcatAssoc(ToLE(|key|, 8), [1] + key, tail);
    assert bs[8..] == s1;
    assert bs[9..] == s2;
    assert bs[9..][..|key|] == key;
  }

  /** The fields of a live header in front of any `tail`, one suffix at a time. */
  lemma LiveLayout(key: Bytes, value: Bytes, tail: seq<byte>)
    ensures var bs := LiveHead(key, value) + tail;
      && |LiveHead(key, value)| == 17 + |key| + |value|
      && bs[..8] == ToLE(|key|, 8) && bs[8] == 0
      && bs[9..17] == ToLE(|value|, 8)
      && bs[17..17 + |key|] == key
      && bs[17 + |key|..17 + |key| + |value|] == value
      && bs[17 + |key| + |value|..] == tail
  {
    var bs := LiveHead(key, value) + tail;
    var s4 := value + tail;
    var s3 := key + s4;
    var s2 := ToLE(|value|, 8) + s3;
    var s1 := [0] + s2;
    ConcatAssoc(key, value, tail);
    ConcatAssoc(ToLE(|value|, 8), key + value, tail);
    ConcatAssoc([0], ToLE(|value|, 8) + (key + value), tail);
    ConcatAssoc(ToLE(|key|, 8), [0] + (ToLE(|value|, 8) + (key + value)), tail);
    assert bs[8..] == s1;
    assert bs[9..] == s2;
    assert bs[9..][..8] == ToLE(|value|, 8);
    assert bs[17..] == s3;
    assert bs[17..][..|key|] == key;
    assert bs[17 + |key|..] == s4;
    assert bs[17 + |key|..][..|value|] == value;
  }

  /** Everything a record holds before its timestamp. */
  function Head(e: WalEntry): seq<byte>
    requires e.deleted || e.value.Some?
  {
    if e.deleted then TombstoneHead(e.key) else LiveHead(e.key, e.value.value)
  }

  lemma EncodeSplits(e: WalEntry, rest: seq<byte>, m: nat)
    requires e.deleted || e.value.Some?
    requires m <= |Encode(e)|
    ensures Encode(e) == Head(e) + ToLE(e.timestamp, 16)
    ensures Encode(e) + rest == Head(e) + (ToLE(e.timestamp, 16) + rest)
    ensures m >= |Head(e)| ==> Encode(e)[..m] == Head(e) + ToLE(e.timestamp, 16)[..m - |Head(e)|]
  {
    if m >= |Head(e)| {
      assert Encode(e)[..m] == Head(e) + ToLE(e.timestamp, 16)[..m - |Head(e)|];
    }
  }

  /** The fields of a tombstone header as `DecodeNext` reads them. */
  lemma TombstoneFields(key: Bytes, tail: seq<byte>)
    ensures TombstoneShaped(TombstoneHead(key) + tail, key, tail, |TombstoneHead(key)|)
  {
    Pow256Widths();
    FromToLE(|key|, LEN_SIZE);
    TombstoneLayout(key, tail);
  }

  /** The fields of a live header as `DecodeNext` reads them. */
  lemma LiveFields(key: Bytes, value: Bytes, tail: seq<byte>)
    ensures LiveShaped(LiveHead(key, value) + tail, key, value, tail, |LiveHead(key, value)|)
  {
    Pow256Widths();
    FromToLE(|key|, LEN_SIZE);
    FromToLE(|value|, LEN_SIZE);
    LiveLayout(key, value, tail);
  }

  /** Decoding a known header in front of `tail`. */
  lemma DecodeHead(e: WalEntry, tail: seq<byte>)
    requires Consistent(e)
    ensures DecodeNext(Head(e) + tail)
        == Some((e.(timestamp := Stamp(tail)), |Head(e)| + |Available(tail, TIMESTAMP_SIZE)|))
  {
    if e.deleted {
      DecodeDeletedHead(e, tail);
    } else {
      DecodeSetHead(e, tail);
    }
  }

  /** Decoding a tombstone header in front of `tail`. */
  lemma DecodeDeletedHead(e: WalEntry, tail: seq<byte>)
    requires Consistent(e) && e.deleted
    ensures DecodeNext(Head(e) + tail)
        == Some((e.(timestamp := Stamp(tail)), |Head(e)| + |Available(tail, TIMESTAMP_SIZE)|))
  {
    assert Head(e) == TombstoneHead(e.key);
    TombstoneFields(e.key, tail);
    DecodeTombstone(Head(e) + tail, e.key, tail, |Head(e)|);
    assert e.(timestamp := Stamp(tail)) == WalEntry(e.key, None, Stamp(tail), true);
  }

  /** Decoding a live header in front of `tail`. */
  lemma DecodeSetHead(e: WalEntry, tail: seq<byte>)
    requires Consistent(e) && !e.deleted
    ensures DecodeNext(Head(e) + tail)
        == Some((e.(timestamp := Stamp(tail)), |Head(e)| + |Available(tail, TIMESTAMP_SIZE)|))
  {
    assert Head(e) == LiveHead(e.key, e.value.value);
    LiveFields(e.key, e.value.value, tail);
    DecodeLive(Head(e) + tail, e.key, e.value.value, tail, |Head(e)|);
    assert e.(timestamp := Stamp(tail)) == WalEntry(e.key, e.value, Stamp(tail), false);
  }

  /** A full timestamp in front of anything is read back as written. */
  lemma StampReadBack(timestamp: u128, rest: seq<byte>)
    ensures Available(ToLE(timestamp, 16) + rest, TIMESTAMP_SIZE) == ToLE(timestamp, 16)
    ensures Stamp(ToLE(timestamp, 16) + rest) == timestamp
  {
    Pow256Widths();
    FromToLE(timestamp, 16);
    assert ZeroPadded(ToLE(timestamp, 16), 16) == ToLE(timestamp, 16);
  }

  /** A record followed by anything decodes to its entry and consumes exactly its bytes. */
  lemma DecodeEncode(e: WalEntry, rest: seq<byte>)
    requires Consistent(e)
    ensures DecodeNext(Encode(e) + rest) == Some((e, |Encode(e)|))
  {
    EncodeSplits(e, rest, 0);
    StampReadBack(e.timestamp, rest);
    DecodeHead(e, ToLE(e.timestamp, 16) + rest);
  }

  /** One step of `DecodeAll`, stated without unfolding `DecodeNext`. */
  lemma DecodeAllStep(bs: seq<byte>, e: WalEntry, n: nat)
    requires DecodeNext(bs) == Some((e, n))
    ensures n <= |bs| && DecodeAll(bs) == [e] + DecodeAll(bs[n..])
  {
  }

  lemma ConsistentReplayable(es: seq<WalEntry>)
    requires AllConsistent(es)
    ensures Replayable(es) && AllConsistent(if es == [] then [] else es[1..])
  {
    if es != [] {
      assert forall i :: 0 <= i < |es[1..]| ==> es[1..][i] == es[i + 1];
    }
  }

  lemma ConsAppend(s: seq<WalEntry>, t: seq<WalEntry>)
    requires s != []
    ensures [s[0]] + (s[1..] + t) == s + t
  {
  }

  /** The records of `es`, followed by `tail`, decode to `es` and then whatever `tail` decodes to. */
  lemma {:induction false} DecodeAllEncodeAll(es: seq<WalEntry>, tail: seq<byte>)
    requires AllConsistent(es)
    ensures Replayable(es)
    ensures DecodeAll(EncodeAll(es) + tail) == es + DecodeAll(tail)
  {
    ConsistentReplayable(es);
    if es != [] {
      var h := Encode(es[0]);
      var rest := EncodeAll(es[1..]) + tail;
      var bs := EncodeAll(es) + tail;
      DecodeAllEncodeAll(es[1..], tail);
      assert EncodeAll(es) == h + EncodeAll(es[1..]);
      ConcatAssoc(h, EncodeAll(es[1..]), tail);
      DecodeEncode(es[0], rest);
      DecodeAllStep(bs, es[0], |h|);
      assert bs[|h|..] == rest;
      assert DecodeAll(bs) == [es[0]] + (es[1..] + DecodeAll(tail));
      ConsAppend(es, DecodeAll(tail));
    } else {
      assert EncodeAll(es) + tail == tail;
      assert es + DecodeAll(tail) == DecodeAll(tail);
    }
  }

  /** Any sequence of `set`/`delete` records decodes to the same entries, in write order, and then ends. */
  lemma RoundTrip(es: seq<WalEntry>)
    requires AllConsistent(es)
    ensures Replayable(es)
    ensures DecodeAll(EncodeAll(es)) == es
  {
    DecodeAllEncodeAll(es, []);
    assert EncodeAll(es) + [] == EncodeAll(es);
  }

  /** A record cut off before its timestamp decodes to nothing: the iteration ends quietly. */
  lemma CutBeforeTimestamp(e: WalEntry, m: nat)
    requires Consistent(e)
    requires m + TIMESTAMP_SIZE < |Encode(e)|
    ensures DecodeNext(Encode(e)[..m]) == None
  {
    Pow256Widths();
    FromToLE(|e.key|, LEN_SIZE);
    EncodeSplits(e, [], m);
    var h := Head(e);
    var bs := Encode(e)[..m];
    assert m < |h|;
    assert bs == h[..m];
    if e.deleted {
      TombstoneLayout(e.key, []);
    } else {
      LiveLayout(e.key, e.value.value, []);
    }
    assert h + [] == h;
    if m >= 9 {
      assert bs[..8] == h[..8];
      assert bs[8] == h[8];
      if !e.deleted && m >= 17 {
        FromToLE(|e.value.value|, LEN_SIZE);
        assert bs[9..17] == h[9..17];
      }
    }
  }

  /**
   * A record cut off inside its timestamp still yields an entry with the record's key,
   * value and flag (its timestamp is whatever the bytes present spell), and consumes
   * everything.
   */
  lemma CutInTimestamp(e: WalEntry, m: nat)
    requires Consistent(e)
    requires |Encode(e)| - TIMESTAMP_SIZE <= m < |Encode(e)|
    ensures DecodeNext(Encode(e)[..m]).Some?
    ensures var (d, n) := DecodeNext(Encode(e)[..m]).value;
      d.key == e.key && d.value == e.value && d.deleted == e.deleted && n == m
  {
    EncodeSplits(e, [], m);
    var stamp := ToLE(e.timestamp, 16)[..m - |Head(e)|];
    DecodeHead(e, stamp);
  }

  /**
   * A log whose last write was torn: the complete records decode as written, and the
   * torn one adds an entry only when the cut falls inside its timestamp.
   */
  lemma TornTail(es: seq<WalEntry>, e: WalEntry, m: nat)
    requires AllConsistent(es) && Consistent(e)
    requires m < |Encode(e)|
    ensures Replayable(es)
    ensures var decoded := DecodeAll(EncodeAll(es) + Encode(e)[..m]);
      if m + TIMESTAMP_SIZE < |Encode(e)| then decoded == es
      else (&& |decoded| == |es| + 1 && decoded[..|es|] == es
            && decoded[|es|].key == e.key && decoded[|es|].value == e.value && decoded[|es|].deleted == e.deleted)
  {
    DecodeAllEncodeAll(es, Encode(e)[..m]);
    if m + TIMESTAMP_SIZE < |Encode(e)| {
      CutBeforeTimestamp(e, m);
      assert es + [] == es;
    } else {
      CutInTimestamp(e, m);
      var bs := Encode(e)[..m];
      var (d, n) := DecodeNext(bs).value;
      DecodeAllStep(bs, d, n);
      assert bs[m..] == [];
      assert DecodeAll(bs[m..]) == [];
      assert (es + DecodeAll(bs))[..|es|] == es;
    }
  }

}
