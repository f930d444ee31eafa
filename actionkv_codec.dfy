/**
 * The ActionKV record codec: one key-value pair framed as
 *
 *   checksum (u32 LE) | key_len (u32 LE) | val_len (u32 LE) | key ++ value
 *
 * where the checksum is taken over `key ++ value`. The checksum function
 * (CRC-32 with the IEEE polynomial in the source) is a parameter: nothing
 * proved here depends on how it is computed.
 */
module Codec {
  import opened Wrappers
  import opened LittleEndian

  type Bytes = seq<byte>

  /** The checksum over a payload; `crc32::checksum_ieee` in the source. */
  type Checksum = Bytes -> u32

  const HEADER_LEN: nat := 12

  datatype KeyValuePair = KeyValuePair(key: Bytes, value: Bytes)

  /**
   * The errors `process_record` can end with: a header field that runs past
   * the end of the stream, a checksum mismatch (stored, then recomputed), and
   * the panic of `split_off` when `key_len` exceeds the payload actually read.
   */
  datatype Error = UnexpectedEof | InvalidData(saved: u32, computed: u32) | SplitPanic

  /** The outcome of decoding one record, and the cursor after the attempt. */
  datatype Step = Step(result: Result<KeyValuePair, Error>, next: nat)

  /** A key and a value whose lengths, and their sum, fit the u32 fields. */
  predicate Fits(key: Bytes, value: Bytes) {
    |key| + |value| < U32_LIMIT
  }

  /** The header followed by the payload, as `insert_but_ignore_index` writes it. */
  function Encode(crc: Checksum, key: Bytes, value: Bytes): (r: Bytes)
    requires Fits(key, value)
    ensures |r| == HEADER_LEN + |key| + |value|
  {
    U32ToLe(crc(key + value)) + U32ToLe(|key|) + U32ToLe(|value|) + key + value
  }

  /** The u32 stored little-endian at `at`. */
  function FieldAt(log: Bytes, at: nat): u32
    requires at + 4 <= |log|
  {
    LeToU32(log[at..at + 4])
  }

  /**
   * The payload length a header announces: `key_len + val_len` with u32
   * wrap-around. It is always a u32, and the true sum whenever that fits.
   */
  function DataLen(log: Bytes, off: nat): (n: nat)
    requires off + HEADER_LEN <= |log|
    ensures n < U32_LIMIT
    ensures FieldAt(log, off + 4) + FieldAt(log, off + 8) < U32_LIMIT ==>
      n == FieldAt(log, off + 4) + FieldAt(log, off + 8)
    ensures FieldAt(log, off + 4) + FieldAt(log, off + 8) >= U32_LIMIT ==>
      n == FieldAt(log, off + 4) + FieldAt(log, off + 8) - U32_LIMIT
  {
    (FieldAt(log, off + 4) + FieldAt(log, off + 8)) % U32_LIMIT
  }

  /** Where the payload read by `take(data_len).read_to_end` stops: at most at end of log. */
  function PayloadEnd(log: Bytes, off: nat): (e: nat)
    requires off + HEADER_LEN <= |log|
    ensures off + HEADER_LEN <= e <= |log|
  {
    if off + HEADER_LEN + DataLen(log, off) <= |log| then off + HEADER_LEN + DataLen(log, off) else |log|
  }

  /**
   * The payload bytes actually read: the bytes right after the header, as
   * many as announced when the record is complete, otherwise all that is left.
   */
  function Payload(log: Bytes, off: nat): (p: Bytes)
    requires off + HEADER_LEN <= |log|
    ensures |p| <= DataLen(log, off)
    ensures Complete(log, off) ==> |p| == DataLen(log, off)
    ensures !Complete(log, off) ==> off + HEADER_LEN + |p| == |log|
    ensures forall i :: 0 <= i < |p| ==> p[i] == log[off + HEADER_LEN + i]
  {
    log[off + HEADER_LEN .. PayloadEnd(log, off)]
  }

  /** The whole record announced at `off` lies inside the log. */
  predicate Complete(log: Bytes, off: nat) {
    off + HEADER_LEN <= |log| && off + HEADER_LEN + DataLen(log, off) <= |log|
  }

  /**
   * `process_record` on a reader positioned at `off` of `log`.
   * Any of the three header reads running out gives `UnexpectedEof` and
   * consumes the rest of the log; a short payload is not detected by length,
   * only (in practice) by the checksum comparison.
   */
  function Decode(crc: Checksum, log: Bytes, off: nat): (s: Step)
    ensures s.result.Ok? ==> off + HEADER_LEN <= s.next <= |log|
  {
    if off + HEADER_LEN > |log| then
      Step(Err(UnexpectedEof), if off < |log| then |log| else off)
    else
      var saved := FieldAt(log, off);
      var keyLen := FieldAt(log, off + 4);
      var data := Payload(log, off);
      var computed := crc(data);
      if computed != saved then Step(Err(InvalidData(saved, computed)), PayloadEnd(log, off))
      else if keyLen > |data| then Step(Err(SplitPanic), PayloadEnd(log, off))
      else Step(Ok(KeyValuePair(data[..keyLen], data[keyLen..])), PayloadEnd(log, off))
  }

  /**
   * `process_record` as the source runs it: three header fields read in turn
   * from a cursor, then the payload, then the checksum comparison.
   */
  method ProcessRecord(crc: Checksum, log: Bytes, start: nat) returns (r: Result<KeyValuePair, Error>, cursor: nat)
    ensures Step(r, cursor) == Decode(crc, log, start)
  {
    var saved, keyLen, valLen;
    saved, cursor := ReadU32(log, start);
    if saved.None? { return Err(UnexpectedEof), cursor; }
    keyLen, cursor := ReadU32(log, cursor);
    if keyLen.None? { return Err(UnexpectedEof), cursor; }
    valLen, cursor := ReadU32(log, cursor);
    if valLen.None? { return Err(UnexpectedEof), cursor; }
    var dataLen := (keyLen.value + valLen.value) % U32_LIMIT;
    var end := if cursor + dataLen <= |log| then cursor + dataLen else |log|;
    var data := log[cursor..end];
    cursor := end;
    var checksum := crc(data);
    if checksum != saved.value {
      r := Err(InvalidData(saved.value, checksum));
    } else if keyLen.value > |data| {
      r := Err(SplitPanic);
    } else {
      r := Ok(KeyValuePair(data[..keyLen.value], data[keyLen.value..]));
    }
  }

  /** The header fields of an encoded record read back as the checksum and the two lengths. */
  lemma EncodeHeader(crc: Checksum, prefix: Bytes, key: Bytes, value: Bytes, suffix: Bytes)
    requires Fits(key, value)
    ensures var log := prefix + Encode(crc, key, value) + suffix;
      var off := |prefix|;
      && off + HEADER_LEN <= |log|
      && FieldAt(log, off) == crc(key + value)
      && FieldAt(log, off + 4) == |key|
      && FieldAt(log, off + 8) == |value|
      && log[off + HEADER_LEN .. off + HEADER_LEN + |key| + |value|] == key + value
  {
    var enc := Encode(crc, key, value);
    var log := prefix + enc + suffix;
    var off := |prefix|;
    assert enc[HEADER_LEN..] == key + value;
    assert log[off..off + |enc|] == enc;
    assert log[off..off + 4] == U32ToLe(crc(key + value));
    assert log[off + 4..off + 8] == U32ToLe(|key|);
    assert log[off + 8..off + 12] == U32ToLe(|value|);
    assert log[off + HEADER_LEN .. off + HEADER_LEN + |key| + |value|] == key + value;
    LeToU32OfU32ToLe(crc(key + value));
    LeToU32OfU32ToLe(|key|);
    LeToU32OfU32ToLe(|value|);
  }

  /**
   * Round trip: decoding the bytes appended for `(key, value)`, whatever
   * precedes and follows them, gives back exactly `key` and `value` and
   * leaves the cursor just after the record.
   */
  lemma DecodeEncode(crc: Checksum, prefix: Bytes, key: Bytes, value: Bytes, suffix: Bytes)
    requires Fits(key, value)
    ensures Decode(crc, prefix + Encode(crc, key, value) + suffix, |prefix|)
         == Step(Ok(KeyValuePair(key, value)), |prefix| + HEADER_LEN + |key| + |value|)
    ensures Complete(prefix + Encode(crc, key, value) + suffix, |prefix|)
  {
    var log := prefix + Encode(crc, key, value) + suffix;
    EncodeHeader(crc, prefix, key, value, suffix);
    assert DataLen(log, |prefix|) == |key| + |value|;
    assert Payload(log, |prefix|) == key + value;
    assert (key + value)[..|key|] == key;
    assert (key + value)[|key|..] == value;
  }

  /** `UnexpectedEof` is reported exactly when fewer than 12 bytes are left at `off`. */
  lemma DecodeEofIff(crc: Checksum, log: Bytes, off: nat)
    ensures Decode(crc, log, off).result == Err(UnexpectedEof) <==> off + HEADER_LEN > |log|
  {
  }

  /**
   * A checksum mismatch is reported, with both values, exactly when the
   * recomputed checksum differs from the stored one; no pair is returned then.
   */
  lemma DecodeCorruptIff(crc: Checksum, log: Bytes, off: nat)
    requires off + HEADER_LEN <= |log|
    ensures var r := Decode(crc, log, off).result;
      (r.Err? && r.error.InvalidData?) <==> crc(Payload(log, off)) != FieldAt(log, off)
    ensures crc(Payload(log, off)) != FieldAt(log, off) ==>
      Decode(crc, log, off).result == Err(InvalidData(FieldAt(log, off), crc(Payload(log, off))))
  {
  }

  /**
   * No length check: a header announcing more payload than the log holds is
   * still decoded into a (short) pair whenever the checksum of the bytes that
   * are there matches the stored one.
   */
  lemma ShortPayloadAccepted(crc: Checksum, data: Bytes, keyLen: u32, valLen: u32)
    requires keyLen <= |data| < keyLen + valLen < U32_LIMIT
    ensures var log := U32ToLe(crc(data)) + U32ToLe(keyLen) + U32ToLe(valLen) + data;
      && !Complete(log, 0)
      && Decode(crc, log, 0) == Step(Ok(KeyValuePair(data[..keyLen], data[keyLen..])), |log|)
  {
    var log := U32ToLe(crc(data)) + U32ToLe(keyLen) + U32ToLe(valLen) + data;
    assert log[0..4] == U32ToLe(crc(data));
    assert log[4..8] == U32ToLe(keyLen);
    assert log[8..12] == U32ToLe(valLen);
    LeToU32OfU32ToLe(crc(data));
    LeToU32OfU32ToLe(keyLen);
    LeToU32OfU32ToLe(valLen);
    assert Payload(log, 0) == data;
  }

  /** Bytes appended after a complete record do not change how it decodes. */
  lemma DecodeAppend(crc: Checksum, log: Bytes, off: nat, suffix: Bytes)
    requires Complete(log, off)
    ensures Complete(log + suffix, off)
    ensures Decode(crc, log + suffix, off) == Decode(crc, log, off)
  {
    var log' := log + suffix;
    assert log'[off..off + 4] == log[off..off + 4];
    assert log'[off + 4..off + 8] == log[off + 4..off + 8];
    assert log'[off + 8..off + 12] == log[off + 8..off + 12];
    assert DataLen(log', off) == DataLen(log, off);
    assert Payload(log', off) == Payload(log, off);
  }
}
