/**
 * The ActionKV log-structured store: the backing file as a byte sequence
 * `log` with a read/write cursor `pos`, and the in-memory `index` from keys
 * to the offset of a record for that key. Every write appends a record;
 * `load` and `find` replay the log from the cursor.
 */
module ActionKv {
  import opened Wrappers
  import opened LittleEndian
  import opened Codec

  type Index = map<Bytes, nat>

  /** A record decoded during a replay, with the offset it starts at. */
  datatype Entry = Entry(offset: nat, kv: KeyValuePair)

  /**
   * What a replay loop sees from a starting offset: the records decoded in
   * order, the error that stopped it (`None` for a clean end of file), and
   * where the cursor is left.
   */
  datatype Scan = Scan(entries: seq<Entry>, stop: Option<Error>, end: nat)

  /**
   * Where the cursor ends after reading from `at` to end of file: the end of
   * file, or `at` itself when it already lies beyond.
   */
  function EndFrom(log: Bytes, at: nat): nat {
    if at <= |log| then |log| else at
  }

  /**
   * The replay of `load` and `find`: decode until `UnexpectedEof` (clean end)
   * or another error. The replay never ends past end of file, and a clean
   * stop is exactly at end of file.
   */
  function ScanFrom(crc: Checksum, log: Bytes, from: nat): (sc: Scan)
    ensures from <= sc.end <= EndFrom(log, from)
    ensures sc.stop.None? ==> sc.end == EndFrom(log, from)
    decreases |log| - from
  {
    var st := Decode(crc, log, from);
    match st.result
    case Err(e) => Scan([], if e == UnexpectedEof then None else Some(e), st.next)
    case Ok(kv) =>
      var rest := ScanFrom(crc, log, st.next);
      Scan([Entry(from, kv)] + rest.entries, rest.stop, rest.end)
  }

  /** A scan preceded by records already replayed. */
  function After(done: seq<Entry>, sc: Scan): Scan {
    Scan(done + sc.entries, sc.stop, sc.end)
  }

  /** One turn of the replay loop: decode at `from`, then continue at the cursor it leaves. */
  lemma ScanStep(crc: Checksum, log: Bytes, from: nat, done: seq<Entry>)
    ensures var st := Decode(crc, log, from);
      && (st.result.Ok? ==> After(done, ScanFrom(crc, log, from))
                            == After(done + [Entry(from, st.result.value)], ScanFrom(crc, log, st.next)))
      && (st.result.Err? ==>
            ScanFrom(crc, log, from) == Scan([], if st.result.error == UnexpectedEof then None else Some(st.result.error), st.next))
  {
    var st := Decode(crc, log, from);
    if st.result.Ok? {
      var rest := ScanFrom(crc, log, st.next);
      assert done + ([Entry(from, st.result.value)] + rest.entries) == (done + [Entry(from, st.result.value)]) + rest.entries;
    }
  }

  /**
   * `index.insert(key, position)` for each replayed record, in order: every
   * replayed key ends up indexed.
   */
  function Apply(index: Index, entries: seq<Entry>): (r: Index)
    ensures forall i :: 0 <= i < |entries| ==> entries[i].kv.key in r
  {
    if entries == [] then index
    else
      var e := entries[|entries| - 1];
      Apply(index, entries[..|entries| - 1])[e.kv.key := e.offset]
  }

  /** Replaying never removes a key from the index. */
  lemma {:induction false} ApplyKeepsKeys(index: Index, entries: seq<Entry>)
    ensures index.Keys <= Apply(index, entries).Keys
  {
    if entries != [] {
      ApplyKeepsKeys(index, entries[..|entries| - 1]);
    }
  }

  /**
   * The `(offset, value)` of the last entry whose key is `target`: always one
   * of the entries, and absent exactly when no entry has that key.
   */
  function LastMatch(entries: seq<Entry>, target: Bytes): (r: Option<(nat, Bytes)>)
    ensures r.Some? ==>
      exists i :: 0 <= i < |entries| && entries[i].offset == r.value.0 && entries[i].kv == KeyValuePair(target, r.value.1)
    ensures r.None? <==> forall i :: 0 <= i < |entries| ==> entries[i].kv.key != target
  {
    if entries == [] then None
    else
      var e := entries[|entries| - 1];
      if e.kv.key == target then Some((e.offset, e.kv.value))
      else LastMatch(entries[..|entries| - 1], target)
  }

  /** The log from `from` on is a gap-free sequence of complete, valid records. */
  ghost predicate Framed(crc: Checksum, log: Bytes, from: nat)
    decreases |log| - from
  {
    from == |log|
    || (Complete(log, from) && Decode(crc, log, from).result.Ok? && Framed(crc, log, Decode(crc, log, from).next))
  }

  /** The index is exactly what a replay of the whole log from offset 0 builds. */
  ghost predicate IndexMatchesLog(crc: Checksum, log: Bytes, index: Index) {
    Framed(crc, log, 0) && index == Apply(map[], ScanFrom(crc, log, 0).entries)
  }

  /** A key with an entry maps to the offset of its last entry. */
  lemma {:induction false} LastWriteWinsPresent(index: Index, entries: seq<Entry>, k: Bytes, i: nat)
    requires i < |entries| && entries[i].kv.key == k
    ensures k in Apply(index, entries)
    ensures exists i' ::
      i <= i' < |entries| && entries[i'].kv.key == k && Apply(index, entries)[k] == entries[i'].offset &&
      forall j :: i' < j < |entries| ==> entries[j].kv.key != k
  {
    var n := |entries| - 1;
    var init := entries[..n];
    if entries[n].kv.key == k {
      assert Apply(index, entries)[k] == entries[n].offset;
    } else {
      assert init[i] == entries[i];
      LastWriteWinsPresent(index, init, k, i);
      var i' :| i <= i' < |init| && init[i'].kv.key == k && Apply(index, init)[k] == init[i'].offset &&
        forall j :: i' < j < |init| ==> init[j].kv.key != k;
      assert entries[i'] == init[i'];
    }
  }

  /** A key without an entry keeps what the index had before, present or absent. */
  lemma {:induction false} LastWriteWinsAbsent(index: Index, entries: seq<Entry>, k: Bytes)
    requires forall i :: 0 <= i < |entries| ==> entries[i].kv.key != k
    ensures k in Apply(index, entries) <==> k in index
    ensures k in index ==> Apply(index, entries)[k] == index[k]
  {
    if entries != [] {
      var init := entries[..|entries| - 1];
      assert forall i :: 0 <= i < |init| ==> init[i] == entries[i];
      LastWriteWinsAbsent(index, init, k);
    }
  }

  /**
   * Last-write-wins: after replaying `entries` into `index`, a key that has
   * an entry maps to the offset of its last entry; any other key keeps what
   * it had before, present or absent.
   */
  lemma LastWriteWins(index: Index, entries: seq<Entry>, k: Bytes)
    ensures (exists i :: 0 <= i < |entries| && entries[i].kv.key == k) ==>
      k in Apply(index, entries) &&
      exists i :: 0 <= i < |entries| && entries[i].kv.key == k && Apply(index, entries)[k] == entries[i].offset &&
        forall j :: i < j < |entries| ==> entries[j].kv.key != k
    ensures (forall i :: 0 <= i < |entries| ==> entries[i].kv.key != k) ==>
      (k in Apply(index, entries) <==> k in index) && (k in index ==> Apply(index, entries)[k] == index[k])
  {
    if i :| 0 <= i < |entries| && entries[i].kv.key == k {
      LastWriteWinsPresent(index, entries, k, i);
    } else {
      LastWriteWinsAbsent(index, entries, k);
    }
  }

  /** `find`'s answer agrees with the index built from the same entries. */
  lemma {:induction false} FindAgreesWithIndex(index: Index, entries: seq<Entry>, k: Bytes)
    ensures LastMatch(entries, k).Some? ==>
      k in Apply(index, entries) && Apply(index, entries)[k] == LastMatch(entries, k).value.0
    ensures LastMatch(entries, k).None? ==>
      (k in Apply(index, entries) <==> k in index) && (k in index ==> Apply(index, entries)[k] == index[k])
  {
    if entries != [] {
      FindAgreesWithIndex(index, entries[..|entries| - 1], k);
    }
  }

  /** Every replayed entry is what decoding at its own offset gives. */
  lemma {:induction false} ScanEntriesDecode(crc: Checksum, log: Bytes, from: nat, i: nat)
    requires i < |ScanFrom(crc, log, from).entries|
    ensures var e := ScanFrom(crc, log, from).entries[i];
      from <= e.offset < |log| && Decode(crc, log, e.offset).result == Ok(e.kv)
    decreases |log| - from
  {
    var st := Decode(crc, log, from);
    if i > 0 {
      ScanEntriesDecode(crc, log, st.next, i - 1);
    }
  }

  /** On a framed log the replay reaches the end of file without error. */
  lemma {:induction false} FramedScan(crc: Checksum, log: Bytes, from: nat)
    requires Framed(crc, log, from)
    ensures ScanFrom(crc, log, from).stop == None && ScanFrom(crc, log, from).end == |log|
    decreases |log| - from
  {
    if from != |log| {
      FramedScan(crc, log, Decode(crc, log, from).next);
    }
  }

  /**
   * Appending an encoded record to a framed log keeps it framed, and the
   * replay sees exactly one more entry, at the old end of file.
   */
  lemma {:induction false} FramedAppend(crc: Checksum, log: Bytes, from: nat, key: Bytes, value: Bytes)
    requires Framed(crc, log, from) && Fits(key, value)
    ensures Framed(crc, log + Encode(crc, key, value), from)
    ensures ScanFrom(crc, log + Encode(crc, key, value), from).entries
         == ScanFrom(crc, log, from).entries + [Entry(|log|, KeyValuePair(key, value))]
    decreases |log| - from
  {
    var log' := log + Encode(crc, key, value);
    if from == |log| {
      DecodeEncode(crc, log, key, value, []);
      assert log + Encode(crc, key, value) + [] == log';
      assert Framed(crc, log', |log'|);
      DecodeEofIff(crc, log', |log'|);
      DecodeEofIff(crc, log, |log|);
    } else {
      DecodeAppend(crc, log, from, Encode(crc, key, value));
      FramedAppend(crc, log, Decode(crc, log, from).next, key, value);
    }
  }

  /** Appending a record at end of file and indexing it at that offset keeps the index exact. */
  lemma InsertKeepsIndexMatching(crc: Checksum, log: Bytes, index: Index, key: Bytes, value: Bytes)
    requires IndexMatchesLog(crc, log, index) && Fits(key, value)
    ensures IndexMatchesLog(crc, log + Encode(crc, key, value), index[key := |log|])
  {
    FramedAppend(crc, log, 0, key, value);
    var es := ScanFrom(crc, log, 0).entries;
    var es' := es + [Entry(|log|, KeyValuePair(key, value))];
    assert es'[..|es'| - 1] == es;
  }

  /**
   * When the index is exact, a key is indexed exactly when the log holds a
   * record for it, and the indexed offset decodes to the last value written
   * for that key.
   */
  lemma IndexedLookup(crc: Checksum, log: Bytes, index: Index, key: Bytes)
    requires IndexMatchesLog(crc, log, index)
    ensures var m := LastMatch(ScanFrom(crc, log, 0).entries, key);
      && (key in index <==> m.Some?)
      && (key in index ==>
            index[key] == m.value.0 && Decode(crc, log, index[key]).result == Ok(KeyValuePair(key, m.value.1)))
  {
    var es := ScanFrom(crc, log, 0).entries;
    FindAgreesWithIndex(map[], es, key);
    if LastMatch(es, key).Some? {
      var i :| 0 <= i < |es| && es[i].offset == LastMatch(es, key).value.0 &&
        es[i].kv == KeyValuePair(key, LastMatch(es, key).value.1);
      ScanEntriesDecode(crc, log, 0, i);
    }
  }

  /** Replaying a framed log from offset 0 into an empty index ends cleanly at end of file with an exact index. */
  lemma ReplayFramed(crc: Checksum, log: Bytes)
    requires Framed(crc, log, 0)
    ensures var sc := ScanFrom(crc, log, 0);
      sc.stop == None && sc.end == |log| && IndexMatchesLog(crc, log, Apply(map[], sc.entries))
  {
    FramedScan(crc, log, 0);
  }

  /** An empty file is framed and its replay builds the empty index. */
  lemma EmptyLogMatchesEmptyIndex(crc: Checksum)
    ensures IndexMatchesLog(crc, [], map[])
    ensures ScanFrom(crc, [], 0) == Scan([], None, 0)
  {
    DecodeEofIff(crc, [], 0);
  }

  /**
   * Where the file cursor is once a `BufReader` over it is dropped: the
   * reader fills its buffer ahead of what was consumed, so the cursor is
   * anywhere from the end of the consumed bytes up to `limit` (end of file),
   * depending on how much of the file the buffer took in.
   */
  method ReadAhead(consumed: nat, limit: nat) returns (cursor: nat)
    requires consumed <= limit
    ensures consumed <= cursor <= limit
  {
    cursor :| consumed <= cursor <= limit;
  }

  /**
   * An open store: the backing file's bytes, the file cursor, and the index.
   * The checksum function is fixed for the lifetime of the store.
   */
  class ActionKV {
    const crc: Checksum
    var log: Bytes
    var pos: nat
    var index: Index

    /** The index is exact and the cursor is at end of file, as after `load` on a freshly opened store. */
    ghost predicate Synced()
      reads this
    {
      IndexMatchesLog(crc, log, index) && pos == |log|
    }

    /**
     * `ActionKV::open` on a file whose current contents are `contents` (empty
     * for a file it creates): nothing is truncated, the cursor starts at 0 and
     * the index is empty.
     */
    constructor Open(crc: Checksum, contents: Bytes)
      ensures this.crc == crc && log == contents && pos == 0 && index == map[]
    {
      this.crc := crc;
      log := contents;
      pos := 0;
      index := map[];
    }

    /** `seek_to_end`: moves the cursor to end of file and returns that offset. */
    method SeekToEnd() returns (offset: nat)
      modifies this`pos
      ensures offset == |log| && pos == |log|
    {
      pos := |log|;
      offset := pos;
    }

    /**
     * The record loop of `load`: decodes record after record from the cursor
     * and inserts each into the index, stopping at the first error. The
     * cursor is left just after the last bytes decoded; a clean end of file
     * is `Ok`, any other error is returned with the entries before it already
     * inserted.
     */
    method ReplayRecords() returns (r: Result<(), Error>)
      modifies this`pos, this`index
      ensures var sc := ScanFrom(crc, log, old(pos));
        && index == Apply(old(index), sc.entries) && pos == sc.end
        && r == (if sc.stop.None? then Ok(()) else Err(sc.stop.value))
    {
      ghost var start := pos;
      ghost var done: seq<Entry> := [];
      while true
        invariant ScanFrom(crc, log, start) == After(done, ScanFrom(crc, log, pos))
        invariant index == Apply(old(index), done)
        decreases |log| - pos
      {
        var position := pos;
        var res, next := ProcessRecord(crc, log, position);
        ScanStep(crc, log, position, done);
        match res {
          case Err(err) =>
            pos := next;
            assert done + [] == done;
            if err == UnexpectedEof {
              assert ScanFrom(crc, log, start) == Scan(done, None, pos);
              break;
            }
            assert ScanFrom(crc, log, start) == Scan(done, Some(err), pos);
            return Err(err);
          case Ok(kv) =>
            pos := next;
            index := index[kv.key := position];
            done := done + [Entry(position, kv)];
        }
      }
      return Ok(());
    }

    /**
     * `load`: replays the log from the cursor into the index. A clean end of
     * file ends the replay with `Ok`, the cursor at end of file; any other
     * error is returned at once, the entries for the records before it
     * already inserted. The buffered reader reads ahead, so after an error the
     * file cursor is anywhere from the end of the bad record to end of file.
     */
    method Load() returns (r: Result<(), Error>)
      modifies this`pos, this`index
      ensures var sc := ScanFrom(crc, log, old(pos));
        && index == Apply(old(index), sc.entries)
        && (sc.stop.None? ==> pos == sc.end)
        && (sc.stop.Some? ==> sc.end <= pos <= EndFrom(log, old(pos)))
        && r == (if sc.stop.None? then Ok(()) else Err(sc.stop.value))
      ensures old(index).Keys <= index.Keys
      ensures old(pos) == 0 && old(index) == map[] && Framed(crc, log, 0) ==>
        r == Ok(()) && IndexMatchesLog(crc, log, index) && pos == |log|
    {
      var start := pos;
      if start == 0 && index == map[] && Framed(crc, log, 0) {
        ReplayFramed(crc, log);
      }
      ApplyKeepsKeys(index, ScanFrom(crc, log, start).entries);
      r := ReplayRecords();
      if r.Err? {
        pos := ReadAhead(pos, EndFrom(log, start));
      }
    }

    /**
     * `get_at`: decodes the one record at `position`. The buffered reader
     * reads ahead, so the file cursor is left anywhere from the end of the
     * record to end of file.
     */
    method GetAt(position: nat) returns (r: Result<KeyValuePair, Error>)
      modifies this`pos
      ensures r == Decode(crc, log, position).result
      ensures Decode(crc, log, position).next <= pos <= EndFrom(log, position)
    {
      var next;
      r, next := ProcessRecord(crc, log, position);
      pos := ReadAhead(next, EndFrom(log, position));
    }

    /**
     * `get`: `None` when the key is not indexed (cursor untouched); otherwise
     * the value of the record the index points at, or the decoding error.
     */
    method Get(key: Bytes) returns (r: Result<Option<Bytes>, Error>)
      modifies this`pos
      ensures key !in index ==> r == Ok(None) && pos == old(pos)
      ensures key in index ==>
        var st := Decode(crc, log, index[key]);
        && st.next <= pos <= EndFrom(log, index[key])
        && r == (if st.result.Ok? then Ok(Some(st.result.value.value)) else Err(st.result.error))
      ensures IndexMatchesLog(crc, log, index) ==>
        var m := LastMatch(ScanFrom(crc, log, 0).entries, key);
        r == (if m.Some? then Ok(Some(m.value.1)) else Ok(None))
    {
      if IndexMatchesLog(crc, log, index) {
        IndexedLookup(crc, log, index, key);
      }
      if key !in index {
        return Ok(None);
      }
      var position := index[key];
      var kv := GetAt(position);
      match kv {
        case Err(e) => r := Err(e);
        case Ok(pair) => r := Ok(Some(pair.value));
      }
    }

    /**
     * `find`: replays the log from the CURRENT cursor, ignoring the index,
     * and keeps the offset and value of the last record whose key is
     * `target`; errors other than a clean end of file are returned. As in
     * `load`, a clean end leaves the cursor at end of file and an error
     * anywhere from the end of the bad record to end of file.
     */
    method Find(target: Bytes) returns (r: Result<Option<(nat, Bytes)>, Error>)
      modifies this`pos
      ensures var sc := ScanFrom(crc, log, old(pos));
        && (sc.stop.None? ==> pos == sc.end)
        && (sc.stop.Some? ==> sc.end <= pos <= EndFrom(log, old(pos)))
        && r == (if sc.stop.None? then Ok(LastMatch(sc.entries, target)) else Err(sc.stop.value))
    {
      var start := pos;
      ghost var done: seq<Entry> := [];
      var found: Option<(nat, Bytes)> := None;
      while true
        invariant ScanFrom(crc, log, start) == After(done, ScanFrom(crc, log, pos))
        invariant found == LastMatch(done, target)
        decreases |log| - pos
      {
        var position := pos;
        var res, next := ProcessRecord(crc, log, position);
        ScanStep(crc, log, position, done);
        match res {
          case Err(err) =>
            pos := next;
            assert done + [] == done;
            if err == UnexpectedEof {
              assert ScanFrom(crc, log, start) == Scan(done, None, pos);
              break;
            }
            assert ScanFrom(crc, log, start) == Scan(done, Some(err), pos);
            pos := ReadAhead(next, EndFrom(log, start));
            return Err(err);
          case Ok(kv) =>
            assert (done + [Entry(position, kv)])[..|done|] == done;
            pos := next;
            if kv.key == target {
              found := Some((position, kv.value));
            }
            done := done + [Entry(position, kv)];
        }
      }
      return Ok(found);
    }

    /**
     * `insert_but_ignore_index`: builds the payload, remembers the cursor,
     * seeks to end of file and appends header and payload. Returns the
     * cursor position read BEFORE the seek.
     */
    method InsertButIgnoreIndex(key: Bytes, value: Bytes) returns (position: nat)
      requires Fits(key, value)
      modifies this`log, this`pos
      ensures position == old(pos)
      ensures log == old(log) + Encode(crc, key, value)
      ensures pos == |log|
    {
      var tmp: Bytes := [];
      for i := 0 to |key|
        invariant tmp == key[..i]
      {
        tmp := tmp + [key[i]];
      }
      for i := 0 to |value|
        invariant tmp == key + value[..i]
      {
        tmp := tmp + [value[i]];
      }
      assert value[..|value|] == value;
      var checksum := crc(tmp);
      position := pos;
      pos := |log|;
      log := log + U32ToLe(checksum);
      log := log + U32ToLe(|key|);
      log := log + U32ToLe(|value|);
      log := log + tmp;
      pos := |log|;
    }

    /**
     * `insert`: appends the record and sets `index[key]` to the cursor
     * position read before the seek; every other entry is unchanged. That
     * offset is the new record's only when the cursor was at end of file.
     */
    method Insert(key: Bytes, value: Bytes)
      requires Fits(key, value)
      modifies this`log, this`pos, this`index
      ensures log == old(log) + Encode(crc, key, value)
      ensures pos == |log|
      ensures index == old(index)[key := old(pos)]
      ensures old(Synced()) ==> Synced()
    {
      ghost var oldLog := log;
      var position := InsertButIgnoreIndex(key, value);
      index := index[key := position];
      if IndexMatchesLog(crc, oldLog, old(index)) && position == |oldLog| {
        InsertKeepsIndexMatching(crc, oldLog, old(index), key, value);
      }
    }

    /**
     * `insert` as evidently intended: the index records the offset the
     * record was actually written at (the result of the seek to end of
     * file), so an exact index stays exact wherever the cursor was.
     */
    method InsertAtEnd(key: Bytes, value: Bytes)
      requires Fits(key, value)
      modifies this`log, this`pos, this`index
      ensures log == old(log) + Encode(crc, key, value)
      ensures pos == |log|
      ensures index == old(index)[key := |old(log)|]
      ensures old(IndexMatchesLog(crc, log, index)) ==> IndexMatchesLog(crc, log, index)
    {
      ghost var oldLog := log;
      var offset := SeekToEnd();
      var _ := InsertButIgnoreIndex(key, value);
      index := index[key := offset];
      if IndexMatchesLog(crc, oldLog, old(index)) {
        InsertKeepsIndexMatching(crc, oldLog, old(index), key, value);
      }
    }

    /** `update` is `insert`. */
    method Update(key: Bytes, value: Bytes)
      requires Fits(key, value)
      modifies this`log, this`pos, this`index
      ensures log == old(log) + Encode(crc, key, value)
      ensures pos == |log|
      ensures index == old(index)[key := old(pos)]
      ensures old(Synced()) ==> Synced()
    {
      Insert(key, value);
    }

    /** `delete` is `insert` of an empty value: a tombstone, not a removal. */
    method Delete(key: Bytes)
      requires Fits(key, [])
      modifies this`log, this`pos, this`index
      ensures log == old(log) + Encode(crc, key, [])
      ensures pos == |log|
      ensures index == old(index)[key := old(pos)]
      ensures key in index
      ensures old(Synced()) ==> Synced()
    {
      Insert(key, []);
    }
  }
}
