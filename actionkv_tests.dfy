/**
 * Whole-store scenarios: the two tests of actionkv/src/lib.rs, a reopen
 * and replay of three writes, deletion as a tombstone, and the index entry
 * `insert` records when the cursor is not at end of file.
 */
module ActionKvTests {
  import opened Wrappers
  import opened LittleEndian
  import opened Codec
  import opened ActionKv

  const KEY_A: Bytes := [0x61]   // "a"
  const KEY_B: Bytes := [0x62]   // "b"
  const KEY_C: Bytes := [0x63]   // "c"
  const ONE: Bytes := [0x31]     // "1"
  const TWO: Bytes := [0x32]     // "2"
  const THREE: Bytes := [0x33]   // "3"

  /** `test_open`: a freshly opened store has an empty index, whatever the file holds. */
  method TestOpen(crc: Checksum, contents: Bytes) returns (size: nat)
    ensures size == 0
  {
    var kv := new ActionKV.Open(crc, contents);
    size := |kv.index|;
  }

  /**
   * `test_load`: a file holding one hand-written record (key `[0xAA]`, value
   * `[0xBB]`, checksum over `[0xAA, 0xBB]`) loads without error into an index
   * of size 1.
   */
  method TestLoad(crc: Checksum) returns (r: Result<(), Error>, size: nat)
    ensures r == Ok(()) && size == 1
  {
    var file := U32ToLe(crc([0xAA, 0xBB])) + U32ToLe(0x01) + U32ToLe(0x01) + [0xAA, 0xBB];
    assert [0xAA] + [0xBB] == [0xAA, 0xBB];
    assert file == [] + Encode(crc, [0xAA], [0xBB]);
    EmptyLogMatchesEmptyIndex(crc);
    FramedAppend(crc, [], 0, [0xAA], [0xBB]);
    var kv := new ActionKV.Open(crc, file);
    r := kv.Load();
    assert ScanFrom(crc, file, 0).entries == [Entry(0, KeyValuePair([0xAA], [0xBB]))];
    assert kv.index == map[[0xAA] := 0];
    size := |kv.index|;
  }

  /** The file after `insert("a","1")`, `insert("b","2")`, `insert("a","3")` on an empty store. */
  function ThreeWrites(crc: Checksum): Bytes {
    [] + Encode(crc, KEY_A, ONE) + Encode(crc, KEY_B, TWO) + Encode(crc, KEY_A, THREE)
  }

  /** The records of that file, in order, with their offsets. */
  const THREE_ENTRIES: seq<Entry> :=
    [Entry(0, KeyValuePair(KEY_A, ONE)), Entry(14, KeyValuePair(KEY_B, TWO)), Entry(28, KeyValuePair(KEY_A, THREE))]

  /** That file is three 14-byte records at offsets 0, 14 and 28, and replays cleanly. */
  lemma ThreeWritesReplay(crc: Checksum)
    ensures Framed(crc, ThreeWrites(crc), 0) && |ThreeWrites(crc)| == 42
    ensures ScanFrom(crc, ThreeWrites(crc), 0).entries == THREE_ENTRIES
  {
    EmptyLogMatchesEmptyIndex(crc);
    FramedAppend(crc, [], 0, KEY_A, ONE);
    FramedAppend(crc, [] + Encode(crc, KEY_A, ONE), 0, KEY_B, TWO);
    FramedAppend(crc, [] + Encode(crc, KEY_A, ONE) + Encode(crc, KEY_B, TWO), 0, KEY_A, THREE);
  }

  /** Replaying those records into an empty index gives "a" at 28 and "b" at 14: the last write wins. */
  lemma ThreeEntriesIndex()
    ensures Apply(map[], THREE_ENTRIES) == map[KEY_A := 28, KEY_B := 14]
    ensures |map[KEY_A := 28, KEY_B := 14]| == 2
  {
    var e1 := THREE_ENTRIES[..1];
    var e2 := THREE_ENTRIES[..2];
    assert e1[..0] == [];
    assert Apply(map[], e1) == map[KEY_A := 0];
    assert e2[..1] == e1;
    assert Apply(map[], e2) == map[KEY_A := 0][KEY_B := 14];
    assert Apply(map[], THREE_ENTRIES) == map[KEY_A := 0][KEY_B := 14][KEY_A := 28];
    assert KEY_A[0] != KEY_B[0];
    assert map[KEY_A := 0][KEY_B := 14][KEY_A := 28] == map[KEY_A := 28, KEY_B := 14];
  }

  /** Among those records the last for "a" holds "3", the last for "b" holds "2", and none is for "c". */
  lemma ThreeEntriesLastMatch()
    ensures LastMatch(THREE_ENTRIES, KEY_A) == Some((28, THREE))
    ensures LastMatch(THREE_ENTRIES, KEY_B) == Some((14, TWO))
    ensures LastMatch(THREE_ENTRIES, KEY_C) == None
  {
    var e1 := THREE_ENTRIES[..1];
    var e2 := THREE_ENTRIES[..2];
    assert e1[..0] == [];
    assert e2[..1] == e1;
    assert KEY_C[0] != KEY_A[0] && KEY_C[0] != KEY_B[0];
    assert LastMatch(e1, KEY_C) == LastMatch([], KEY_C);
    assert LastMatch(e2, KEY_C) == LastMatch(e1, KEY_C);
    assert LastMatch(THREE_ENTRIES, KEY_C) == LastMatch(e2, KEY_C);
    assert LastMatch(e2, KEY_B) == Some((14, TWO));
  }

  /** The three inserts, on a store opened over an empty file. */
  method WriteThree(crc: Checksum) returns (file: Bytes)
    ensures file == ThreeWrites(crc)
  {
    var store := new ActionKV.Open(crc, []);
    store.Insert(KEY_A, ONE);
    store.Insert(KEY_B, TWO);
    store.Insert(KEY_A, THREE);
    file := store.log;
  }

  /**
   * Reopening that file, the cursor is at 0 before any `load`, so `find("a")`
   * scans the whole log and returns the third record, at offset 28.
   */
  method ReopenFindScenario(crc: Checksum) returns (found: Result<Option<(nat, Bytes)>, Error>)
    ensures found == Ok(Some((28, THREE)))
  {
    var file := WriteThree(crc);
    ThreeWritesReplay(crc);
    FramedScan(crc, file, 0);
    ThreeEntriesLastMatch();
    var reopened := new ActionKV.Open(crc, file);
    found := reopened.Find(KEY_A);
  }

  /**
   * Reopening that file and loading it: `load` succeeds with two keys, and
   * `find` right after `load` starts at end of file and finds nothing.
   */
  method ReopenLoadScenario(crc: Checksum)
    returns (loaded: Result<(), Error>, size: nat, foundAfterLoad: Result<Option<(nat, Bytes)>, Error>)
    ensures loaded == Ok(()) && size == 2
    ensures foundAfterLoad == Ok(None)
  {
    var file := WriteThree(crc);
    ThreeWritesReplay(crc);
    var handle := new ActionKV.Open(crc, file);
    loaded := handle.Load();
    ThreeEntriesIndex();
    size := |handle.index|;
    DecodeEofIff(crc, file, 42);
    foundAfterLoad := handle.Find(KEY_A);
  }

  /**
   * After reopening and loading that file, `get` returns the last value
   * written for each key (last write wins) and nothing for a key never written.
   */
  method ReopenGetScenario(crc: Checksum)
    returns (getA: Result<Option<Bytes>, Error>, getB: Result<Option<Bytes>, Error>, getC: Result<Option<Bytes>, Error>)
    ensures getA == Ok(Some(THREE)) && getB == Ok(Some(TWO)) && getC == Ok(None)
  {
    var file := WriteThree(crc);
    ThreeWritesReplay(crc);
    var handle := new ActionKV.Open(crc, file);
    var _ := handle.Load();
    ThreeEntriesLastMatch();
    getA := handle.Get(KEY_A);
    getB := handle.Get(KEY_B);
    getC := handle.Get(KEY_C);
  }

  /**
   * Deletion is a tombstone: after `insert("a","1")` and `delete("a")`,
   * `get("a")` returns an empty value, not `None`, while a key never written
   * is absent.
   */
  method DeleteScenario(crc: Checksum) returns (deleted: Result<Option<Bytes>, Error>, unknown: Result<Option<Bytes>, Error>)
    ensures deleted == Ok(Some([])) && unknown == Ok(None)
  {
    var store := new ActionKV.Open(crc, []);
    store.Insert(KEY_A, ONE);
    ghost var log1 := store.log;
    store.Delete(KEY_A);
    DecodeEncode(crc, log1, KEY_A, [], []);
    assert store.log == log1 + Encode(crc, KEY_A, []) + [];
    deleted := store.Get(KEY_A);
    unknown := store.Get(KEY_B);
  }

  /**
   * With the corrected insert, `insert("c","3")` after `get("a")` indexes `c`
   * at its own record wherever the read left the cursor, so `get("c")`
   * returns "3".
   */
  method InsertAtEndAfterGetScenario(crc: Checksum) returns (got: Result<Option<Bytes>, Error>)
    ensures got == Ok(Some(THREE))
  {
    var store := new ActionKV.Open(crc, []);
    store.InsertAtEnd(KEY_A, ONE);
    store.InsertAtEnd(KEY_B, TWO);
    ghost var log2 := store.log;
    var _ := store.Get(KEY_A);
    store.InsertAtEnd(KEY_C, THREE);
    DecodeEncode(crc, log2, KEY_C, THREE, []);
    assert store.log == log2 + Encode(crc, KEY_C, THREE) + [];
    got := store.Get(KEY_C);
  }

  /**
   * As written, on a store opened over a file holding `a = "1"` and not yet
   * loaded, the cursor is at 0, so `insert("b","2")` points `b` at offset 0
   * and `get("b")` returns "1".
   */
  method InsertWithoutLoadScenario(crc: Checksum) returns (got: Result<Option<Bytes>, Error>)
    ensures got == Ok(Some(ONE))
  {
    var file := Encode(crc, KEY_A, ONE);
    var store := new ActionKV.Open(crc, file);
    store.Insert(KEY_B, TWO);
    DecodeEncode(crc, [], KEY_A, ONE, Encode(crc, KEY_B, TWO));
    assert store.log == [] + Encode(crc, KEY_A, ONE) + Encode(crc, KEY_B, TWO);
    got := store.Get(KEY_B);
  }

  /** With the corrected insert the same sequence gives back "2". */
  method InsertAtEndWithoutLoadScenario(crc: Checksum) returns (got: Result<Option<Bytes>, Error>)
    ensures got == Ok(Some(TWO))
  {
    var file := Encode(crc, KEY_A, ONE);
    var store := new ActionKV.Open(crc, file);
    store.InsertAtEnd(KEY_B, TWO);
    DecodeEncode(crc, file, KEY_B, TWO, []);
    assert store.log == file + Encode(crc, KEY_B, TWO) + [];
    got := store.Get(KEY_B);
  }
}
