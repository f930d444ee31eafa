/**
 * Fixed-width integers and their little-endian byte encoding, as the
 * `byteorder` crate's `write_u32::<LittleEndian>` / `read_u32::<LittleEndian>`
 * produce and consume them. A read from a cursor that runs out of bytes
 * consumes what is left and reports `UnexpectedEof`.
 */
module LittleEndian {
  import opened Wrappers

  const U32_LIMIT: int := 0x1_0000_0000

  type byte = x: int | 0 <= x < 0x100
  type u32 = x: int | 0 <= x < 0x1_0000_0000

  /** The four bytes of `x`, least significant first. */
  function U32ToLe(x: u32): (s: seq<byte>)
    ensures |s| == 4
  {
    [x % 0x100, (x / 0x100) % 0x100, (x / 0x1_0000) % 0x100, x / 0x100_0000]
  }

  /** The value whose little-endian bytes are `s`: the first byte is the least significant. */
  function LeToU32(s: seq<byte>): (x: u32)
    requires |s| == 4
    ensures x % 0x100 == s[0]
    ensures x / 0x100_0000 == s[3]
  {
    s[0] as int + 0x100 * s[1] as int + 0x1_0000 * s[2] as int + 0x100_0000 * s[3] as int
  }

  /** Reading back what was written gives the same value. */
  lemma LeToU32OfU32ToLe(x: u32)
    ensures LeToU32(U32ToLe(x)) == x
  {
    var b0, b1, b2, b3 := x % 0x100, (x / 0x100) % 0x100, (x / 0x1_0000) % 0x100, x / 0x100_0000;
    assert x / 0x100 == b1 + 0x100 * (x / 0x1_0000);
    assert x / 0x1_0000 == b2 + 0x100 * b3;
  }

  /** Every four bytes are the encoding of exactly one value. */
  lemma U32ToLeOfLeToU32(s: seq<byte>)
    requires |s| == 4
    ensures U32ToLe(LeToU32(s)) == s
  {
    var x := LeToU32(s);
    assert x / 0x100 == s[1] as int + 0x100 * s[2] as int + 0x1_0000 * s[3] as int;
    assert x / 0x1_0000 == s[2] as int + 0x100 * s[3] as int;
    assert x / 0x100_0000 == s[3];
  }

  /** `read_u32::<LittleEndian>` on a cursor at `at` over `buf`. */
  method ReadU32(buf: seq<byte>, at: nat) returns (x: Option<u32>, next: nat)
    ensures at + 4 <= |buf| ==> x == Some(LeToU32(buf[at..at + 4])) && next == at + 4
    ensures at + 4 > |buf| ==> x == None && next == (if at < |buf| then |buf| else at)
  {
    if at + 4 <= |buf| {
      x, next := Some(LeToU32(buf[at..at + 4])), at + 4;
    } else {
      x, next := None, if at < |buf| then |buf| else at;
    }
  }
}
