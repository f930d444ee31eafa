/**
 * The byte-level program of bytes/src/main.rs: a u32 and an i8 written
 * little-endian into a growing buffer, read back from a cursor over that
 * buffer in the same order, and a parity bit over the bytes written.
 */
module ByteNumbers {
  import opened Wrappers
  import opened LittleEndian

  type i8 = x: int | -0x80 <= x < 0x80

  datatype IoError = UnexpectedEof

  /** The number of set bits among the lowest `width` bits of `x`. */
  function BitCount(x: nat, width: nat): (n: nat)
    ensures n <= width
    ensures x == 0 ==> n == 0
  {
    if width == 0 then 0 else x % 2 + BitCount(x / 2, width - 1)
  }

  /** `u8::count_ones`. */
  function CountOnes(b: byte): (n: nat)
    ensures n <= 8
  {
    BitCount(b, 8)
  }

  /**
   * The set bits of all the bytes together: at most 8 per byte, so the u32
   * counter of `parity_bit` cannot overflow on fewer than 2^29 bytes.
   */
  function Ones(bytes: seq<byte>): (n: nat)
    ensures n <= 8 * |bytes|
  {
    if bytes == [] then 0 else Ones(bytes[..|bytes| - 1]) + CountOnes(bytes[|bytes| - 1])
  }

  /** Set bits add up over concatenation. */
  lemma {:induction false} OnesAppend(a: seq<byte>, b: seq<byte>)
    ensures Ones(a + b) == Ones(a) + Ones(b)
    decreases |b|
  {
    if b == [] {
      assert a + b == a;
    } else {
      var b' := b[..|b| - 1];
      assert (a + b)[..|a + b| - 1] == a + b';
      OnesAppend(a, b');
    }
  }

  /** The parity of a count survives the u32 wrap-around of the counter. */
  lemma WrapKeepsParity(n: nat)
    ensures (n % U32_LIMIT) % 2 == n % 2
  {
    var q := n / U32_LIMIT;
    assert n == q * U32_LIMIT + n % U32_LIMIT;
    assert q * U32_LIMIT == 2 * (q * 0x8000_0000);
  }

  /** Adding to the wrapped counter wraps the sum. */
  lemma WrapAdd(a: nat, c: nat)
    ensures ((a % U32_LIMIT) + c) % U32_LIMIT == (a + c) % U32_LIMIT
  {
    var q := a / U32_LIMIT;
    assert a + c == q * U32_LIMIT + ((a % U32_LIMIT) + c);
  }

  /**
   * `parity_bit`: 1 when the bytes hold an even number of set bits, 0 when
   * odd. The u32 counter wraps (a release build), which does not change its
   * parity.
   */
  method ParityBit(bytes: seq<byte>) returns (p: byte)
    ensures p == 0 || p == 1
    ensures p == 1 <==> Ones(bytes) % 2 == 0
  {
    var nOnes: u32 := 0;
    for i := 0 to |bytes|
      invariant nOnes == Ones(bytes[..i]) % U32_LIMIT
    {
      var ones := CountOnes(bytes[i]);
      assert bytes[..i + 1][..i] == bytes[..i];
      WrapAdd(Ones(bytes[..i]), ones);
      nOnes := (nOnes + ones) % U32_LIMIT;
    }
    assert bytes[..|bytes|] == bytes;
    WrapKeepsParity(Ones(bytes));
    p := if nOnes % 2 == 0 then 1 else 0;
  }

  /** `write_i8`: the two's-complement byte of `x`. */
  function I8ToByte(x: i8): (b: byte)
    ensures (b >= 0x80) == (x < 0)
    ensures ByteToI8(b) == x
  {
    if x < 0 then x + 0x100 else x
  }

  /** `read_i8`: the signed value of a byte. */
  function ByteToI8(b: byte): (x: i8)
    ensures (b >= 0x80) == (x < 0)
  {
    if b >= 0x80 then b - 0x100 else b
  }

  /** Every byte is the encoding of exactly one i8. */
  lemma I8ToByteOfByteToI8(b: byte)
    ensures I8ToByte(ByteToI8(b)) == b
  {
  }

  /** The bytes written for the u32 and then the i8. */
  function EncodeNumbers(one: u32, two: i8): (w: seq<byte>)
    ensures |w| == 5
  {
    U32ToLe(one) + [I8ToByte(two)]
  }

  /** A u32 then an i8 read from a cursor starting at 0 of `buf`; it fails exactly on fewer than five bytes. */
  function DecodeNumbers(buf: seq<byte>): (r: Result<(u32, i8), IoError>)
    ensures r.Err? <==> |buf| < 5
  {
    if |buf| < 4 then Err(UnexpectedEof)        // `read_u32` runs out
    else if |buf| < 5 then Err(UnexpectedEof)   // `read_i8` runs out
    else Ok((LeToU32(buf[..4]), ByteToI8(buf[4])))
  }

  /**
   * Round trip: reading a buffer that starts with the bytes written for
   * `(one, two)` gives back `one` and `two`, whatever follows them.
   */
  lemma DecodeEncodeNumbers(one: u32, two: i8, suffix: seq<byte>)
    ensures DecodeNumbers(EncodeNumbers(one, two) + suffix) == Ok((one, two))
  {
    var buf := EncodeNumbers(one, two) + suffix;
    assert buf[..4] == U32ToLe(one);
    LeToU32OfU32ToLe(one);
  }

  /** A buffer of five bytes or more decodes its first five: re-encoding the values read gives them back. */
  lemma DecodeNumbersEof(buf: seq<byte>)
    ensures |buf| >= 5 ==> EncodeNumbers(DecodeNumbers(buf).value.0, DecodeNumbers(buf).value.1) == buf[..5]
  {
    if |buf| >= 5 {
      U32ToLeOfLeToU32(buf[..4]);
      assert buf[..5] == buf[..4] + [buf[4]];
    }
  }

  /**
   * `write_numbers_to_file` without the f64: push the u32, then the i8,
   * into an empty buffer. `parity` is the parity bit the source prints.
   */
  method WriteNumbersToFile() returns (one: u32, two: i8, w: seq<byte>, parity: byte)
    ensures one == 1 && two == 2
    ensures w == EncodeNumbers(one, two) == [1, 0, 0, 0, 2]
    ensures parity == 1
  {
    w := [];
    one := 1;
    two := 2;
    w := w + U32ToLe(one);
    w := w + [I8ToByte(two)];
    assert Ones([1]) == 1;
    assert [1, 0, 0, 0][..3] == [1, 0, 0];
    assert [1, 0, 0][..2] == [1, 0];
    assert [1, 0][..1] == [1];
    assert w[..4] == [1, 0, 0, 0];
    parity := ParityBit(w);
  }

  /** `read_numbers_from_file` without the f64: a cursor from 0, the u32, then the i8. */
  method ReadNumbersFromFile(buf: seq<byte>) returns (r: Result<(u32, i8), IoError>)
    ensures r == DecodeNumbers(buf)
  {
    var one, cur := ReadU32(buf, 0);
    if one.None? {
      return Err(UnexpectedEof);
    }
    if cur + 1 > |buf| {
      return Err(UnexpectedEof);
    }
    var two := ByteToI8(buf[cur]);
    r := Ok((one.value, two));
  }

  /** `main`: what was written reads back equal, so neither `assert_eq!` fails. */
  method MainScenario() returns (r: Result<(), IoError>, one: u32, one': u32, two: i8, two': i8)
    ensures r == Ok(()) && one == one' && two == two'
  {
    var w, parity;
    one, two, w, parity := WriteNumbersToFile();
    DecodeEncodeNumbers(one, two, []);
    assert w + [] == w;
    var read := ReadNumbersFromFile(w);
    one', two' := read.value.0, read.value.1;
    r := Ok(());
  }
}
