/** Signed 32-bit little-endian integers, as `ByteBuffer.getInt` reads them in little-endian order. */
module LittleEndian {

  /** An unsigned byte. */
  newtype byte = b: int | 0 <= b < 0x100

  const INT32_MIN: int := -0x8000_0000
  const INT32_LIMIT: int := 0x8000_0000
  const TWO_TO_32: int := 0x1_0000_0000

  /** The values of a Java `int`. */
  predicate IsInt32(x: int) {
    INT32_MIN <= x < INT32_LIMIT
  }

  /** The four bytes at `at`, least significant first, read as a two's-complement value. */
  function Int32At(buf: seq<byte>, at: int): (x: int)
    requires 0 <= at && at + 4 <= |buf|
    ensures IsInt32(x)
  {
    var u := buf[at] as int + 0x100 * (buf[at + 1] as int + 0x100 * (buf[at + 2] as int + 0x100 * buf[at + 3] as int));
    if u < INT32_LIMIT then u else u - TWO_TO_32
  }

  /** The four bytes that encode `x`, least significant first. */
  function Int32Bytes(x: int): (bytes: seq<byte>)
    requires IsInt32(x)
    ensures |bytes| == 4
  {
    var u := if x < 0 then x + TWO_TO_32 else x;
    var u1 := u / 0x100;
    var u2 := u1 / 0x100;
    [(u % 0x100) as byte, (u1 % 0x100) as byte, (u2 % 0x100) as byte, (u2 / 0x100) as byte]
  }

  /** Base-256 digits of an unsigned 32-bit value put back together give the value. */
  lemma ByteDigits(u: int)
    requires 0 <= u < TWO_TO_32
    ensures
      var u1 := u / 0x100;
      var u2 := u1 / 0x100;
      u == u % 0x100 + 0x100 * (u1 % 0x100 + 0x100 * (u2 % 0x100 + 0x100 * (u2 / 0x100)))
  {
    var u1 := u / 0x100;
    var u2 := u1 / 0x100;
    assert u2 == u2 % 0x100 + 0x100 * (u2 / 0x100);
    assert u1 == u1 % 0x100 + 0x100 * u2;
    assert u == u % 0x100 + 0x100 * u1;
  }

  /** Reading back the bytes that encode `x`, wherever they sit in a buffer, gives `x`. */
  lemma Int32RoundTrip(x: int, buf: seq<byte>, at: int)
    requires IsInt32(x)
    requires 0 <= at && at + 4 <= |buf|
    requires buf[at..at + 4] == Int32Bytes(x)
    ensures Int32At(buf, at) == x
  {
    var u := if x < 0 then x + TWO_TO_32 else x;
    var u1 := u / 0x100;
    var u2 := u1 / 0x100;
    var bytes := Int32Bytes(x);
    assert buf[at] == bytes[0] && buf[at + 1] == bytes[1];
    assert buf[at + 2] == bytes[2] && buf[at + 3] == bytes[3];
    ByteDigits(u);
  }
}
