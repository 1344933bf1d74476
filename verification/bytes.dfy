/** The big-endian readers of main.cpp (`read8`, `read16`, `read32` and their
    signed variants). Each reader consumes bytes from the front of a buffer;
    the C++ erases them from a `std::vector<u1>` passed by reference, the model
    returns the value together with the remaining buffer.

    Multi-byte quantities in a class file are big-endian (The Java Virtual
    Machine Specification, section 4.1): `Be16` and `Be32` are the encodings
    the readers invert. */
module Bytes {
  import opened Wrappers

  type byte = x: int | 0 <= x < 0x100
  type u16 = x: int | 0 <= x < 0x1_0000
  type u32 = x: int | 0 <= x < 0x1_0000_0000
  type u64 = x: int | 0 <= x < 0x1_0000_0000_0000_0000
  type Buffer = seq<byte>

  /** A value read from the front of a buffer, and what is left after it. */
  datatype Read<+T> = Read(value: T, rest: Buffer)

  function Be16(v: u16): (bs: Buffer)
    ensures |bs| == 2
  {
    [v / 0x100, v % 0x100]
  }

  function Be32(v: u32): (bs: Buffer)
    ensures |bs| == 4
  {
    Be16(v / 0x1_0000) + Be16(v % 0x1_0000)
  }

  /** `read8`: the first byte. `front()` of an empty vector is undefined in
      the C++; the model fails with `Truncated`. */
  function Read8(buf: Buffer): (r: Result<Read<byte>>)
    ensures r.Ok? <==> |buf| >= 1
    ensures r.Ok? ==> buf == [r.value.value] + r.value.rest
  {
    if |buf| == 0 then Fail(Truncated) else Ok(Read(buf[0], buf[1..]))
  }

  /** `read16`: most significant byte first. */
  function Read16(buf: Buffer): (r: Result<Read<u16>>)
    ensures r.Ok? <==> |buf| >= 2
    ensures r.Ok? ==> buf == Be16(r.value.value) + r.value.rest
  {
    var msb :- Read8(buf);
    var lsb :- Read8(msb.rest);
    Ok(Read(msb.value * 0x100 + lsb.value, lsb.rest))
  }

  /** `read32`: two `read16`s, the first one the high half. */
  function Read32(buf: Buffer): (r: Result<Read<u32>>)
    ensures r.Ok? <==> |buf| >= 4
    ensures r.Ok? ==> buf == Be32(r.value.value) + r.value.rest
  {
    var msb :- Read16(buf);
    var lsb :- Read16(msb.rest);
    assert buf == Be16(msb.value) + Be16(lsb.value) + lsb.rest;
    Ok(Read(msb.value * 0x1_0000 + lsb.value, lsb.rest))
  }

  /** `count` bytes taken one `read8` at a time. */
  function ReadBytes(buf: Buffer, count: nat): (r: Result<Read<Buffer>>)
    ensures r.Ok? <==> |buf| >= count
    ensures r.Ok? ==> |r.value.value| == count && buf == r.value.value + r.value.rest
  {
    if |buf| < count then Fail(Truncated) else Ok(Read(buf[..count], buf[count..]))
  }

  /** The two's-complement reading of the bit pattern `v` in the width whose
      signed range is `[-half, half)` and unsigned range `[0, 2 * half)`:
      the C++ conversions from `u1`, `u2`, `u4`, `u8` to `s1`, `s2`, `s4`,
      `s8`. */
  function Signed(v: nat, half: nat): (s: int)
    requires v < 2 * half
    ensures -(half as int) <= s < half
    ensures s == v || s == v - 2 * half
  {
    if v >= half then v - 2 * half else v
  }

  /** The bit pattern of a signed number. */
  function Unsigned(s: int, half: nat): (v: nat)
    requires -(half as int) <= s < half
    ensures v < 2 * half
    ensures v == s || v == s + 2 * half
  {
    if s < 0 then s + 2 * half else s
  }

  lemma SignedUnsigned(s: int, half: nat)
    requires -(half as int) <= s < half
    ensures Signed(Unsigned(s, half), half) == s
  {
  }

  lemma UnsignedSigned(v: nat, half: nat)
    requires v < 2 * half
    ensures Unsigned(Signed(v, half), half) == v
  {
  }

  function ReadS8(buf: Buffer): (r: Result<Read<int>>)
    ensures r.Ok? <==> |buf| >= 1
    ensures r.Ok? ==> -0x80 <= r.value.value < 0x80
    ensures r.Ok? ==> buf == [Unsigned(r.value.value, 0x80)] + r.value.rest
  {
    var b :- Read8(buf);
    UnsignedSigned(b.value, 0x80);
    Ok(Read(Signed(b.value, 0x80), b.rest))
  }

  /** `reads16`: the `read16` result reinterpreted, values from 32768 up
      standing for the value minus 65536. */
  function ReadS16(buf: Buffer): (r: Result<Read<int>>)
    ensures r.Ok? <==> |buf| >= 2
    ensures r.Ok? ==> -0x8000 <= r.value.value < 0x8000
    ensures r.Ok? ==> buf == Be16(Unsigned(r.value.value, 0x8000)) + r.value.rest
  {
    var w :- Read16(buf);
    UnsignedSigned(w.value, 0x8000);
    Ok(Read(Signed(w.value, 0x8000), w.rest))
  }

  /** `reads32` (used for `CONSTANT_Integer`). */
  function ReadS32(buf: Buffer): (r: Result<Read<int>>)
    ensures r.Ok? <==> |buf| >= 4
    ensures r.Ok? ==> -0x8000_0000 <= r.value.value < 0x8000_0000
    ensures r.Ok? ==> buf == Be32(Unsigned(r.value.value, 0x8000_0000)) + r.value.rest
  {
    var w :- Read32(buf);
    UnsignedSigned(w.value, 0x8000_0000);
    Ok(Read(Signed(w.value, 0x8000_0000), w.rest))
  }

  lemma Read16Be16(v: u16, rest: Buffer)
    ensures Read16(Be16(v) + rest) == Ok(Read(v, rest))
  {
    assert (Be16(v) + rest)[2..] == rest;
  }

  lemma Read32Be32(v: u32, rest: Buffer)
    ensures Read32(Be32(v) + rest) == Ok(Read(v, rest))
  {
    var hi, lo := v / 0x1_0000, v % 0x1_0000;
    assert Be32(v) + rest == Be16(hi) + (Be16(lo) + rest);
    Read16Be16(hi, Be16(lo) + rest);
    Read16Be16(lo, rest);
  }

  /** A u4 is the first u2 times 65536 plus the second, and uses exactly
      the four bytes the two u2 reads use. */
  lemma Read32OfTwoRead16(buf: Buffer)
    requires |buf| >= 4
    ensures Read32(buf).value.value == Read16(buf).value.value * 0x1_0000 + Read16(buf[2..]).value.value
    ensures Read32(buf).value.rest == buf[4..]
  {
    var hi := Read16(buf).value;
    assert hi.rest == buf[2..];
    assert Read16(buf[2..]).value.rest == buf[4..];
  }

  lemma ReadS16RoundTrip(x: int, rest: Buffer)
    requires -0x8000 <= x < 0x8000
    ensures ReadS16(Be16(Unsigned(x, 0x8000)) + rest) == Ok(Read(x, rest))
  {
    Read16Be16(Unsigned(x, 0x8000), rest);
  }

  lemma ReadS32RoundTrip(x: int, rest: Buffer)
    requires -0x8000_0000 <= x < 0x8000_0000
    ensures ReadS32(Be32(Unsigned(x, 0x8000_0000)) + rest) == Ok(Read(x, rest))
  {
    Read32Be32(Unsigned(x, 0x8000_0000), rest);
  }
}
