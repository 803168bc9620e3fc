/**
  Little-endian integer encodings of the kind Go's `encoding/binary`
  package provides (`LittleEndian.Uint16`, `Uint32`, `PutUint32`), and the
  two's-complement reinterpretation `int32(u)` of an unsigned 32-bit value.
  Integers here are unbounded, so every width is a subset type and every
  truncation is written out.
 */
module LittleEndian {

  type byte = b: int | 0 <= b < 0x100
  type u16 = x: int | 0 <= x < 0x1_0000
  type u32 = x: int | 0 <= x < 0x1_0000_0000
  type i32 = x: int | -0x8000_0000 <= x < 0x8000_0000

  /** `binary.LittleEndian.Uint16`: the first byte is the least significant. */
  function Uint16(b: seq<byte>): u16
    requires |b| == 2
  {
    b[0] as int + 0x100 * b[1] as int
  }

  /** `binary.LittleEndian.Uint32`: the first byte is the least significant. */
  function Uint32(b: seq<byte>): u32
    requires |b| == 4
  {
    b[0] as int + 0x100 * b[1] as int + 0x1_0000 * b[2] as int + 0x100_0000 * b[3] as int
  }

  /** `binary.LittleEndian.PutUint16`, returning the two bytes it writes. */
  function PutUint16(x: u16): (b: seq<byte>)
    ensures |b| == 2
    ensures Uint16(b) == x
  {
    [x % 0x100, x / 0x100]
  }

  /** `binary.LittleEndian.PutUint32`, returning the four bytes it writes. */
  function PutUint32(x: u32): (b: seq<byte>)
    ensures |b| == 4
    ensures Uint32(b) == x
  {
    DivModDigits(x);
    [x % 0x100, (x / 0x100) % 0x100, (x / 0x1_0000) % 0x100, x / 0x100_0000]
  }

  /** Splitting a 32-bit value into base-256 digits loses nothing. */
  lemma DivModDigits(x: u32)
    ensures x / 0x100_0000 < 0x100
    ensures x == x % 0x100 + 0x100 * ((x / 0x100) % 0x100)
                 + 0x1_0000 * ((x / 0x1_0000) % 0x100) + 0x100_0000 * (x / 0x100_0000)
  {
    var b0 := x % 0x100;
    var a := x / 0x100;
    var b1 := a % 0x100;
    var c := a / 0x100;
    var b2 := c % 0x100;
    var e := c / 0x100;
    assert x == 0x1_0000 * c + (0x100 * b1 + b0);
    Div65536(x, c, 0x100 * b1 + b0);
    assert x == 0x100_0000 * e + (0x1_0000 * b2 + 0x100 * b1 + b0);
    Div2to24(x, e, 0x1_0000 * b2 + 0x100 * b1 + b0);
  }

  /** Quotient and remainder by 2^8, 2^16 and 2^24 are the unique ones. */
  lemma Div256(x: int, q: int, r: int)
    requires 0 <= r < 0x100 && x == 0x100 * q + r
    ensures x / 0x100 == q && x % 0x100 == r
  {
  }

  lemma Div65536(x: int, q: int, r: int)
    requires 0 <= r < 0x1_0000 && x == 0x1_0000 * q + r
    ensures x / 0x1_0000 == q && x % 0x1_0000 == r
  {
  }

  lemma Div2to24(x: int, q: int, r: int)
    requires 0 <= r < 0x100_0000 && x == 0x100_0000 * q + r
    ensures x / 0x100_0000 == q && x % 0x100_0000 == r
  {
  }

  /** `int32(u)` in Go: the same 32 bits read as a two's-complement number. */
  function Int32(u: u32): (r: i32)
    ensures r >= 0 <==> u < 0x8000_0000
    ensures r % 0x1_0000_0000 == u
  {
    if u < 0x8000_0000 then u else u - 0x1_0000_0000
  }

  /** `uint32(x)` in Go for a signed 32-bit value: the inverse of `Int32`. */
  function Uint32Of(x: i32): (u: u32)
    ensures Int32(u) == x
  {
    x % 0x1_0000_0000
  }

  /** Decoding four bytes and encoding the result gives the same bytes back. */
  lemma PutUint32OfUint32(b: seq<byte>)
    requires |b| == 4
    ensures PutUint32(Uint32(b)) == b
  {
    var x := Uint32(b);
    var b0, b1, b2, b3 := b[0] as int, b[1] as int, b[2] as int, b[3] as int;
    var t2 := b2 + 0x100 * b3;
    var t := b1 + 0x100 * t2;
    Div256(x, t, b0);
    Div256(t, t2, b1);
    Div65536(x, t2, b0 + 0x100 * b1);
    Div256(t2, b3, b2);
    Div2to24(x, b3, b0 + 0x100 * b1 + 0x1_0000 * b2);
    assert PutUint32(x) == [b0, b1, b2, b3];
  }

  /** Decoding two bytes and encoding the result gives the same bytes back. */
  lemma PutUint16OfUint16(b: seq<byte>)
    requires |b| == 2
    ensures PutUint16(Uint16(b)) == b
  {
    Div256(Uint16(b), b[1] as int, b[0] as int);
    assert PutUint16(Uint16(b)) == [b[0], b[1]];
  }

  /** Two four-byte sequences decode to the same number only if they are equal. */
  lemma Uint32Injective(a: seq<byte>, b: seq<byte>)
    requires |a| == 4 && |b| == 4
    ensures Uint32(a) == Uint32(b) <==> a == b
  {
    if Uint32(a) == Uint32(b) {
      PutUint32OfUint32(a);
      PutUint32OfUint32(b);
    }
  }

  /** The two high-order bytes of the encoding are zero exactly for 16-bit values. */
  lemma HighTwoBytesZero(x: u32)
    ensures PutUint32(x)[2..4] == [0, 0] <==> x < 0x1_0000
  {
    var b := PutUint32(x);
    DivModDigits(x);
    if x < 0x1_0000 {
      Div65536(x, 0, x);
      Div2to24(x, 0, x);
      assert b[2] == 0 && b[3] == 0;
    }
    if b[2..4] == [0, 0] {
      assert b[2] == 0 && b[3] == 0;
      assert x == b[0] as int + 0x100 * b[1] as int;
    }
  }

  /** The three high-order bytes of the encoding are zero exactly for 8-bit values. */
  lemma HighThreeBytesZero(x: u32)
    ensures PutUint32(x)[1..4] == [0, 0, 0] <==> x < 0x100
  {
    var b := PutUint32(x);
    DivModDigits(x);
    if x < 0x100 {
      Div256(x, 0, x);
      Div65536(x, 0, x);
      Div2to24(x, 0, x);
      assert b[1] == 0 && b[2] == 0 && b[3] == 0;
    }
    if b[1..4] == [0, 0, 0] {
      assert b[1] == 0 && b[2] == 0 && b[3] == 0;
      assert x == b[0];
    }
  }
}
