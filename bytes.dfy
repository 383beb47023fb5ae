/**
 * Bytes and the fixed-width integer encodings used on the HCI link and in the
 * GATT characteristic values: little-endian 16-bit fields (STORE_LE_16, the
 * opcode and handle fields of HCI packets) and big-endian 32-bit counters
 * (the time characteristics).
 */
module Bytes {

  /** One octet, as uint8_t. */
  type Byte = x: int | 0 <= x < 256

  const U16: int := 0x1_0000
  const U32: int := 0x1_0000_0000

  /** A uint32_t value. */
  type Word = x: int | 0 <= x < 0x1_0000_0000

  function Min(a: int, b: int): (m: int)
    ensures m <= a && m <= b && (m == a || m == b)
  {
    if a < b then a else b
  }

  /**
   * STORE_LE_16: the two bytes (uint8_t)val and (uint8_t)(val >> 8).
   * The shift is on a signed value; an arithmetic shift by 8 is floor
   * division by 256, which Euclidean division reproduces for every sign.
   */
  function StoreLE16(v: int): (r: seq<Byte>)
    ensures |r| == 2
  {
    [v % 256, (v / 256) % 256]
  }

  /** The unsigned 16-bit value stored little-endian at s[off], s[off + 1]. */
  function LoadLE16(s: seq<Byte>, off: nat): (v: int)
    requires off + 2 <= |s|
    ensures 0 <= v < U16
  {
    s[off] as int + 256 * s[off + 1] as int
  }

  /** Reading a 16-bit unsigned value back as the signed int16_t it stands for. */
  function ToInt16(v: int): (r: int)
    requires 0 <= v < U16
    ensures -0x8000 <= r < 0x8000
    ensures (r - v) % U16 == 0
  {
    if v < 0x8000 then v else v - U16
  }

  /** The 32-bit big-endian encoding: most significant byte first, each as (v >> k) & 0xFF. */
  function StoreBE32(v: int): (r: seq<Byte>)
    ensures |r| == 4
  {
    [(v / 0x100_0000) % 256, (v / 0x1_0000) % 256, (v / 0x100) % 256, v % 256]
  }

  function LoadBE32(s: seq<Byte>, off: nat): (v: int)
    requires off + 4 <= |s|
    ensures 0 <= v < U32
  {
    ((s[off] as int * 256 + s[off + 1] as int) * 256 + s[off + 2] as int) * 256 + s[off + 3] as int
  }

  lemma {:induction false} MulAtLeast(d: nat, k: int)
    requires k >= 1
    ensures d * k >= d
    decreases k
  {
    if k > 1 {
      MulAtLeast(d, k - 1);
      assert d * k == d * (k - 1) + d;
    }
  }

  /** Euclidean division is determined by its quotient-remainder decomposition. */
  lemma {:induction false} ModUnique(v: int, d: int, q: int, m: int)
    requires 0 < d && v == d * q + m && 0 <= m < d
    ensures v % d == m && v / d == q
  {
    var q', m' := v / d, v % d;
    assert v == d * q' + m';
    assert d * q - d * q' == m' - m;
    assert d * (q - q') == m' - m;
    if q > q' {
      MulAtLeast(d, q - q');
    } else if q < q' {
      MulAtLeast(d, q' - q);
    }
  }

  /** Storing then loading a 16-bit field keeps exactly the low 16 bits of the value. */
  lemma {:induction false} LE16RoundTrip(v: int)
    ensures LoadLE16(StoreLE16(v), 0) == v % U16
  {
    var q := v / 256;
    var r := v % 256;
    var hi := q % 256;
    var top := q / 256;
    assert q == 256 * top + hi;
    assert v == 256 * q + r;
    assert v == U16 * top + (r + 256 * hi);
    ModUnique(v, U16, top, r + 256 * hi);
  }

  /** An int16_t axis value survives STORE_LE_16 unchanged when read back as int16_t. */
  lemma {:induction false} LE16SignedRoundTrip(v: int)
    requires -0x8000 <= v < 0x8000
    ensures ToInt16(LoadLE16(StoreLE16(v), 0)) == v
  {
    LE16RoundTrip(v);
    if v < 0 {
      ModUnique(v, U16, -1, v + U16);
    } else {
      ModUnique(v, U16, 0, v);
    }
  }

  /** Every uint32_t value survives the big-endian encoding unchanged. */
  lemma {:induction false} BE32RoundTrip(v: int)
    requires 0 <= v < U32
    ensures LoadBE32(StoreBE32(v), 0) == v
  {
    var b0, r0 := v / 0x100_0000, v % 0x100_0000;
    var b1, r1 := r0 / 0x1_0000, r0 % 0x1_0000;
    var b2, b3 := r1 / 0x100, r1 % 0x100;
    assert v == 0x100_0000 * b0 + r0;
    assert r0 == 0x1_0000 * b1 + r1;
    assert r1 == 0x100 * b2 + b3;
    assert 0 <= b0 < 256;
    ModUnique(v, 0x1_0000, b0 * 256 + b1, r1);
    ModUnique(b0 * 256 + b1, 256, b0, b1);
    ModUnique(v, 0x100, (b0 * 256 + b1) * 256 + b2, b3);
    ModUnique((b0 * 256 + b1) * 256 + b2, 256, b0 * 256 + b1, b2);
    assert StoreBE32(v) == [b0, b1, b2, b3];
  }
}
