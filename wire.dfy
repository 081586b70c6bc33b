/** Byte-level values of the RFB wire format: the C integer widths the client uses,
    the narrowing conversions between them, and the byte-order conversions
    (ntohs/ntohl on reads, htons/htonl on writes) that put every multi-byte
    field on the wire in big-endian order.  The blit reads pixels in host order,
    which this model fixes as little-endian. */
module Wire {

  type byte = x: int | 0 <= x < 0x100
  type u16 = x: int | 0 <= x < 0x1_0000
  type u32 = x: int | 0 <= x < 0x1_0000_0000

  datatype Option<T> = None | Some(value: T)

  /** How a step of the client ends: it returns, or the whole process exits with a status code. */
  datatype Outcome<T> = Done(value: T) | Exit(code: int)

  /** 256^n, the number of values an n-byte field can hold. */
  function Pow256(n: nat): (r: nat)
    ensures r >= 1
  {
    if n == 0 then 1 else 256 * Pow256(n - 1)
  }

  /** 2^n, the divisor of a right shift by n. */
  function Pow2(n: nat): (r: nat)
    ensures r >= 1
  {
    if n == 0 then 1 else 2 * Pow2(n - 1)
  }

  /** The C conversion of an int to u_int16_t: only the low 16 bits survive. */
  function U16(v: int): (r: u16)
    ensures (v - r) % 0x1_0000 == 0
    ensures 0 <= v < 0x1_0000 ==> r == v
  {
    v % 0x1_0000
  }

  /** The C conversion of an int to u_int32_t. */
  function U32(v: int): (r: u32)
    ensures (v - r) % 0x1_0000_0000 == 0
    ensures 0 <= v < 0x1_0000_0000 ==> r == v
  {
    v % 0x1_0000_0000
  }

  /** The two's-complement reading of a 32-bit pattern as a signed int
      (assigning a u_int32_t to an int or int32_t). */
  function S32(u: u32): (r: int)
    ensures -0x8000_0000 <= r < 0x8000_0000
    ensures U32(r) == u
    ensures r < 0 <==> u >= 0x8000_0000
  {
    if u < 0x8000_0000 then u else u - 0x1_0000_0000
  }

  /** The value of a big-endian byte string (ntohs/ntohl). */
  function FromBE(s: seq<byte>): (r: nat)
    ensures r < Pow256(|s|)
  {
    if s == [] then 0 else FromBE(s[..|s| - 1]) * 256 + s[|s| - 1]
  }

  /** The n-byte big-endian encoding of v (htons/htonl), most significant byte first. */
  function ToBE(v: nat, n: nat): (s: seq<byte>)
    ensures |s| == n
  {
    if n == 0 then [] else ToBE(v / 256, n - 1) + [v % 256]
  }

  /** The value of a little-endian byte string: how the blit's `*src++` reads a
      4-byte pixel on a little-endian host. */
  function FromLE(s: seq<byte>): (r: nat)
    ensures r < Pow256(|s|)
  {
    if s == [] then 0 else s[0] + 256 * FromLE(s[1..])
  }

  function BE16(v: u16): (s: seq<byte>)
    ensures |s| == 2
  {
    ToBE(v, 2)
  }

  function BE32(v: u32): (s: seq<byte>)
    ensures |s| == 4
  {
    ToBE(v, 4)
  }

  /** Decoding a big-endian encoding gives back the value, for every value that fits. */
  lemma {:induction false} FromToBE(v: nat, n: nat)
    requires v < Pow256(n)
    ensures FromBE(ToBE(v, n)) == v
  {
    if n > 0 {
      var s := ToBE(v, n);
      assert s[..n - 1] == ToBE(v / 256, n - 1);
      assert v / 256 < Pow256(n - 1);
      FromToBE(v / 256, n - 1);
    }
  }

  /** Encoding the value of a byte string gives back the byte string. */
  lemma {:induction false} ToFromBE(s: seq<byte>)
    ensures ToBE(FromBE(s), |s|) == s
  {
    if s != [] {
      var init := s[..|s| - 1];
      var v := FromBE(s);
      assert v / 256 == FromBE(init) && v % 256 == s[|s| - 1];
      ToFromBE(init);
      assert s == init + [s[|s| - 1]];
    }
  }

  /** A one-byte field is its byte (read_u8). */
  lemma FromBEOne(s: seq<byte>)
    requires |s| == 1
    ensures FromBE(s) == s[0]
  {
    assert s[..0] == [];
  }

  /** htons then ntohs is the identity on u16. */
  lemma BE16RoundTrip(v: u16)
    ensures FromBE(BE16(v)) == v
  {
    FromToBE(v, 2);
  }

  /** htonl then ntohl is the identity on u32. */
  lemma BE32RoundTrip(v: u32)
    ensures FromBE(BE32(v)) == v
  {
    FromToBE(v, 4);
  }

  /** write_s32 followed by read_s32 gives back every int32 value:
      the value travels as its 32-bit two's-complement pattern. */
  lemma S32RoundTrip(v: int)
    requires -0x8000_0000 <= v < 0x8000_0000
    ensures S32(FromBE(BE32(U32(v)))) == v
  {
    BE32RoundTrip(U32(v));
  }

  /** The four bytes of a 32-bit big-endian field, most significant first. */
  lemma BE32Bytes(v: u32)
    ensures BE32(v) == [v / 0x100_0000, (v / 0x1_0000) % 256, (v / 256) % 256, v % 256]
  {
    var s := ToBE(v, 4);
    assert s == ToBE(v / 256, 3) + [v % 256];
    assert ToBE(v / 256, 3) == ToBE(v / 256 / 256, 2) + [(v / 256) % 256];
    assert ToBE(v / 256 / 256, 2) == ToBE(v / 256 / 256 / 256, 1) + [(v / 256 / 256) % 256];
    assert v / 256 / 256 == v / 0x1_0000;
    assert v / 256 / 256 / 256 == v / 0x100_0000;
  }

  /** `(v >> shift) & 0xff`, with the shift taken mathematically: a shift of
      32 or more yields 0, as a register-specified shift does on the ARM target. */
  function Channel(v: u32, shift: nat): (r: byte)
    ensures shift >= 32 ==> r == 0
  {
    if shift >= 32 then PowerBound(shift); DivOfLarger(v, Pow2(shift)); (v / Pow2(shift)) % 256
    else (v / Pow2(shift)) % 256
  }

  lemma DivOfLarger(v: nat, d: nat)
    requires v < d
    ensures v / d == 0
  {
  }

  lemma {:induction false} PowerBound(shift: nat)
    requires shift >= 32
    ensures Pow2(shift) >= 0x1_0000_0000
  {
    if shift > 32 {
      PowerBound(shift - 1);
    } else {
      Pow2Value32();
    }
  }

  lemma Pow2Value32()
    ensures Pow2(32) == 0x1_0000_0000
  {
    Pow2Values();
    assert Pow2(32) == Pow2(24) * 256 by { Pow2Add(24, 8); }
  }

  lemma Pow2Values()
    ensures Pow2(0) == 1 && Pow2(8) == 256 && Pow2(16) == 0x1_0000 && Pow2(24) == 0x100_0000
  {
    assert Pow2(8) == 256;
    Pow2Add(8, 8);
    Pow2Add(16, 8);
  }

  lemma {:induction false} Pow2Add(a: nat, b: nat)
    ensures Pow2(a + b) == Pow2(a) * Pow2(b)
  {
    if b > 0 {
      Pow2Add(a, b - 1);
      assert Pow2(a + b) == 2 * Pow2(a + b - 1);
    }
  }

  lemma Pow256Four()
    ensures Pow256(4) == 0x1_0000_0000
  {
  }
}
