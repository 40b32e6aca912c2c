/** Bytes, errors, and the 4-byte network-order length field (`struct.Struct("!I")`). */
module Bytes {

  /** One octet of a file or of a record. */
  type byte = x: int | 0 <= x < 256

  /** The exceptions the log lets through to its caller. */
  datatype Error =
    | StructError   // `struct.pack` refused a length that does not fit in 32 bits
    | NoSuchFile    // `open(name, "r")` on a path that does not exist

  datatype Result<T> = Ok(value: T) | Err(error: Error)

  /** The first length that does not fit in an unsigned 32-bit field. */
  const U32Limit: nat := 0x1_0000_0000

  /** The four bytes of `n`, most significant first. */
  function Be32(n: nat): (b: seq<byte>)
    requires n < U32Limit
    ensures |b| == 4
  {
    [n / 0x100_0000, n / 0x1_0000 % 0x100, n / 0x100 % 0x100, n % 0x100]
  }

  /** `_z_pack`: `struct.pack("!I", n)`, which raises `struct.error` past 32 bits. */
  function Pack(n: nat): (r: Result<seq<byte>>)
    ensures r.Ok? <==> n < U32Limit
    ensures r.Err? ==> r.error == StructError
  {
    if n < U32Limit then Ok(Be32(n)) else Err(StructError)
  }

  /** `_z_unpack`: the unsigned integer held by four network-order bytes. */
  function Unpack(s: seq<byte>): (n: nat)
    requires |s| == 4
    ensures n < U32Limit
  {
    s[0] as int * 0x100_0000 + s[1] as int * 0x1_0000 + s[2] as int * 0x100 + s[3] as int
  }

  /** A positive multiple of a positive divisor is at least the divisor. */
  lemma MulAtLeast(x: int, d: int)
    requires x >= 1 && d > 0
    ensures x * d >= d
  {
    assert x * d == (x - 1) * d + d;
  }

  /** Euclidean division is determined by a quotient and a remainder below the divisor. */
  lemma DivMod(a: int, d: int, q: int, r: int)
    requires 0 < d && 0 <= r < d && a == q * d + r
    ensures a / d == q && a % d == r
  {
    var q0, r0 := a / d, a % d;
    assert (q - q0) * d == r0 - r;
    if q > q0 {
      MulAtLeast(q - q0, d);
    } else if q < q0 {
      MulAtLeast(q0 - q, d);
    }
  }

  /** Decoding a packed length gives the length back. */
  lemma UnpackPack(n: nat)
    requires n < U32Limit
    ensures Pack(n) == Ok(Be32(n))
    ensures Unpack(Be32(n)) == n
  {
    var b := Be32(n);
    var q0, r1 := n / 0x100_0000, n % 0x100_0000;
    var c, r2 := r1 / 0x1_0000, r1 % 0x1_0000;
    var e, f := r2 / 0x100, r2 % 0x100;
    DivMod(n, 0x1_0000, q0 * 0x100 + c, r2);
    DivMod(n / 0x1_0000, 0x100, q0, c);
    DivMod(n, 0x100, (q0 * 0x100 + c) * 0x100 + e, f);
    DivMod(n / 0x100, 0x100, q0 * 0x100 + c, e);
    assert b == [q0, c, e, f];
  }

  /** Every four bytes are the packing of the length they decode to. */
  lemma PackUnpack(s: seq<byte>)
    requires |s| == 4
    ensures Pack(Unpack(s)) == Ok(s)
  {
    var n := Unpack(s);
    var low := s[1] as int * 0x1_0000 + s[2] as int * 0x100 + s[3] as int;
    var mid := s[0] as int * 0x100 + s[1] as int;
    var top := s[0] as int * 0x1_0000 + s[1] as int * 0x100 + s[2] as int;
    DivMod(n, 0x100_0000, s[0], low);
    DivMod(n, 0x1_0000, mid, s[2] as int * 0x100 + s[3] as int);
    DivMod(mid, 0x100, s[0], s[1]);
    DivMod(n, 0x100, top, s[3]);
    DivMod(top, 0x100, mid, s[2]);
    assert Be32(n) == s;
  }
}
