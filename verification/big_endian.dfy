/** Bytes and the fixed-width big-endian integers of the IPC header (Go's
    binary.BigEndian.PutUint32/PutUint64, Rust's from_be_bytes). */
module BigEndian {

  type Byte = b: int | 0 <= b < 256

  const U32_LIMIT: nat := 0x1_0000_0000
  const U64_LIMIT: nat := 0x1_0000_0000_0000_0000

  function Pow256(k: nat): (p: nat)
    ensures p > 0
  {
    if k == 0 then 1 else 256 * Pow256(k - 1)
  }

  /** The k low-order bytes of n, most significant first. */
  function ToBytes(n: nat, k: nat): (s: seq<Byte>)
    ensures |s| == k
  {
    if k == 0 then [] else ToBytes(n / 256, k - 1) + [n % 256]
  }

  function FromBytes(s: seq<Byte>): (n: nat)
    ensures n < Pow256(|s|)
  {
    if s == [] then 0 else 256 * FromBytes(s[..|s| - 1]) + s[|s| - 1]
  }

  lemma {:induction false} DecodeEncode(n: nat, k: nat)
    requires n < Pow256(k)
    ensures FromBytes(ToBytes(n, k)) == n
  {
    if k > 0 {
      DecodeEncode(n / 256, k - 1);
      assert ToBytes(n, k)[..k - 1] == ToBytes(n / 256, k - 1);
    }
  }

  lemma DivMod(q: nat, b: Byte)
    ensures (256 * q + b) / 256 == q && (256 * q + b) % 256 == b
  {
  }

  lemma {:induction false} EncodeDecode(s: seq<Byte>)
    ensures ToBytes(FromBytes(s), |s|) == s
  {
    if s != [] {
      var front, b := s[..|s| - 1], s[|s| - 1];
      EncodeDecode(front);
      DivMod(FromBytes(front), b);
      assert s == front + [b];
    }
  }

  lemma Widths()
    ensures Pow256(4) == U32_LIMIT && Pow256(8) == U64_LIMIT
  {
    assert Pow256(2) == 65536;
    assert Pow256(4) == 256 * (256 * Pow256(2));
    assert Pow256(6) == 256 * (256 * Pow256(4));
    assert Pow256(8) == 256 * (256 * Pow256(6));
  }

  /** A four-byte header read back is the number written; bytes read back are
      the bytes that were there. */
  lemma U32RoundTrip(n: nat)
    requires n < U32_LIMIT
    ensures FromBytes(ToBytes(n, 4)) == n
  {
    Widths();
    DecodeEncode(n, 4);
  }

  lemma U64RoundTrip(n: nat)
    requires n < U64_LIMIT
    ensures FromBytes(ToBytes(n, 8)) == n
  {
    Widths();
    DecodeEncode(n, 8);
  }

  /** The bytes of a header, written out: most significant first. */
  lemma FourBytes(n: nat)
    ensures ToBytes(n, 4) == [n / 0x100_0000 % 256, n / 0x1_0000 % 256, n / 0x100 % 256, n % 256]
    ensures ToBytes(n, 8) == ToBytes(n / 0x1_0000_0000, 4) + ToBytes(n, 4)
  {
    assert n / 256 / 256 == n / 0x1_0000 && n / 256 / 256 / 256 == n / 0x100_0000;
    assert ToBytes(n / 0x100_0000, 1) == [n / 0x100_0000 % 256];
    assert ToBytes(n / 0x1_0000, 2) == [n / 0x100_0000 % 256, n / 0x1_0000 % 256];
    assert ToBytes(n / 0x100, 3) == [n / 0x100_0000 % 256, n / 0x1_0000 % 256, n / 0x100 % 256];
    FourLower(n);
  }

  lemma FourLower(n: nat)
    ensures ToBytes(n, 8) == ToBytes(n / 0x1_0000_0000, 4) + ToBytes(n, 4)
  {
    var a, b, c, d := n / 256, n / 0x1_0000, n / 0x100_0000, n / 0x1_0000_0000;
    assert a / 256 == b && b / 256 == c && c / 256 == d;
    assert ToBytes(c, 5) == ToBytes(d, 4) + [c % 256];
    assert ToBytes(b, 6) == ToBytes(d, 4) + [c % 256, b % 256];
    assert ToBytes(a, 7) == ToBytes(d, 4) + [c % 256, b % 256, a % 256];
    assert ToBytes(n, 8) == ToBytes(d, 4) + [c % 256, b % 256, a % 256, n % 256];
    assert ToBytes(c, 1) == [c % 256] && ToBytes(b, 2) == [c % 256, b % 256];
    assert ToBytes(n, 4) == [c % 256, b % 256, a % 256, n % 256];
  }

  lemma U32Range(s: seq<Byte>)
    requires |s| == 4
    ensures FromBytes(s) < U32_LIMIT
  {
    Widths();
  }
}
