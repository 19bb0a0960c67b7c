/** Machine words: C conversions, bitwise operators on naturals, and byte encodings. */
module Words {

  const TWO31: int := 0x8000_0000
  const TWO32: int := 0x1_0000_0000
  const TWO64: int := 0x1_0000_0000_0000_0000

  type Byte = n: int | 0 <= n < 256
  type Word16 = n: int | 0 <= n < 0x1_0000
  type Word32 = n: int | 0 <= n < TWO32
  type Word64 = n: int | 0 <= n < TWO64
  type Int16 = n: int | -0x8000 <= n < 0x8000
  type Int32 = n: int | -TWO31 <= n < TWO31

  /** C conversion of an integer to `uint32_t`, `int32_t` and (sign-extended) `uint64_t`. */
  function ToU32(n: int): Word32 { n % TWO32 }

  function ToS32(n: int): Int32 {
    var u := n % TWO32;
    if u < TWO31 then u else u - TWO32
  }

  function ToU64(n: int): Word64 { n % TWO64 }

  lemma U32Same(n: Word32)
    ensures ToU32(n) == n
  {
  }

  lemma S32Same(n: Int32)
    ensures ToS32(n) == n
  {
  }

  lemma U64Same(n: Word64)
    ensures ToU64(n) == n
  {
  }

  /** A constant stored in a signed field and read back as unsigned is unchanged. */
  lemma U32OfS32(k: Word32)
    ensures ToU32(ToS32(k)) == k
  {
  }

  lemma U32Sum(a: Word32, b: Word32)
    ensures ToU32(a + b) == if a + b < TWO32 then a + b else a + b - TWO32
  {
  }

  // ----- bitwise operators -----

  function BitAnd(a: nat, b: nat): (r: nat)
    ensures r <= a && r <= b
  {
    if a == 0 || b == 0 then 0 else 2 * BitAnd(a / 2, b / 2) + (if a % 2 == 1 && b % 2 == 1 then 1 else 0)
  }

  function BitOr(a: nat, b: nat): nat
    decreases a + b
  {
    if a == 0 && b == 0 then 0
    else 2 * BitOr(a / 2, b / 2) + (if a % 2 == 1 || b % 2 == 1 then 1 else 0)
  }

  function BitXor(a: nat, b: nat): nat
    decreases a + b
  {
    if a == 0 && b == 0 then 0
    else 2 * BitXor(a / 2, b / 2) + (if a % 2 != b % 2 then 1 else 0)
  }

  /** Bit `k` of a number. */
  predicate Bit(n: nat, k: nat)
    decreases k
  {
    if k == 0 then n % 2 == 1 else Bit(n / 2, k - 1)
  }

  /** The operators work bit by bit. */
  lemma {:induction false} BitwiseAnd(a: nat, b: nat, k: nat)
    ensures Bit(BitAnd(a, b), k) <==> Bit(a, k) && Bit(b, k)
    decreases k
  {
    if a == 0 || b == 0 {
      NoBits(k);
    } else if k > 0 {
      BitwiseAnd(a / 2, b / 2, k - 1);
    }
  }

  lemma {:induction false} BitwiseOr(a: nat, b: nat, k: nat)
    ensures Bit(BitOr(a, b), k) <==> Bit(a, k) || Bit(b, k)
    decreases k
  {
    if a == 0 && b == 0 {
      NoBits(k);
    } else if k > 0 {
      BitwiseOr(a / 2, b / 2, k - 1);
    }
  }

  lemma {:induction false} BitwiseXor(a: nat, b: nat, k: nat)
    ensures Bit(BitXor(a, b), k) <==> Bit(a, k) != Bit(b, k)
    decreases k
  {
    if a == 0 && b == 0 {
      NoBits(k);
    } else if k > 0 {
      BitwiseXor(a / 2, b / 2, k - 1);
    }
  }

  lemma {:induction false} NoBits(k: nat)
    ensures !Bit(0, k)
    decreases k
  {
    if k > 0 {
      NoBits(k - 1);
    }
  }

  /** Truncating OR and XOR of two 32-bit numbers loses nothing. */
  lemma {:induction false} BitwiseBound(a: nat, b: nat, n: nat)
    requires a < Pow2(n) && b < Pow2(n)
    ensures BitOr(a, b) < Pow2(n) && BitXor(a, b) < Pow2(n)
    decreases n
  {
    if n > 0 {
      BitwiseBound(a / 2, b / 2, n - 1);
    }
  }

  lemma WordsStayWords(a: Word32, b: Word32)
    ensures BitOr(a, b) < TWO32 && BitXor(a, b) < TWO32
  {
    hide BitOr, BitXor;
    Pow2Of32();
    BitwiseBound(a, b, 32);
  }

  function Or32(a: Word32, b: Word32): Word32 {
    WordsStayWords(a, b);
    BitOr(a, b)
  }

  function Xor32(a: Word32, b: Word32): Word32 {
    WordsStayWords(a, b);
    BitXor(a, b)
  }

  function Quotient32(a: Word32, d: nat): Word32
    requires d > 0
  {
    QuotientShrinks(a, d);
    a / d
  }

  lemma QuotientShrinks(a: nat, d: nat)
    requires d > 0
    ensures 0 <= a / d <= a
  {
    ProductGrows(a / d, d);
    assert a == (a / d) * d + a % d;
  }

  lemma ProductGrows(q: int, d: int)
    requires d > 0
    ensures if q >= 0 then q * d >= q else q * d <= -d
  {
    if q >= 0 {
      assert q * (d - 1) >= 0;
    } else {
      assert (-q - 1) * d >= 0;
    }
  }

  lemma Pow2Of32()
    ensures Pow2(32) == TWO32
  {
    Pow2Sum(8, 8);
    Pow2Sum(16, 16);
    assert Pow2(8) == 256 by {
      assert Pow2(2) == 4;
      assert Pow2(4) == 16;
      assert Pow2(6) == 64;
    }
  }

  lemma {:induction false} Pow2Sum(m: nat, n: nat)
    ensures Pow2(m + n) == Pow2(m) * Pow2(n)
    decreases m
  {
    if m > 0 {
      Pow2Sum(m - 1, n);
    }
  }

  function Pow2(n: nat): (r: nat)
    ensures r >= 1
  {
    if n == 0 then 1 else 2 * Pow2(n - 1)
  }

  /** Masking with 0xf keeps the low four bits. */
  lemma BitAndLowNibble(a: nat)
    ensures BitAnd(a, 15) == a % 16
  {
    hide BitAnd;
    BitAndThree(a / 2 / 2);
    BitAndHalf(a / 2, 3);
    BitAndHalf(a, 7);
    Halves(a, 4);
  }

  lemma BitAndThree(a: nat)
    ensures BitAnd(a, 3) == a % 4
  {
    hide BitAnd;
    BitAndZero(a / 2 / 2);
    BitAndHalf(a / 2, 0);
    BitAndHalf(a, 1);
    Halves(a, 1);
  }

  /** Two binary digits and what is above them. */
  lemma Halves(a: nat, m: nat)
    requires m > 0
    ensures 4 * (a / 2 / 2 % m) + 2 * (a / 2 % 2) + a % 2 == a % (4 * m)
  {
    var high := a / 2 / 2;
    assert a == 4 * high + 2 * (a / 2 % 2) + a % 2;
    ModuloUnique(a, 4 * m, high / m, 4 * (high % m) + 2 * (a / 2 % 2) + a % 2);
  }

  lemma BitAndZero(a: nat)
    ensures BitAnd(a, 0) == 0
  {
  }

  lemma BitAndHalf(a: nat, m: nat)
    ensures BitAnd(a, 2 * m + 1) == 2 * BitAnd(a / 2, m) + a % 2
  {
    if a > 0 {
      assert (2 * m + 1) / 2 == m && (2 * m + 1) % 2 == 1;
    }
  }

  lemma ModuloUnique(a: int, m: int, q: int, r: int)
    requires m > 0 && 0 <= r < m && a == q * m + r
    ensures a % m == r
  {
    QuotientUnique(m, q, r, a / m, a % m);
  }

  lemma QuotientUnique(m: int, q: int, r: int, q': int, r': int)
    requires 0 <= r < m && 0 <= r' < m && q * m + r == q' * m + r'
    ensures r == r'
  {
    MultipleIsFar(q - q', m);
    assert (q - q') * m == r' - r;
  }

  lemma MultipleIsFar(d: int, m: int)
    requires m > 0
    ensures d == 0 || d * m >= m || d * m <= -m
  {
    if d >= 1 {
      assert (d - 1) * m >= 0;
    } else if d <= -1 {
      assert (-d - 1) * m >= 0;
    }
  }

  // ----- byte encodings -----

  function EncodeLE(v: nat, n: nat): (s: seq<Byte>)
    ensures |s| == n
    decreases n
  {
    if n == 0 then [] else [v % 256] + EncodeLE(v / 256, n - 1)
  }

  function DecodeLE(s: seq<Byte>): nat {
    if s == [] then 0 else s[0] + 256 * DecodeLE(s[1..])
  }

  function EncodeBE(v: nat, n: nat): (s: seq<Byte>)
    ensures |s| == n
    decreases n
  {
    if n == 0 then [] else EncodeBE(v / 256, n - 1) + [v % 256]
  }

  /** The value of `s` read most significant byte first: network byte order. */
  function DecodeBE(s: seq<Byte>): nat {
    if s == [] then 0 else 256 * DecodeBE(s[..|s| - 1]) + s[|s| - 1]
  }

  /** The order of the digits. */
  lemma BigEndianSum(s: seq<Byte>)
    ensures |s| == 1 ==> DecodeBE(s) == s[0]
    ensures |s| == 2 ==> DecodeBE(s) == 0x100 * s[0] as int + s[1] as int
    ensures |s| == 4 ==>
      DecodeBE(s) == 0x100_0000 * s[0] as int + 0x1_0000 * s[1] as int + 0x100 * s[2] as int + s[3] as int
  {
    if |s| > 0 {
      var init := s[..|s| - 1];
      assert DecodeBE(s) == 256 * DecodeBE(init) + s[|s| - 1];
      if |s| == 2 {
        BigEndianSum(init);
      } else if |s| == 4 {
        BigEndianSum(s[..2]);
        assert init[..2] == s[..2];
        assert DecodeBE(init) == 256 * DecodeBE(init[..2]) + init[2];
      }
    }
  }

  lemma LittleEndianSum(s: seq<Byte>)
    ensures |s| == 1 ==> DecodeLE(s) == s[0]
    ensures |s| == 2 ==> DecodeLE(s) == s[0] as int + 0x100 * s[1] as int
    ensures |s| == 4 ==>
      DecodeLE(s) == s[0] as int + 0x100 * s[1] as int + 0x1_0000 * s[2] as int + 0x100_0000 * s[3] as int
  {
    if |s| > 0 {
      assert DecodeLE(s) == s[0] + 256 * DecodeLE(s[1..]);
      if |s| == 2 {
        LittleEndianSum(s[1..]);
      } else if |s| == 4 {
        LittleEndianSum(s[2..]);
        assert s[1..][1..] == s[2..];
        assert DecodeLE(s[1..]) == s[1] + 256 * DecodeLE(s[1..][1..]);
      }
    }
  }

  /** Bytes of `v` as a host of the given endianness lays them out in memory, and back. */
  function Encode(bigEndian: bool, v: nat, n: nat): (s: seq<Byte>)
    ensures |s| == n
  {
    if bigEndian then EncodeBE(v, n) else EncodeLE(v, n)
  }

  function Decode(bigEndian: bool, s: seq<Byte>): nat {
    if bigEndian then DecodeBE(s) else DecodeLE(s)
  }

  function ByteSwap(v: nat, n: nat): nat { DecodeBE(EncodeLE(v, n)) }

  function Pow256(n: nat): (r: nat)
    ensures r >= 1
  {
    if n == 0 then 1 else 256 * Pow256(n - 1)
  }

  lemma Pow256Small()
    ensures Pow256(1) == 256 && Pow256(2) == 0x1_0000 && Pow256(4) == TWO32 && Pow256(8) == TWO64
  {
    assert Pow256(1) == 256;
    assert Pow256(2) == 0x1_0000;
    assert Pow256(3) == 0x100_0000;
    assert Pow256(4) == TWO32;
    assert Pow256(5) == 256 * TWO32;
    assert Pow256(6) == 0x1_0000 * TWO32;
    assert Pow256(7) == 0x100_0000 * TWO32;
  }

  lemma {:induction false} DecodeEncodeLE(v: nat, n: nat)
    requires v < Pow256(n)
    ensures DecodeLE(EncodeLE(v, n)) == v
    decreases n
  {
    if n > 0 {
      DecodeEncodeLE(v / 256, n - 1);
      assert EncodeLE(v, n)[1..] == EncodeLE(v / 256, n - 1);
    }
  }

  lemma {:induction false} DecodeEncodeBE(v: nat, n: nat)
    requires v < Pow256(n)
    ensures DecodeBE(EncodeBE(v, n)) == v
    decreases n
  {
    if n > 0 {
      DecodeEncodeBE(v / 256, n - 1);
      assert EncodeBE(v, n)[..n - 1] == EncodeBE(v / 256, n - 1);
    }
  }

  /** What a host stores it loads back, whatever its endianness. */
  lemma DecodeEncode(bigEndian: bool, v: nat, n: nat)
    requires v < Pow256(n)
    ensures Decode(bigEndian, Encode(bigEndian, v, n)) == v
  {
    if bigEndian { DecodeEncodeBE(v, n); } else { DecodeEncodeLE(v, n); }
  }

  lemma LowByte(low: Byte, high: nat)
    ensures (low + 256 * high) % 256 == low && (low + 256 * high) / 256 == high
  {
  }

  lemma {:induction false} EncodeDecodeLE(s: seq<Byte>)
    ensures EncodeLE(DecodeLE(s), |s|) == s
  {
    if s != [] {
      EncodeDecodeLE(s[1..]);
      LowByte(s[0], DecodeLE(s[1..]));
      assert s == [s[0]] + s[1..];
    }
  }

  lemma {:induction false} DecodeBound(bigEndian: bool, s: seq<Byte>)
    ensures Decode(bigEndian, s) < Pow256(|s|)
    decreases |s|
  {
    if s != [] {
      DecodeBound(bigEndian, if bigEndian then s[..|s| - 1] else s[1..]);
    }
  }

  /** A host-order load followed by the conversion from big-endian order is a big-endian read. */
  function FromBE(bigEndian: bool, v: nat, n: nat): nat {
    if bigEndian then v % Pow256(n) else ByteSwap(v, n)
  }

  lemma LoadThenFromBE(bigEndian: bool, s: seq<Byte>)
    ensures FromBE(bigEndian, Decode(bigEndian, s), |s|) == DecodeBE(s)
  {
    if bigEndian {
      DecodeBound(true, s);
      ModuloUnique(DecodeBE(s), Pow256(|s|), 0, DecodeBE(s));
    } else {
      EncodeDecodeLE(s);
    }
  }
}
