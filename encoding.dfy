/** Byte strings and the standard-library encodings the ledger relies on:
    big-endian integers (math/big, encoding/binary), base-10 text
    (strconv.FormatInt) and lower-case hexadecimal (encoding/hex).
    A Go `string` is a byte string, so it is modelled as `Bytes` too. */
module Encoding {

  type byte = x: int | 0 <= x < 256
  type Bytes = seq<byte>

  const MaxInt64: int := 0x7fff_ffff_ffff_ffff
  const MinInt64: int := -0x8000_0000_0000_0000
  /** The range of Go's `int64` (and of `int` on the 64-bit targets). */
  type int64 = x: int | MinInt64 <= x <= MaxInt64

  /** The bytes of an ASCII literal, as Go stores a string constant. */
  function Ascii(s: string): (r: Bytes)
    requires forall i :: 0 <= i < |s| ==> s[i] < 128 as char
    ensures |r| == |s|
    ensures forall i :: 0 <= i < |s| ==> r[i] == s[i] as int
  {
    seq(|s|, i requires 0 <= i < |s| => s[i] as int)
  }

  /** `s` with every element equal to `x` dropped, the others kept in order. */
  function Without<T(==)>(s: seq<T>, x: T): seq<T>
  {
    if s == [] then []
    else if s[0] == x then Without(s[1..], x)
    else [s[0]] + Without(s[1..], x)
  }

  lemma {:induction false} WithoutMembers<T>(s: seq<T>, x: T)
    ensures x !in Without(s, x)
    ensures forall y :: y in Without(s, x) <==> y in s && y != x
    ensures |Without(s, x)| <= |s|
  {
    if s != [] {
      WithoutMembers(s[1..], x);
      assert s == [s[0]] + s[1..];
    }
  }

  /** Without distributes over concatenation: the filter works element by element. */
  lemma {:induction false} WithoutAppend<T>(a: seq<T>, b: seq<T>, x: T)
    ensures Without(a + b, x) == Without(a, x) + Without(b, x)
  {
    if a == [] {
      assert a + b == b;
    } else {
      assert (a + b)[1..] == a[1..] + b;
      WithoutAppend(a[1..], b, x);
    }
  }

  lemma WithoutNothing<T>(s: seq<T>, x: T)
    requires x !in s
    ensures Without(s, x) == s
  {
    if s != [] {
      WithoutNothing(s[1..], x);
    }
  }

  // ---------------------------------------------------------------------------
  // Big-endian integers

  function Pow256(k: nat): (r: nat)
    ensures r > 0
  {
    if k == 0 then 1 else 256 * Pow256(k - 1)
  }

  lemma {:induction false} Pow256Add(a: nat, b: nat)
    ensures Pow256(a + b) == Pow256(a) * Pow256(b)
  {
    if b > 0 {
      Pow256Add(a, b - 1);
      calc {
        Pow256(a + b);
        256 * Pow256(a + b - 1);
        256 * (Pow256(a) * Pow256(b - 1));
        Pow256(a) * (256 * Pow256(b - 1));
      }
    }
  }

  /** The value of a byte string read as an unsigned big-endian integer,
      as `big.Int.SetBytes` reads a hash. */
  function BeValue(s: Bytes): nat
  {
    if s == [] then 0 else BeValue(s[..|s| - 1]) * 256 + s[|s| - 1]
  }

  lemma {:induction false} BeValueBound(s: Bytes)
    ensures BeValue(s) < Pow256(|s|)
  {
    if s != [] {
      BeValueBound(s[..|s| - 1]);
      assert BeValue(s[..|s| - 1]) + 1 <= Pow256(|s| - 1);
      calc {
        BeValue(s);
        BeValue(s[..|s| - 1]) * 256 + s[|s| - 1];
      < (BeValue(s[..|s| - 1]) + 1) * 256;
      <= Pow256(|s| - 1) * 256;
      }
    }
  }

  lemma {:induction false} BeValueAppend(a: Bytes, b: Bytes)
    ensures BeValue(a + b) == BeValue(a) * Pow256(|b|) + BeValue(b)
  {
    if b != [] {
      var b' := b[..|b| - 1];
      assert (a + b)[..|a + b| - 1] == a + b';
      BeValueAppend(a, b');
      ShiftAppend(BeValue(a), Pow256(|b'|), BeValue(b'), b[|b| - 1]);
    } else {
      assert a + b == a;
    }
  }

  lemma ShiftAppend(x: int, p: int, y: int, z: int)
    ensures (x * p + y) * 256 + z == x * (p * 256) + (y * 256 + z)
  {
    MulDistrib(x * p, y, 256);
  }

  lemma MulDistrib(u: int, v: int, w: int)
    ensures (u + v) * w == u * w + v * w
  {
  }

  /** The `k`-byte big-endian representation of `n` modulo 256^k. */
  function BeBytes(n: nat, k: nat): (r: Bytes)
    ensures |r| == k
  {
    if k == 0 then [] else BeBytes(n / 256, k - 1) + [n % 256]
  }

  lemma ModUnique(n: int, m: int, q: int, c: int)
    requires m > 0 && 0 <= c < m && n == q * m + c
    ensures n % m == c && n / m == q
  {
    var r, d := n % m, n / m;
    assert n == d * m + r;
    assert (d - q) * m == c - r;
    if d > q {
      MulAtLeast(d - q, m);
    } else if d < q {
      MulAtLeast(q - d, m);
    }
  }

  lemma MulAtLeast(x: int, m: int)
    requires x >= 1 && m > 0
    ensures x * m >= m
  {
  }

  lemma {:induction false} BeBytesValue(n: nat, k: nat)
    ensures BeValue(BeBytes(n, k)) == n % Pow256(k)
  {
    if k > 0 {
      var p := Pow256(k - 1);
      var q, c := n / 256, n % 256;
      BeBytesValue(q, k - 1);
      var s := BeBytes(n, k);
      assert s[..|s| - 1] == BeBytes(q, k - 1);
      var a, b := q / p, q % p;
      ShiftAppend(a, p, b, c);
      assert b * 256 + c < p * 256 by {
        MulDistrib(b, 1, 256);
      }
      ModUnique(n, p * 256, a, b * 256 + c);
    }
  }

  const TwoTo64: nat := 0x1_0000_0000_0000_0000

  lemma Pow256Eight()
    ensures Pow256(8) == TwoTo64
  {
  }

  /** `binary.BigEndian.PutUint64(buf, uint64(i))`: the conversion to `uint64`
      is the two's-complement reading of `i`, i.e. `i` modulo 2^64. */
  function Int64ToBytes(i: int64): (r: Bytes)
    ensures |r| == 8
    ensures 0 <= i ==> BeValue(r) == i
    ensures i < 0 ==> BeValue(r) == i + TwoTo64
  {
    BeBytesValue(i % TwoTo64, 8);
    Pow256Eight();
    BeBytes(i % TwoTo64, 8)
  }

  /** Distinct int64 values give distinct encodings: a negative value reads
      back at or above 2^63, beyond every non-negative one. */
  lemma Int64ToBytesInjective(i: int64, j: int64)
    requires Int64ToBytes(i) == Int64ToBytes(j)
    ensures i == j
  {
  }

  // ---------------------------------------------------------------------------
  // Base-10 text, as strconv.FormatInt(n, 10) renders an integer

  const Zero: byte := 48
  const Minus: byte := 45

  predicate IsDigit(b: byte) { Zero <= b <= Zero + 9 }

  /** The decimal digits of a natural number, most significant first. */
  function Digits(n: nat): (r: Bytes)
    ensures |r| > 0
    ensures forall i :: 0 <= i < |r| ==> IsDigit(r[i])
    ensures n > 0 ==> r[0] != Zero
    ensures r[0] == Zero ==> r == [Zero]
  {
    if n < 10 then [Zero + n] else Digits(n / 10) + [Zero + n % 10]
  }

  function Decimal(n: int): Bytes
  {
    if n < 0 then [Minus] + Digits(-n) else Digits(n)
  }

  /** The reader of base-10 digit strings (the inverse of Digits). */
  function DigitsValue(s: Bytes): int
  {
    if s == [] then 0 else DigitsValue(s[..|s| - 1]) * 10 + (s[|s| - 1] - Zero)
  }

  function ParseDecimal(s: Bytes): int
  {
    if s != [] && s[0] == Minus then -DigitsValue(s[1..]) else DigitsValue(s)
  }

  lemma {:induction false} DigitsRoundTrip(n: nat)
    ensures DigitsValue(Digits(n)) == n
  {
    if n >= 10 {
      DigitsRoundTrip(n / 10);
      var d := Digits(n);
      assert d[..|d| - 1] == Digits(n / 10);
    }
  }

  /** strconv.FormatInt(n, 10) is ASCII: an optional '-' then digits with no
      leading zero, and it reads back as `n`. */
  lemma DecimalRoundTrip(n: int)
    ensures ParseDecimal(Decimal(n)) == n
    ensures var d := Decimal(n);
      (n < 0 <==> (d[0] == Minus)) &&
      forall i :: (if n < 0 then 1 else 0) <= i < |d| ==> IsDigit(d[i])
  {
    DigitsRoundTrip(if n < 0 then -n else n);
    if n < 0 {
      assert (Decimal(n))[1..] == Digits(-n);
    }
  }

  lemma DecimalInjective(m: int, n: int)
    requires Decimal(m) == Decimal(n)
    ensures m == n
  {
    DecimalRoundTrip(m);
    DecimalRoundTrip(n);
  }

  // ---------------------------------------------------------------------------
  // Hexadecimal text, as encoding/hex renders and reads it

  function HexDigit(v: int): (c: byte)
    requires 0 <= v < 16
  {
    if v < 10 then Zero + v else 87 + v  // 'a' is 97
  }

  /** hex.EncodeToString: two lower-case digits per byte, high nibble first. */
  function HexEncode(s: Bytes): (r: Bytes)
    ensures |r| == 2 * |s|
  {
    if s == [] then [] else [HexDigit(s[0] / 16), HexDigit(s[0] % 16)] + HexEncode(s[1..])
  }

  /** The value of one hex digit; encoding/hex accepts both cases. */
  function FromHexChar(c: byte): (r: Option<int>)
    ensures r.Some? ==> 0 <= r.value < 16
  {
    if Zero <= c <= Zero + 9 then Some(c - Zero)
    else if 97 <= c <= 102 then Some(c - 87)
    else if 65 <= c <= 70 then Some(c - 55)
    else None
  }

  /** hex.DecodeString: fails on odd length or on a byte that is not a hex digit. */
  function HexDecode(s: Bytes): Option<Bytes>
    decreases |s|
  {
    if |s| % 2 == 1 then None
    else if s == [] then Some([])
    else match (FromHexChar(s[0]), FromHexChar(s[1]), HexDecode(s[2..]))
      case (Some(hi), Some(lo), Some(rest)) => Some([hi * 16 + lo] + rest)
      case _ => None
  }

  lemma {:induction false} HexRoundTrip(s: Bytes)
    ensures HexDecode(HexEncode(s)) == Some(s)
  {
    if s != [] {
      HexRoundTrip(s[1..]);
      var e := HexEncode(s);
      assert e[2..] == HexEncode(s[1..]);
      assert s == [s[0] / 16 * 16 + s[0] % 16] + s[1..];
    }
  }

  lemma HexEncodeInjective(a: Bytes, b: Bytes)
    requires HexEncode(a) == HexEncode(b)
    ensures a == b
  {
    HexRoundTrip(a);
    HexRoundTrip(b);
  }

  datatype Option<+T> = None | Some(value: T)
}
