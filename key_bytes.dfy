/**
 * The byte-level meaning of an XOR key: how `recalculateSizeValue` fits a
 * supplied value to the key width, and the big-endian readings of a key as
 * an unsigned number and as the two's-complement integer that
 * `new BigInteger(byte[])` builds in `keyAsInt`.
 */
module KeyBytes {

  /** 256 to the power `n`: the number of distinct `n`-byte values. */
  function Pow256(n: nat): (p: nat)
    ensures p >= 1
  {
    if n == 0 then 1 else 256 * Pow256(n - 1)
  }

  lemma {:induction false} Pow256Add(a: nat, b: nat)
    ensures Pow256(a + b) == Pow256(a) * Pow256(b)
  {
    if a > 0 {
      Pow256Add(a - 1, b);
      assert Pow256(a + b) == 256 * Pow256(a - 1 + b);
    }
  }

  /** `n` zero bytes: the content of a freshly allocated byte buffer. */
  function Zeros(n: nat): (z: seq<bv8>)
    ensures |z| == n
  {
    seq(n, _ => 0)
  }

  /**
   * The key `recalculateSizeValue` derives from `value` for a key of
   * `destsize` bytes: a longer value keeps its leading `destsize` bytes, a
   * shorter one is right-aligned behind zero bytes, an equal one is copied.
   */
  function Align(value: seq<bv8>, destsize: nat): (key: seq<bv8>)
    ensures |key| == destsize
  {
    if |value| > destsize then value[..destsize]
    else if |value| < destsize then Zeros(destsize - |value|) + value
    else value
  }

  /**
   * Byte by byte: a value at least as long as the key gives its leading
   * bytes; a shorter one lands at the end, behind zero bytes.
   */
  lemma AlignAt(value: seq<bv8>, destsize: nat, i: nat)
    requires i < destsize
    ensures |value| >= destsize ==> Align(value, destsize)[i] == value[i]
    ensures |value| < destsize && i < destsize - |value| ==> Align(value, destsize)[i] == 0
    ensures |value| <= destsize && i >= destsize - |value| ==>
      Align(value, destsize)[i] == value[i - (destsize - |value|)]
  {
  }

  /** The unsigned big-endian number the bytes of `k` denote. */
  function Unsigned(k: seq<bv8>): (u: nat)
    ensures u < Pow256(|k|)
  {
    if k == [] then 0 else Unsigned(k[..|k| - 1]) * 256 + k[|k| - 1] as nat
  }

  /** A big-endian number splits at any byte boundary. */
  lemma {:induction false} UnsignedAppend(a: seq<bv8>, b: seq<bv8>)
    ensures Unsigned(a + b) == Unsigned(a) * Pow256(|b|) + Unsigned(b)
  {
    if b == [] {
      assert a + b == a;
    } else {
      var b', x := b[..|b| - 1], b[|b| - 1];
      assert (a + b)[..|a + b| - 1] == a + b';
      UnsignedAppend(a, b');
      var ua, ub', p' := Unsigned(a), Unsigned(b'), Pow256(|b'|);
      assert Unsigned(a + b) == (ua * p' + ub') * 256 + x as nat;
      MulAssoc(ua, p', 256);
    }
  }

  lemma MulAssoc(x: nat, y: nat, z: nat)
    ensures (x * y) * z == x * (y * z)
  {
  }

  /** The first byte of a key weighs 256 to the power of the number of bytes after it. */
  lemma UnsignedFront(k: seq<bv8>)
    requires |k| > 0
    ensures Unsigned(k) == k[0] as nat * Pow256(|k| - 1) + Unsigned(k[1..])
  {
    assert k == [k[0]] + k[1..];
    UnsignedAppend([k[0]], k[1..]);
    assert Unsigned([k[0]]) == k[0] as nat by {
      assert [k[0]][..0] == [];
    }
  }

  lemma {:induction false} UnsignedZeros(n: nat)
    ensures Unsigned(Zeros(n)) == 0
  {
    if n > 0 {
      assert Zeros(n)[..n - 1] == Zeros(n - 1);
      UnsignedZeros(n - 1);
    }
  }

  /**
   * Widening a key by zero bytes at the front keeps the number it denotes:
   * the short value supplied to `setXorValue` and the stored key are the same
   * unsigned number.
   */
  lemma AlignWidenKeepsValue(value: seq<bv8>, destsize: nat)
    requires |value| <= destsize
    ensures Unsigned(Align(value, destsize)) == Unsigned(value)
  {
    if |value| < destsize {
      var m := destsize - |value|;
      var zeros := Zeros(m);
      assert Align(value, destsize) == zeros + value;
      UnsignedAppend(zeros, value);
      UnsignedZeros(m);
      var z, p := Unsigned(zeros), Pow256(|value|);
      assert z * p == 0;
    }
  }

  lemma DivOfMulAdd(a: nat, p: nat, b: nat)
    requires p > 0 && b < p
    ensures (a * p + b) / p == a
  {
    DivModUnique(a * p + b, p, a, b);
  }

  /**
   * Narrowing a key keeps its most significant bytes: the stored key is the
   * supplied value with its trailing, least significant bytes dropped.
   */
  lemma AlignTruncateKeepsHighBytes(value: seq<bv8>, destsize: nat)
    requires |value| >= destsize
    ensures Unsigned(Align(value, destsize)) == Unsigned(value) / Pow256(|value| - destsize)
  {
    assert value == value[..destsize] + value[destsize..];
    UnsignedAppend(value[..destsize], value[destsize..]);
    DivOfMulAdd(Unsigned(value[..destsize]), Pow256(|value| - destsize), Unsigned(value[destsize..]));
  }

  /** Fitting a key that already has the width leaves it alone (`setXorSize(getXorSize())`). */
  lemma AlignIdempotent(value: seq<bv8>, destsize: nat)
    ensures Align(Align(value, destsize), destsize) == Align(value, destsize)
  {
  }

  /**
   * Widening and then narrowing back does not restore the key: the zero bytes
   * added at the front are the ones kept, so a short key is lost entirely.
   */
  lemma {:induction false} AlignGrowThenShrink(value: seq<bv8>, big: nat, small: nat)
    requires |value| + small <= big
    ensures Align(Align(value, big), small) == Zeros(small)
  {
    var wide := Align(value, big);
    forall i | 0 <= i < small
      ensures Align(wide, small)[i] == 0
    {
      AlignAt(value, big, i);
      AlignAt(wide, small, i);
    }
  }

  /** Half the number of `n`-byte values: the bound of the signed `n`-byte range. */
  function HalfRange(n: nat): (h: nat)
    requires n > 0
    ensures 2 * h == Pow256(n)
  {
    128 * Pow256(n - 1)
  }

  /** The integer `new BigInteger(k)` denotes: `k` read as big-endian two's complement. */
  function SignedValue(k: seq<bv8>): (v: int)
    requires |k| > 0
    ensures -(HalfRange(|k|) as int) <= v < HalfRange(|k|)
    ensures (v < 0) == (k[0] >= 0x80)
  {
    HighByteSign(k);
    if k[0] >= 0x80 then Unsigned(k) as int - Pow256(|k|) else Unsigned(k)
  }

  lemma HighByteSign(k: seq<bv8>)
    requires |k| > 0
    ensures (Unsigned(k) >= HalfRange(|k|)) == (k[0] >= 0x80)
  {
    UnsignedFront(k);
    HighByte(k[0] as nat, Pow256(|k| - 1), Unsigned(k[1..]));
  }

  lemma HighByte(x: nat, p: nat, rest: nat)
    requires x < 256 && rest < p
    ensures (x * p + rest >= 128 * p) == (x >= 128)
  {
    assert x >= 128 ==> x * p >= 128 * p;
    assert x <= 127 ==> x * p <= 127 * p;
  }

  /** The `n` big-endian bytes of `u`, keeping the low `8 * n` bits. */
  function UnsignedBytes(u: nat, n: nat): (k: seq<bv8>)
    ensures |k| == n
  {
    if n == 0 then [] else UnsignedBytes(u / 256, n - 1) + [(u % 256) as bv8]
  }

  /** The `n`-byte two's-complement encoding of `v`. */
  function TwosComplementBytes(v: int, n: nat): (k: seq<bv8>)
    ensures |k| == n
  {
    UnsignedBytes(v % Pow256(n), n)
  }

  /** Reading the bytes of a key and encoding them again gives the key back. */
  lemma {:induction false} UnsignedRoundTrip(k: seq<bv8>)
    ensures UnsignedBytes(Unsigned(k), |k|) == k
  {
    if k != [] {
      var a, b := k[..|k| - 1], k[|k| - 1];
      assert k == a + [b];
      assert Unsigned(k) == Unsigned(a) * 256 + b as nat;
      assert Unsigned(k) / 256 == Unsigned(a);
      assert Unsigned(k) % 256 == b as nat;
      UnsignedRoundTrip(a);
    }
  }

  lemma ModSplit(u: nat, b: nat, p: nat)
    requires b > 0 && p > 0
    ensures ((u / b) % p) * b + u % b == u % (b * p)
  {
    var q, r := u / b, u % b;
    var t, s := q / p, q % p;
    assert u == q * b + r;
    assert q == t * p + s;
    Expand(t, p, s, b);
    assert u == (b * p) * t + (s * b + r);
    MulLe(s, p - 1, b);
    assert (p - 1) * b + b == b * p;
    DivModUnique(u, b * p, t, s * b + r);
  }

  lemma Expand(t: int, p: int, s: int, b: int)
    ensures (t * p + s) * b == (b * p) * t + s * b
  {
  }

  lemma MulLe(x: nat, y: nat, b: nat)
    requires x <= y
    ensures x * b <= y * b
  {
  }

  lemma DivModUnique(u: int, m: nat, t: int, r: int)
    requires m > 0 && 0 <= r < m && u == m * t + r
    ensures u / m == t && u % m == r
  {
    var q, r' := u / m, u % m;
    var d := q - t;
    assert m * d == r - r';
    assert d >= 1 ==> m * d >= m * 1;
    assert d <= -1 ==> m * d <= m * -1;
  }

  /**
   * `keyAsInt` loses nothing: the two's-complement encoding of the integer a
   * key denotes, at the key's width, is the key itself.
   */
  lemma SignedRoundTrip(k: seq<bv8>)
    requires |k| > 0
    ensures TwosComplementBytes(SignedValue(k), |k|) == k
  {
    var p := Pow256(|k|);
    var u := Unsigned(k);
    if k[0] >= 0x80 {
      DivModUnique(u as int - p, p, -1, u);
    } else {
      DivModUnique(u, p, 0, u);
    }
    UnsignedRoundTrip(k);
  }
}
