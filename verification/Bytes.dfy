/** Byte strings, fixed-width integers in both byte orders, and exclusive or.
    Bytes are the integers 0..255; masks and shifts of the source are written
    as remainders and quotients by powers of two. */
module Bytes {
  type byte = x: int | 0 <= x < 256
  type bytes = seq<byte>
  type Block = b: bytes | |b| == 16 witness seq(16, i => 0)

  datatype ErrorCode =
    | Cancelled | AuthenticationFailed | PermissionDenied | ProtocolUnsupported
    | InvalidPath | IoError | UnsupportedCapability | InternalError | NetworkError
    | InvalidArgument  // a thrown std::invalid_argument
    | FromStatus(status: nat)  // whatever the NT status table makes of a failure status

  datatype Result<+T> = Ok(value: T) | Err(code: ErrorCode)

  function Zeros(n: nat): (r: bytes)
    ensures |r| == n
  {
    seq(n, i => 0)
  }

  lemma SliceOfSlice<T>(s: seq<T>, lo: nat, hi: nat, i: nat, j: nat)
    requires lo <= i <= j <= hi <= |s|
    ensures s[lo..hi][i - lo..j - lo] == s[i..j]
  {
    var a, b := s[lo..hi][i - lo..j - lo], s[i..j];
    forall k | 0 <= k < j - i ensures a[k] == b[k] {
      assert a[k] == s[lo..hi][i - lo + k] == s[i + k];
    }
  }

  lemma SliceOfPrefix<T>(s: seq<T>, t: seq<T>, i: nat, j: nat)
    requires s <= t && i <= j <= |s|
    ensures s[i..j] == t[i..j]
  {
    SliceOfSlice(t, 0, |s|, i, j);
  }

  // ---------------------------------------------------------------- integers

  function Pow256(n: nat): (p: nat)
    ensures p > 0
  {
    if n == 0 then 1 else 256 * Pow256(n - 1)
  }

  lemma Pow256Values()
    ensures Pow256(1) == 0x100 && Pow256(2) == 0x1_0000 && Pow256(3) == 0x100_0000
    ensures Pow256(4) == 0x1_0000_0000 && Pow256(8) == 0x1_0000_0000_0000_0000
  {
    assert Pow256(3) == 256 * Pow256(2);
    assert Pow256(5) == 256 * Pow256(4);
    assert Pow256(7) == 256 * Pow256(6);
  }

  lemma {:induction false} Pow256Monotone(m: nat, n: nat)
    requires m <= n
    ensures Pow256(m) <= Pow256(n)
    decreases n
  {
    if m < n { Pow256Monotone(m, n - 1); }
  }

  /** The `n` low bytes of `v`, least significant first. */
  function Le(v: nat, n: nat): (r: bytes)
    ensures |r| == n
    decreases n
  {
    if n == 0 then [] else [v % 256] + Le(v / 256, n - 1)
  }

  lemma LeStep(v: nat, n: nat)
    ensures Le(v, n + 1) == [v % 256] + Le(v / 256, n)
    ensures Le(v, 0) == []
  {
  }

  function FromLe(b: bytes): nat {
    if b == [] then 0 else b[0] + 256 * FromLe(b[1..])
  }

  lemma {:induction false} FromLeBound(b: bytes)
    ensures FromLe(b) < Pow256(|b|)
  {
    if b != [] { FromLeBound(b[1..]); }
  }

  lemma {:induction false} LeRoundTrip(v: nat, n: nat)
    requires v < Pow256(n)
    ensures FromLe(Le(v, n)) == v
    decreases n
  {
    if n > 0 {
      LeRoundTrip(v / 256, n - 1);
      assert Le(v, n)[1..] == Le(v / 256, n - 1);
    }
  }

  lemma {:induction false} FromLeRoundTrip(b: bytes)
    ensures Le(FromLe(b), |b|) == b
  {
    if b != [] {
      FromLeRoundTrip(b[1..]);
      assert FromLe(b) % 256 == b[0] && FromLe(b) / 256 == FromLe(b[1..]);
    }
  }

  /** The `n` low bytes of `v`, most significant first. */
  function Be(v: nat, n: nat): (r: bytes)
    ensures |r| == n
    decreases n
  {
    if n == 0 then [] else Be(v / 256, n - 1) + [v % 256]
  }

  function FromBe(b: bytes): nat {
    if b == [] then 0 else 256 * FromBe(b[..|b| - 1]) + b[|b| - 1]
  }

  lemma {:induction false} BeRoundTrip(v: nat, n: nat)
    requires v < Pow256(n)
    ensures FromBe(Be(v, n)) == v
    decreases n
  {
    if n > 0 {
      BeRoundTrip(v / 256, n - 1);
      assert Be(v, n)[..n - 1] == Be(v / 256, n - 1);
    }
  }

  lemma {:induction false} FromBeRoundTrip(b: bytes)
    ensures Be(FromBe(b), |b|) == b && FromBe(b) < Pow256(|b|)
  {
    if b != [] {
      FromBeRoundTrip(b[..|b| - 1]);
      var last := b[|b| - 1];
      assert FromBe(b) % 256 == last && FromBe(b) / 256 == FromBe(b[..|b| - 1]);
    }
  }

  lemma Quotient(v: nat, d: nat, q: nat, r: nat)
    requires v == d * q + r && r < d
    ensures v / d == q
  {
    var p, rest: int := v / d, v % d;
    assert v == d * p + rest;
    assert d * (q - p) == rest - r;
    Multiple(d, q - p);
  }

  lemma Multiple(d: int, k: int)
    requires d > 0
    ensures (k >= 1 ==> d * k >= d) && (k <= -1 ==> d * k <= -d)
  {
    assert d * k == d + d * (k - 1) == d * (k + 1) - d;
  }

  lemma DivideTwice(v: nat, p: nat)
    requires p > 0
    ensures v / 256 / p == v / (256 * p)
  {
    var q, r := v / 256, v % 256;
    var a, b := q / p, q % p;
    assert q == p * a + b;
    assert v == 256 * q + r;
    assert 256 * (p * a) == 256 * p * a;
    Quotient(v, 256 * p, a, 256 * b + r);
  }

  /** Byte `i` of a little-endian number counts 256^i, of a big-endian one of `n` bytes
      256^(n - 1 - i). */
  lemma {:induction false} LeByte(v: nat, n: nat, i: nat)
    requires i < n
    ensures Le(v, n)[i] == v / Pow256(i) % 256
    decreases n
  {
    if i > 0 {
      LeByte(v / 256, n - 1, i - 1);
      DivideTwice(v, Pow256(i - 1));
    }
  }

  lemma {:induction false} BeByte(v: nat, n: nat, i: nat)
    requires i < n
    ensures Be(v, n)[i] == v / Pow256(n - 1 - i) % 256
    decreases n
  {
    if i < n - 1 {
      BeByte(v / 256, n - 1, i);
      DivideTwice(v, Pow256(n - 2 - i));
    }
  }

  // ----------------------------------------------------------- exclusive or

  function Pow2(n: nat): (p: nat)
    ensures p > 0
  {
    if n == 0 then 1 else 2 * Pow2(n - 1)
  }

  /** Bitwise exclusive or of the `w` low bits. */
  function XorBits(w: nat, a: nat, b: nat): (r: nat)
    ensures r < Pow2(w)
    decreases w
  {
    if w == 0 then 0 else (if a % 2 == b % 2 then 0 else 1) + 2 * XorBits(w - 1, a / 2, b / 2)
  }

  lemma Pow2Of8()
    ensures Pow2(8) == 256
  {
    assert Pow2(4) == 2 * Pow2(3);
    assert Pow2(6) == 2 * Pow2(5);
  }

  function Xor(a: byte, b: byte): byte {
    Pow2Of8();
    XorBits(8, a, b)
  }

  /** Bit `k` of `v`, bit 0 being the least significant. */
  function Bit(v: nat, k: nat): bool
    decreases k
  {
    if k == 0 then v % 2 == 1 else Bit(v / 2, k - 1)
  }

  lemma DivideByTwos(v: nat, p: nat)
    requires p > 0
    ensures v / 2 / p == v / (2 * p)
  {
    var q, r := v / 2, v % 2;
    var a, b := q / p, q % p;
    assert q == p * a + b && v == 2 * q + r;
    assert 2 * (p * a) == 2 * p * a;
    Quotient(v, 2 * p, a, 2 * b + r);
  }

  lemma {:induction false} BitCounts(v: nat, k: nat)
    ensures Bit(v, k) <==> v / Pow2(k) % 2 == 1
    decreases k
  {
    if k > 0 {
      BitCounts(v / 2, k - 1);
      DivideByTwos(v, Pow2(k - 1));
    }
  }

  lemma {:induction false} XorBitsBit(w: nat, a: nat, b: nat, k: nat)
    requires k < w
    ensures Bit(XorBits(w, a, b), k) == (Bit(a, k) != Bit(b, k))
    decreases w
  {
    if k > 0 { XorBitsBit(w - 1, a / 2, b / 2, k - 1); }
  }

  lemma XorBit(a: byte, b: byte, k: nat)
    requires k < 8
    ensures Bit(Xor(a, b), k) == (Bit(a, k) != Bit(b, k))
  {
    XorBitsBit(8, a, b, k);
  }

  lemma {:induction false} XorBitsCancel(w: nat, a: nat, b: nat)
    requires a < Pow2(w)
    ensures XorBits(w, XorBits(w, a, b), b) == a
    decreases w
  {
    if w > 0 {
      XorBitsCancel(w - 1, a / 2, b / 2);
      var rest := XorBits(w - 1, a / 2, b / 2);
      var r := XorBits(w, a, b);
      assert r / 2 == rest && r % 2 == if a % 2 == b % 2 then 0 else 1;
      assert XorBits(w, r, b) == (if r % 2 == b % 2 then 0 else 1) + 2 * XorBits(w - 1, rest, b / 2);
      assert (if r % 2 == b % 2 then 0 else 1) == a % 2;
    }
  }

  lemma XorCancel(a: byte, b: byte)
    ensures Xor(Xor(a, b), b) == a
  {
    Pow2Of8();
    XorBitsCancel(8, a, b);
  }

  /** Bytewise exclusive or of `a` with the first bytes of `b`. */
  function XorBytes(a: bytes, b: bytes): (r: bytes)
    requires |a| <= |b|
    ensures |r| == |a|
  {
    seq(|a|, i requires 0 <= i < |a| => Xor(a[i], b[i]))
  }

  lemma XorBytesAt(a: bytes, b: bytes, i: nat)
    requires i < |a| <= |b|
    ensures XorBytes(a, b)[i] == Xor(a[i], b[i])
  {
  }

  lemma XorBytesCancel(a: bytes, b: bytes)
    requires |a| <= |b|
    ensures XorBytes(XorBytes(a, b), b) == a
  {
    forall i | 0 <= i < |a| ensures XorBytes(XorBytes(a, b), b)[i] == a[i] {
      XorCancel(a[i], b[i]);
    }
  }
}
