/**
 * Byte-level vocabulary of the wire format: octets, little-endian scalars,
 * two's-complement conversions, the alignment arithmetic of the builder and
 * the error outcome that replaces the runtime's panics.
 */
module Wire {

  /** One octet of a buffer. */
  type Byte = x: int | 0 <= x < 256

  /** Go's `int` is 64 bits wide; the alignment arithmetic wraps modulo this. */
  const WordModulus: nat := 0x1_0000_0000_0000_0000

  /** Misuse errors (the runtime panics) and out-of-range reads. */
  datatype Error =
    | Nested            // a Start*/Create* while an object, vector or string is open
    | NotNested         // an End* with nothing open, or an inline struct outside an object
    | NotInline         // a struct slot whose offset is not the current position
    | SlotOutOfRange    // a slot index beyond the open object's field count
    | NoSpace           // a raw Place*/Pad below the start of the buffer
    | OffsetOutOfRange  // an offset that points past the data written so far
    | NotFinished       // FinishedBytes before Finish
    | OutOfBounds       // a read or write outside the buffer

  datatype Result<+T> = Ok(value: T) | Err(error: Error) {
    predicate IsFailure() { Err? }
    function PropagateFailure<U>(): Result<U>
      requires Err?
    {
      Err(error)
    }
    function Extract(): T
      requires Ok?
    {
      value
    }
  }

  /** 256^n: the number of bit patterns of an n-byte scalar. */
  function Pow256(n: nat): (r: nat)
    ensures r >= 1
  {
    if n == 0 then 1 else 256 * Pow256(n - 1)
  }

  /** n zero bytes, as written by the builder's padding. */
  function Zeros(n: nat): (r: seq<Byte>)
    ensures |r| == n
    ensures forall i | 0 <= i < n :: r[i] == 0
  {
    seq(n, _ => 0)
  }

  /**
   * The little-endian encoding of v in w bytes. Only the low w bytes of v are
   * kept, which is Go's truncating conversion to a w-byte unsigned type.
   */
  function LE(v: nat, w: nat): (r: seq<Byte>)
    ensures |r| == w
  {
    if w == 0 then [] else [v % 256] + LE(v / 256, w - 1)
  }

  /** The unsigned value of a little-endian byte sequence. */
  function FromLE(s: seq<Byte>): nat
  {
    if s == [] then 0 else s[0] + 256 * FromLE(s[1..])
  }

  /** A decoded w-byte scalar always fits in w bytes. */
  lemma {:induction false} FromLEBound(s: seq<Byte>)
    ensures FromLE(s) < Pow256(|s|)
  {
    if s != [] {
      FromLEBound(s[1..]);
    }
  }

  /** Decoding an encoding gives back the value, reduced to w bytes. */
  lemma {:induction false} FromLEOfLE(v: nat, w: nat)
    ensures FromLE(LE(v, w)) == v % Pow256(w)
  {
    if w > 0 {
      FromLEOfLE(v / 256, w - 1);
      var p := Pow256(w - 1);
      assert LE(v, w)[1..] == LE(v / 256, w - 1);
      DivModCombine(v, p);
    }
  }

  /** v mod 256p is v's low byte plus 256 times (v div 256) mod p. */
  lemma DivModCombine(v: nat, p: nat)
    requires p >= 1
    ensures v % (256 * p) == v % 256 + 256 * ((v / 256) % p)
  {
    var q := v / 256;
    var r := v % 256;
    var q2 := q / p;
    var r2 := q % p;
    assert v == 256 * q + r;
    assert q == p * q2 + r2;
    assert v == (256 * p) * q2 + (256 * r2 + r);
    assert 0 <= 256 * r2 + r < 256 * p;
    DivModUnique(v, 256 * p, q2, 256 * r2 + r);
  }

  /** Euclidean division has a unique quotient and remainder. */
  lemma DivModUnique(a: int, d: int, q: int, r: int)
    requires d > 0 && 0 <= r < d && a == d * q + r
    ensures a % d == r && a / d == q
  {
    var q0, r0 := a / d, a % d;
    assert d * (q0 - q) == r - r0;
    ProductInOpenUnit(d, q0 - q);
  }

  /** Euclidean division splits a into d times the quotient plus the remainder. */
  lemma DivModSplit(a: int, d: int)
    requires d > 0
    ensures a == d * (a / d) + a % d && 0 <= a % d < d
  {
  }

  /** A multiple of d strictly between -d and d is zero. */
  lemma ProductInOpenUnit(d: int, k: int)
    requires d > 0 && -d < d * k < d
    ensures k == 0
  {
    if k > 0 {
      MulAtLeast(d, k);
      assert false;
    } else if k < 0 {
      MulAtLeast(d, -k);
      assert false;
    }
  }

  /** Multiplying by a positive whole number does not shrink a positive d. */
  lemma MulAtLeast(d: int, k: int)
    requires d > 0 && k >= 1
    ensures d * k >= d && d * -k <= -d
  {
  }

  /** Encoding a decoded sequence gives back the same bytes. */
  lemma {:induction false} LEOfFromLE(s: seq<Byte>)
    ensures LE(FromLE(s), |s|) == s
  {
    if s != [] {
      var v := FromLE(s);
      var t := FromLE(s[1..]);
      assert v == s[0] + 256 * t;
      DivModUnique(v, 256, t, s[0]);
      LEOfFromLE(s[1..]);
      assert LE(v, |s|) == [s[0]] + LE(t, |s| - 1);
    }
  }

  /** The w-byte two's-complement bit pattern of x (Go's signed-to-unsigned conversion). */
  function Unsigned(x: int, w: nat): (r: nat)
    ensures r < Pow256(w)
    ensures 0 <= x < Pow256(w) ==> r == x
  {
    var p := Pow256(w);
    if 0 <= x < p then DivModUnique(x, p, 0, x); x % p else x % p
  }

  /** A scalar of at least one byte has an even number of bit patterns. */
  lemma Pow256Even(w: nat)
    requires w > 0
    ensures Pow256(w) % 2 == 0 && Pow256(w) >= 256
  {
    var p := Pow256(w - 1);
    assert Pow256(w) == 256 * p;
    DivModUnique(256 * p, 2, 128 * p, 0);
  }

  /** The signed value of a w-byte bit pattern (Go's unsigned-to-signed conversion). */
  function Signed(u: nat, w: nat): (r: int)
    requires w > 0
    ensures r + Pow256(w) / 2 >= 0 && r < Pow256(w) / 2
    ensures u < Pow256(w) / 2 ==> r == u
  {
    var p := Pow256(w);
    Pow256Even(w);
    if u < p then DivModUnique(u, p, 0, u); Wrap(u, p) else Wrap(u, p)
  }

  /** The signed reading of u modulo p, p even. */
  function Wrap(u: nat, p: nat): (r: int)
    requires p > 0 && p % 2 == 0
    ensures r + p / 2 >= 0 && r < p / 2
  {
    var u' := u % p;
    if u' < p / 2 then u' else u' - p
  }

  /** Every signed value in range survives the round trip through its bit pattern. */
  lemma SignedOfUnsigned(x: int, w: nat)
    requires w > 0
    requires x + Pow256(w) / 2 >= 0 && x < Pow256(w) / 2
    ensures Signed(Unsigned(x, w), w) == x
  {
    var p := Pow256(w);
    Pow256Even(w);
    var u := Unsigned(x, w);
    if x < 0 {
      DivModUnique(x, p, -1, x + p);
      assert u == x + p;
      DivModUnique(u, p, 0, u);
      assert Wrap(u, p) == x;
    } else {
      DivModUnique(x, p, 0, x);
      assert u == x;
      DivModUnique(u, p, 0, u);
      assert Wrap(u, p) == u;
    }
  }

  /** Every bit pattern survives the round trip through its signed value. */
  lemma UnsignedOfSigned(u: nat, w: nat)
    requires w > 0 && u < Pow256(w)
    ensures Unsigned(Signed(u, w), w) == u
  {
    var p := Pow256(w);
    Pow256Even(w);
    DivModUnique(u, p, 0, u);
    if u >= p / 2 {
      DivModUnique(u - p, p, -1, u);
    }
  }

  /** Bitwise AND of two naturals (Go's `&` on non-negative operands). */
  function BitAnd(a: nat, b: nat): (r: nat)
    ensures r <= a && r <= b
  {
    if a == 0 || b == 0 then 0
    else 2 * BitAnd(a / 2, b / 2) + (if a % 2 == 1 && b % 2 == 1 then 1 else 0)
  }

  /** 1, 2, 4, 8, ...: the alignments for which masking with size-1 is a remainder. */
  predicate IsPow2(n: nat)
  {
    n == 1 || (n > 1 && n % 2 == 0 && IsPow2(n / 2))
  }

  /** Masking with 2^k - 1 keeps the remainder modulo 2^k. */
  lemma {:induction false} BitAndLowMask(y: nat, size: nat)
    requires IsPow2(size)
    ensures BitAnd(y, size - 1) == y % size
  {
    if size == 1 {
      DivModUnique(y, 1, y, 0);
    } else if y == 0 {
      DivModUnique(0, size, 0, 0);
    } else {
      var h := size / 2;
      assert size == 2 * h && IsPow2(h);
      BitAndLowMask(y / 2, h);
      var q := (y / 2) % h;
      var bit := y % 2;
      OddMask(size, h);
      BitAndOdd(y, size - 1);
      var big := (y / 2) / h;
      DivModSplit(y / 2, h);
      HalfSplit(y, h, big, q, bit);
      DivModUnique(y, size, big, 2 * q + bit);
    }
  }

  /** 2h - 1 is odd, and halving it gives h - 1. */
  lemma OddMask(size: nat, h: nat)
    requires h >= 1 && size == 2 * h
    ensures (size - 1) / 2 == h - 1 && (size - 1) % 2 == 1
  {
    DivModUnique(size - 1, 2, h - 1, 1);
  }

  /** Against an odd mask, the low bit of y survives and the rest is masked by half the mask. */
  lemma BitAndOdd(y: nat, m: nat)
    requires y > 0 && m % 2 == 1
    ensures BitAnd(y, m) == 2 * BitAnd(y / 2, m / 2) + y % 2
  {
  }

  /** y = 2(h*big + q) + bit regrouped around 2h. */
  lemma HalfSplit(y: nat, h: nat, big: int, q: int, bit: int)
    requires h >= 1 && y / 2 == h * big + q && bit == y % 2 && 0 <= q < h
    ensures y == (2 * h) * big + (2 * q + bit) && 0 <= 2 * q + bit < 2 * h
  {
    assert y == 2 * (y / 2) + bit;
    assert 2 * (h * big) == (2 * h) * big;
  }

  /** Reducing modulo a multiple of d first does not change the remainder by d. */
  lemma ModOfMod(x: int, m: nat, d: nat)
    requires d > 0 && m > 0 && m % d == 0
    ensures (x % m) % d == x % d
  {
    var k := m / d;
    assert m == d * k;
    var q := x / m;
    var r := x % m;
    assert x == m * q + r;
    var q2 := r / d;
    var r2 := r % d;
    assert r == d * q2 + r2;
    assert x == d * (k * q + q2) + r2 by {
      assert m * q == d * (k * q);
    }
    DivModUnique(x, d, k * q + q2, r2);
  }

  /**
   * The zero padding the builder inserts so that an element of `size` lands
   * aligned after `used` bytes: Go computes (^used + 1) & (size - 1) on 64-bit
   * ints. A size of 0 masks with all ones and yields a non-positive amount,
   * so no padding is written.
   */
  function PadLen(used: nat, size: nat): (r: nat)
    ensures size > 0 ==> r < size
  {
    if size == 0 then 0 else BitAnd(Neg(used) % WordModulus, size - 1)
  }

  /** For a power-of-two size dividing 2^64 the mask is the remainder of -used. */
  lemma PadLenRemainder(used: nat, size: nat)
    requires IsPow2(size) && WordModulus % size == 0
    ensures PadLen(used, size) == Neg(used) % size
  {
    BitAndLowMask(Neg(used) % WordModulus, size);
    ModOfMod(Neg(used), WordModulus, size);
  }

  /** -n as an int (Go's `^n + 1`). */
  function Neg(n: nat): int
  {
    0 - n
  }

  /** After the padding, `used` bytes plus the padding are a multiple of a power-of-two size. */
  lemma PadLenAligns(used: nat, size: nat)
    requires IsPow2(size) && WordModulus % size == 0
    ensures (used + PadLen(used, size)) % size == 0
  {
    PadLenRemainder(used, size);
    NegRemainderAligns(used, size);
  }

  /** Adding (-x) mod d to x gives a multiple of d. */
  lemma NegRemainderAligns(x: int, d: int)
    requires d > 0
    ensures (x + (0 - x) % d) % d == 0
  {
    var q := (0 - x) / d;
    DivModSplit(0 - x, d);
    assert x + (0 - x) % d == d * (0 - q);
    DivModUnique(x + (0 - x) % d, d, 0 - q, 0);
  }
}
