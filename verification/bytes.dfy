/** Shared vocabulary of the bus firmware and its host tools: bytes, bits,
    optional and fallible results, the 8-bit wrapping sum used as checksum on
    the bus, powers of two and little-endian byte layouts. */
module Bytes {

  /** An unsigned 8-bit value (`uint8_t` in the firmware, an element of
      `bytes` in the host tools). */
  type byte = x: int | 0 <= x < 256

  /** One sampled or transmitted bit. */
  type bit = x: int | 0 <= x < 2

  datatype Option<+T> = None | Some(value: T)

  datatype Result<+T, +E> = Ok(value: T) | Err(error: E)

  function Pow2(n: nat): (r: nat)
    ensures r >= 1
  {
    if n == 0 then 1 else 2 * Pow2(n - 1)
  }

  lemma {:induction false} Pow2Add(a: nat, b: nat)
    ensures Pow2(a + b) == Pow2(a) * Pow2(b)
  {
    if a > 0 {
      Pow2Add(a - 1, b);
      assert Pow2(a + b) == 2 * Pow2(a - 1 + b);
    }
  }

  lemma {:induction false} Pow2Monotone(a: nat, b: nat)
    requires a <= b
    ensures Pow2(a) <= Pow2(b)
  {
    if a < b {
      Pow2Monotone(a, b - 1);
    }
  }

  /** Plain (unbounded) sum of a byte sequence, as Python's `sum` computes it. */
  function Sum(s: seq<byte>): nat
  {
    if s == [] then 0 else Sum(s[..|s| - 1]) + s[|s| - 1]
  }

  /** The 8-bit wrapping sum, byte by byte, as a `uint8_t` accumulator with
      `sum += data[i]` computes it. This is the bus checksum. */
  function Sum8(s: seq<byte>): byte
  {
    if s == [] then 0 else (Sum8(s[..|s| - 1]) + s[|s| - 1]) % 256
  }

  /** Wrapping at every step and wrapping once at the end agree. */
  lemma {:induction false} Sum8IsSumMod(s: seq<byte>)
    ensures Sum8(s) == Sum(s) % 256
  {
    if s != [] {
      Sum8IsSumMod(s[..|s| - 1]);
    }
  }

  lemma {:induction false} Sum8Append(a: seq<byte>, b: seq<byte>)
    ensures Sum8(a + b) == (Sum8(a) + Sum8(b)) % 256
  {
    Sum8IsSumMod(a);
    Sum8IsSumMod(b);
    Sum8IsSumMod(a + b);
    SumAppend(a, b);
    var x, y := Sum(a), Sum(b);
    assert x == 256 * (x / 256) + x % 256;
    assert y == 256 * (y / 256) + y % 256;
    ModOfShift(x % 256 + y % 256, x / 256 + y / 256);
  }

  lemma {:induction false} SumAppend(a: seq<byte>, b: seq<byte>)
    ensures Sum(a + b) == Sum(a) + Sum(b)
  {
    if b == [] {
      assert a + b == a;
    } else {
      assert (a + b)[..|a + b| - 1] == a + b[..|b| - 1];
      SumAppend(a, b[..|b| - 1]);
    }
  }

  /** Adding whole multiples of 256 does not change a value modulo 256. */
  lemma ModOfShift(r: int, q: int)
    ensures (r + 256 * q) % 256 == r % 256
  {
  }

  /** The smaller of two values. */
  function Min(a: int, b: int): int
  {
    if a <= b then a else b
  }

  /** `n` copies of `x`. */
  function Copies<T>(x: T, n: nat): (r: seq<T>)
    ensures |r| == n && forall i :: 0 <= i < n ==> r[i] == x
  {
    seq(n, _ => x)
  }

  /** Appending in two steps is appending once. */
  lemma Regroup<T>(a: seq<T>, b: seq<T>, c: seq<T>)
    ensures (a + b) + c == a + (b + c)
  {
  }

  /** The text of a message string as the bytes sent for it (the firmware's
      strings are all ASCII). */
  function Ascii(s: string): (r: seq<byte>)
    ensures |r| == |s|
  {
    seq(|s|, i requires 0 <= i < |s| => (s[i] as int) % 256)
  }

  /** Little-endian layout of the low `n` bytes of `x`: what the firmware sends
      when it casts a multi-byte integer to `uint8_t*`. */
  function LE(x: nat, n: nat): (r: seq<byte>)
    ensures |r| == n
  {
    if n == 0 then [] else [x % 256] + LE(x / 256, n - 1)
  }

  /** The integer a little-endian byte sequence denotes. */
  function FromLE(s: seq<byte>): nat
  {
    if s == [] then 0 else s[0] + 256 * FromLE(s[1..])
  }

  lemma {:induction false} FromLEBound(s: seq<byte>)
    ensures FromLE(s) < Pow2(8 * |s|)
  {
    if s != [] {
      FromLEBound(s[1..]);
      Pow2Add(8, 8 * (|s| - 1));
      assert Pow2(8) == 256;
    }
  }

  /** Reading back a little-endian layout gives the bytes that were laid out. */
  lemma {:induction false} LEFromLE(s: seq<byte>)
    ensures LE(FromLE(s), |s|) == s
  {
    if s != [] {
      var x := FromLE(s);
      assert x % 256 == s[0] && x / 256 == FromLE(s[1..]);
      LEFromLE(s[1..]);
    }
  }

  /** The integer whose bits, least significant first, are `bits`. */
  function FromBitsLSB(bits: seq<bit>): nat
  {
    if bits == [] then 0 else bits[0] + 2 * FromBitsLSB(bits[1..])
  }

  /** The integer whose bits, most significant first, are `bits`: what a
      register that is shifted left and ORed with each new bit holds. */
  function FromBitsMSB(bits: seq<bit>): nat
  {
    if bits == [] then 0 else 2 * FromBitsMSB(bits[..|bits| - 1]) + bits[|bits| - 1]
  }

  lemma {:induction false} FromBitsMSBBound(bits: seq<bit>)
    ensures FromBitsMSB(bits) < Pow2(|bits|)
  {
    if bits != [] {
      FromBitsMSBBound(bits[..|bits| - 1]);
    }
  }
  /** The low `n` bits of `x`, least significant first. */
  function LsbBits(x: nat, n: nat): (r: seq<bit>)
    ensures |r| == n
  {
    if n == 0 then [] else [x % 2] + LsbBits(x / 2, n - 1)
  }

  lemma {:induction false} FromBitsLSBBound(bits: seq<bit>)
    ensures FromBitsLSB(bits) < Pow2(|bits|)
  {
    if bits != [] {
      FromBitsLSBBound(bits[1..]);
    }
  }

  /** Splitting a number below 2^n into `n` bits and reading them back gives
      the number. */
  lemma {:induction false} LsbBitsRoundTrip(x: nat, n: nat)
    requires x < Pow2(n)
    ensures FromBitsLSB(LsbBits(x, n)) == x
  {
    if n > 0 {
      LsbBitsRoundTrip(x / 2, n - 1);
    }
  }

  /** Reading bits back as a number and splitting it into bits again gives
      the same bits. */
  lemma {:induction false} BitsRoundTrip(bits: seq<bit>)
    ensures LsbBits(FromBitsLSB(bits), |bits|) == bits
  {
    if bits != [] {
      BitsRoundTrip(bits[1..]);
      var x := FromBitsLSB(bits);
      assert x % 2 == bits[0] && x / 2 == FromBitsLSB(bits[1..]);
    }
  }

  /** Appending a bit adds it at the next weight. */
  lemma {:induction false} FromBitsLSBSnoc(bits: seq<bit>, b: bit)
    ensures FromBitsLSB(bits + [b]) == FromBitsLSB(bits) + b * Pow2(|bits|)
  {
    if bits != [] {
      assert (bits + [b])[1..] == bits[1..] + [b];
      FromBitsLSBSnoc(bits[1..], b);
    } else {
      assert (bits + [b])[1..] == [];
    }
  }

  /** A 16-bit pattern read as `int16_t`, two's complement. */
  function Int16(x: nat): (r: int)
    requires x < 65536
    ensures -32768 <= r < 32768
    ensures r % 65536 == x
  {
    if x >= 32768 then x - 65536 else x
  }
}
