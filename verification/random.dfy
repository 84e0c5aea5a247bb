/** The entropy pool (random.c): a running SHA-256 accumulator that is fed
    noise and device bytes, from which digests and bounded integers are drawn.

    SHA-256 itself is not part of this model. The accumulator is represented
    by the whole byte stream fed to it since initialisation, and the digest
    by an arbitrary fixed function `hash` of that stream: finalising a copy of
    the accumulator is `hash(fed)`. */
module Random {
  import opened Bytes

  /** SHA256_HASHLEN */
  const DigestLength: nat := 32

  type Digest = d: seq<byte> | |d| == DigestLength witness seq(32, _ => 0)

  /** A sample of the 10-bit analog converter, stored as `uint16_t`. */
  type AdcSample = x: int | 0 <= x < 65536

  /** Number of bits needed to write `n`: how many right shifts it takes to
      reach zero. */
  function BitLength(n: nat): nat
  {
    if n == 0 then 0 else 1 + BitLength(n / 2)
  }

  lemma {:induction false} BitLengthBounds(n: nat)
    requires n >= 1
    ensures Pow2(BitLength(n) - 1) <= n < Pow2(BitLength(n))
  {
    if n > 1 {
      BitLengthBounds(n / 2);
    }
  }

  lemma {:induction false} BitLengthOfByte(n: byte)
    ensures BitLength(n) <= 8
  {
    assert Pow2(8) == 256;
    if n >= 1 {
      BitLengthBounds(n);
      if BitLength(n) > 8 {
        Pow2Monotone(8, BitLength(n) - 1);
      }
    }
  }

  /** The mask `rnd_integer` builds: as many one bits as `max` has bits. */
  function MaskFor(max: byte): byte
  {
    BitLengthOfByte(max);
    Pow2Monotone(BitLength(max), 8);
    assert Pow2(8) == 256;
    Pow2(BitLength(max)) - 1
  }

  /** The mask is the smallest all-ones value covering `max`, so that at
      least half of the masked values are acceptable. */
  lemma MaskCovers(max: byte)
    ensures max <= MaskFor(max) <= 2 * max
  {
    if max >= 1 {
      BitLengthBounds(max);
    }
  }

  /** `temp.hash[i] & mask` */
  function Masked(b: byte, mask: byte): byte
  {
    ((b as bv8) & (mask as bv8)) as int
  }

  /** The masked value of the first byte of `s`, in index order, that is at
      most `max` once masked, if any. */
  function FirstAccepted(s: seq<byte>, mask: byte, max: byte): Option<byte>
  {
    if s == [] then None
    else if Masked(s[0], mask) <= max then Some(Masked(s[0], mask))
    else FirstAccepted(s[1..], mask, max)
  }

  /** The outcome of the sampling loop of `rnd_integer` when at most `fuel`
      digests may be drawn: the value returned (None when every drawn byte was
      rejected) and the stream fed to the pool afterwards. Each digest drawn
      is `hash` of the stream so far, and its first two bytes are fed back. */
  function Draw(hash: seq<byte> -> Digest, fed: seq<byte>, max: byte, mask: byte, fuel: nat)
    : (Option<byte>, seq<byte>)
    decreases fuel
  {
    if fuel == 0 then (None, fed)
    else
      var d := hash(fed);
      var fed' := fed + d[..2];
      match FirstAccepted(d, mask, max)
      case Some(v) => (Some(v), fed')
      case None => Draw(hash, fed', max, mask, fuel - 1)
  }

  lemma {:induction false} FirstAcceptedBounded(s: seq<byte>, mask: byte, max: byte)
    ensures FirstAccepted(s, mask, max).Some? ==> FirstAccepted(s, mask, max).value <= max
  {
    if s != [] && Masked(s[0], mask) > max {
      FirstAcceptedBounded(s[1..], mask, max);
    }
  }

  /** Every value drawn is at most `max`. */
  lemma {:induction false} DrawBounded(hash: seq<byte> -> Digest, fed: seq<byte>, max: byte, mask: byte, fuel: nat)
    ensures Draw(hash, fed, max, mask, fuel).0.Some? ==> Draw(hash, fed, max, mask, fuel).0.value <= max
    decreases fuel
  {
    if fuel > 0 {
      var d := hash(fed);
      FirstAcceptedBounded(d, mask, max);
      DrawBounded(hash, fed + d[..2], max, mask, fuel - 1);
    }
  }

  /** Drawing only appends to the fed stream, two digest bytes per digest
      drawn; a successful draw has drawn at least one digest, so the pool has
      moved on. */
  lemma {:induction false} DrawFeedsBack(hash: seq<byte> -> Digest, fed: seq<byte>, max: byte, mask: byte, fuel: nat)
    ensures var res := Draw(hash, fed, max, mask, fuel);
      && |fed| <= |res.1| <= |fed| + 2 * fuel
      && res.1[..|fed|] == fed
      && (|res.1| - |fed|) % 2 == 0
      && (res.0.Some? ==> |res.1| > |fed|)
    decreases fuel
  {
    if fuel > 0 {
      var d := hash(fed);
      var next := fed + d[..2];
      assert |next| == |fed| + 2 && next[..|fed|] == fed;
      if FirstAccepted(d, mask, max).None? {
        DrawFeedsBack(hash, next, max, mask, fuel - 1);
        var res := Draw(hash, next, max, mask, fuel - 1);
        assert Draw(hash, fed, max, mask, fuel) == res;
        assert res.1[..|fed|] == res.1[..|next|][..|fed|];
        assert (|res.1| - |fed|) % 2 == 0 by {
          assert |res.1| - |fed| == (|res.1| - |next|) + 2;
        }
      } else {
        assert Draw(hash, fed, max, mask, fuel).1 == next;
      }
    }
  }

  /** The outcome of one `rnd_integer(max)` call on a pool that has been fed
      `fed`: 0 at once for `max == 0`, otherwise a masked draw, together with
      the stream the pool holds afterwards. */
  function IntegerDraw(hash: seq<byte> -> Digest, fed: seq<byte>, max: byte, budget: nat)
    : (res: (Option<byte>, seq<byte>))
    ensures res.0.Some? ==> res.0.value <= max
    ensures |fed| <= |res.1| && res.1[..|fed|] == fed
  {
    if max == 0 then (Some(0), fed)
    else
      DrawBounded(hash, fed, max, MaskFor(max), budget);
      DrawFeedsBack(hash, fed, max, MaskFor(max), budget);
      Draw(hash, fed, max, MaskFor(max), budget)
  }

  /** `rnd_container`: the accumulator, with the digest function it uses and
      the number of digests one draw may take in this model. */
  class Pool {
    /** SHA-256 of everything fed so far (finalisation of a copy). */
    const hash: seq<byte> -> Digest
    /** Number of digests `Integer` may draw before this model gives up; the
        firmware loops without bound. */
    const budget: nat
    /** Every byte fed to the accumulator since `Init`. */
    var fed: seq<byte>

    /** `psSha256Init`: an empty accumulator. */
    constructor (hash: seq<byte> -> Digest, budget: nat)
      ensures this.hash == hash && this.budget == budget && fed == []
    {
      this.hash := hash;
      this.budget := budget;
      fed := [];
    }

    /** `rnd_feed`: folds bytes into the accumulator. */
    method Feed(data: seq<byte>)
      requires |data| < 256
      modifies this
      ensures fed == old(fed) + data
    {
      fed := fed + data;
    }

    /** `rnd_feed_from_adc`: feeds each sample as two bytes, low byte first. */
    method FeedFromAdc(samples: seq<AdcSample>)
      requires |samples| < 256
      modifies this
      ensures fed == old(fed) + AdcBytes(samples)
    {
      var i := 0;
      while i < |samples|
        invariant 0 <= i <= |samples|
        invariant fed == old(fed) + AdcBytes(samples[..i])
      {
        assert samples[..i + 1][..i] == samples[..i];
        Feed(LE(samples[i], 2));
        i := i + 1;
      }
      assert samples[..i] == samples;
    }

    /** `rnd_init`: a fresh accumulator fed with 32 analog samples and then
        the first 32 bytes of the EEPROM. */
    method Init(samples: seq<AdcSample>, eeprom: seq<byte>)
      requires |samples| == 32 && |eeprom| >= 32
      modifies this
      ensures fed == AdcBytes(samples) + eeprom[..32]
    {
      fed := [];
      FeedFromAdc(samples);
      Feed(eeprom[..32]);
    }

    /** `rnd_read`: the digest of a finalised copy; its first two bytes are
        then fed back so the next digest differs. */
    method Read() returns (d: Digest)
      modifies this
      ensures d == hash(old(fed))
      ensures fed == old(fed) + d[..2]
    {
      d := hash(fed);
      Feed(d[..2]);
    }

    /** `rnd_integer`: a value in `[0, max]` by masking digest bytes to the bit
        length of `max` and rejecting masked values above `max`, drawing a new
        digest whenever all 32 bytes of one are rejected. */
    method Integer(max: byte) returns (r: Option<byte>)
      modifies this
      ensures max == 0 ==> r == Some(0) && fed == old(fed)
      ensures max > 0 ==> (r, fed) == Draw(hash, old(fed), max, MaskFor(max), budget)
      ensures (r, fed) == IntegerDraw(hash, old(fed), max, budget)
      ensures r.Some? ==> r.value <= max
      ensures |old(fed)| <= |fed| && fed[..|old(fed)|] == old(fed)
    {
      if max == 0 {
        return Some(0);
      }
      var mask := MaskOf(max);
      DrawBounded(hash, fed, max, mask, budget);
      DrawFeedsBack(hash, fed, max, mask, budget);
      var rounds := 0;
      while rounds < budget
        invariant rounds <= budget
        invariant Draw(hash, old(fed), max, mask, budget) == Draw(hash, fed, max, mask, budget - rounds)
      {
        var d := Read();
        r := FirstAcceptable(d, mask, max);
        if r.Some? {
          return;
        }
        rounds := rounds + 1;
      }
      return None;
    }
  }

  /** The mask computation of `rnd_integer`: count the right shifts that
      bring `max` to zero and make a mask with that many one bits. */
  method MaskOf(max: byte) returns (mask: byte)
    ensures mask == MaskFor(max)
  {
    // `m` holds `max >> i`.
    var m: nat, i: nat := max, 0;
    while m != 0
      invariant i + BitLength(m) == BitLength(max)
      decreases m
    {
      m, i := m / 2, i + 1;
    }
    assert Pow2(i) - 1 == MaskFor(max);
    mask := (Pow2(i) - 1) as byte;
  }

  /** The scan of one digest in `rnd_integer`: the masked value of the first
      byte, in index order, whose masked value is at most `max`. */
  method FirstAcceptable(d: Digest, mask: byte, max: byte) returns (r: Option<byte>)
    ensures r == FirstAccepted(d, mask, max)
  {
    var j := 0;
    while j < DigestLength
      invariant j <= DigestLength
      invariant FirstAccepted(d, mask, max) == FirstAccepted(d[j..], mask, max)
    {
      assert d[j..][1..] == d[j + 1..];
      if Masked(d[j], mask) <= max {
        return Some(Masked(d[j], mask));
      }
      j := j + 1;
    }
    return None;
  }

  /** The bytes `rnd_feed_from_adc` feeds for a run of samples. */
  function AdcBytes(samples: seq<AdcSample>): (r: seq<byte>)
    ensures |r| == 2 * |samples|
  {
    if samples == [] then [] else AdcBytes(samples[..|samples| - 1]) + LE(samples[|samples| - 1], 2)
  }
}
