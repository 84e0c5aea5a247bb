/** The DHT11 humidity and temperature sensor driver (dht11.c): a start
    handshake, forty bits sent most significant first, each announced by a
    low and a high level and read by sampling the pin once the high level has
    lasted longer than a zero bit would, and an 8-bit checksum over the first
    four bytes.

    The delays are not modelled. The pin is an input oracle `pin`, whose
    `t`-th value is what the `t`-th sampling of the pin sees. */
module Dht {
  import opened Bytes
  import Frame

  /** Bytes in a reading: humidity integral and decimal, temperature
      integral and decimal, checksum. */
  const ReadingBytes: nat := 5
  const ReadingBits: nat := 40
  /** Polls `dht_wait` makes before it gives up. */
  const WaitPolls: nat := 100

  /** Return codes of `dht_read`. */
  const Success: byte := 0
  const NoResponse: byte := 1
  const NoRelease: byte := 2
  const NoStartBit: byte := 3
  const NoRisingEdge: byte := 4
  const BadChecksum: byte := 5

  /** `dht_verify_checksum`: the sum of the first four bytes, stored in a
      `uint8_t`, equals the fifth. */
  predicate ChecksumOk(buf: seq<byte>)
    requires |buf| == ReadingBytes
  {
    (buf[0] as int + buf[1] as int + buf[2] as int + buf[3] as int) % 256 == buf[4]
  }

  /** The sensor's checksum is the bus checksum over a five-byte frame: the
      wrapping sum of the bytes before the last one equals the last one. */
  lemma ChecksumIsBusChecksum(buf: seq<byte>)
    requires |buf| == ReadingBytes
    ensures ChecksumOk(buf) <==> Frame.SumMatches(buf)
  {
    assert buf[..1][..0] == [];
    assert Sum(buf[..1]) == buf[0];
    assert buf[..2][..1] == buf[..1];
    assert Sum(buf[..2]) == Sum(buf[..1]) + buf[1];
    assert buf[..3][..2] == buf[..2];
    assert Sum(buf[..3]) == Sum(buf[..2]) + buf[2];
    assert buf[..4][..3] == buf[..3];
    assert Sum(buf[..4]) == Sum(buf[..3]) + buf[3];
    Sum8IsSumMod(buf[..4]);
  }

  /** The bits of `x` in an `n`-bit register, most significant first. */
  function MsbBits(x: nat, n: nat): (r: seq<bit>)
    ensures |r| == n
  {
    if n == 0 then [] else MsbBits(x / 2, n - 1) + [x % 2]
  }

  /** Shifting bits into a register from the right and reading its bits back
      most significant first gives the bits in the order they came in. */
  lemma {:induction false} MsbBitsRoundTrip(bits: seq<bit>)
    ensures MsbBits(FromBitsMSB(bits), |bits|) == bits
  {
    if bits != [] {
      var init := bits[..|bits| - 1];
      MsbBitsRoundTrip(init);
      assert init + [bits[|bits| - 1]] == bits;
    }
  }

  /** The bits of byte `j` among the bits received so far. */
  function Group(bits: seq<bit>, j: nat): seq<bit>
  {
    bits[Min(8 * j, |bits|)..Min(8 * j + 8, |bits|)]
  }

  /** Byte `j` of the buffer once `bits` have been shifted in: the bits of
      its group, most significant first; zero if none has arrived yet. */
  function Field(bits: seq<bit>, j: nat): (r: byte)
  {
    FitsInByte(Group(bits, j));
    FromBitsMSB(Group(bits, j))
  }

  lemma FitsInByte(g: seq<bit>)
    requires |g| <= 8
    ensures FromBitsMSB(g) < 256
  {
    FromBitsMSBBound(g);
    Pow2Monotone(|g|, 8);
    assert Pow2(8) == 256;
  }

  /** The buffer after zeroing and shifting in `bits`. */
  function Pack(bits: seq<bit>): (r: seq<byte>)
    ensures |r| == ReadingBytes
  {
    [Field(bits, 0), Field(bits, 1), Field(bits, 2), Field(bits, 3), Field(bits, 4)]
  }

  /** Before any bit arrives the buffer is all zero (the `memset`). */
  lemma PackNothing()
    ensures Pack([]) == [0, 0, 0, 0, 0]
  {
    forall j: nat ensures Field([], j) == 0 {
      assert Group([], j) == [];
    }
  }

  /** Shifting one more bit in: `buf[i/8] <<= 1; buf[i/8] |= bit`. The byte
      holds fewer than eight bits before the shift, so the 8-bit shift loses
      nothing and leaves the low bit clear for the new one. */
  lemma PackSnoc(bits: seq<bit>, b: bit)
    requires |bits| < ReadingBits
    ensures var j := |bits| / 8;
      Pack(bits + [b]) == Pack(bits)[j := (Field(bits, j) * 2) % 256 + b]
  {
    var j := |bits| / 8;
    var v := (Field(bits, j) * 2) % 256 + b;
    FieldSnoc(bits, b);
    FieldKept(bits, b, 0);
    FieldKept(bits, b, 1);
    FieldKept(bits, b, 2);
    FieldKept(bits, b, 3);
    FieldKept(bits, b, 4);
    forall k | 0 <= k < ReadingBytes
      ensures Pack(bits + [b])[k] == Pack(bits)[j := v][k]
    {
    }
  }

  /** The byte the new bit goes into. */
  lemma FieldSnoc(bits: seq<bit>, b: bit)
    requires |bits| < ReadingBits
    ensures var j := |bits| / 8;
      Field(bits + [b], j) == (Field(bits, j) * 2) % 256 + b
  {
    var j := |bits| / 8;
    var g := Group(bits, j);
    assert Group(bits + [b], j) == g + [b];
    assert (g + [b])[..|g + [b]| - 1] == g;
    FromBitsMSBBound(g);
    Pow2Monotone(|g|, 7);
    assert Pow2(7) == 128;
  }

  /** Every other byte. */
  lemma FieldKept(bits: seq<bit>, b: bit, k: nat)
    requires |bits| < ReadingBits
    ensures k != |bits| / 8 ==> Field(bits + [b], k) == Field(bits, k)
  {
    var more := bits + [b];
    if k < |bits| / 8 {
      assert more[8 * k..8 * k + 8] == bits[8 * k..8 * k + 8];
      assert Group(more, k) == Group(bits, k);
    } else if k > |bits| / 8 {
      assert Group(more, k) == [] == Group(bits, k);
    }
  }

  /** With all forty bits in, byte `j` holds bits `8j` to `8j + 7`, the first
      of them as its most significant bit. */
  lemma PackMsbFirst(bits: seq<bit>, j: nat)
    requires |bits| == ReadingBits && j < ReadingBytes
    ensures MsbBits(Pack(bits)[j], 8) == bits[8 * j..8 * j + 8]
  {
    assert Pack(bits)[j] == Field(bits, j);
    MsbBitsRoundTrip(Group(bits, j));
  }

  /** How a wait ended: whether it timed out, and the number of samplings
      taken by then. */
  datatype Waited = Waited(timedOut: bool, end: nat)

  /** `dht_wait` from sampling `t` with `n` polls left. */
  function AwaitFrom(pin: nat -> bit, t: nat, requested: bit, n: nat): Waited
    decreases n
  {
    if n == 0 then Waited(true, t)
    else if pin(t) == requested then Waited(false, t + 1)
    else AwaitFrom(pin, t + 1, requested, n - 1)
  }

  /** `dht_wait(requested)` from sampling `t`. */
  function Await(pin: nat -> bit, t: nat, requested: bit): Waited
  {
    AwaitFrom(pin, t, requested, WaitPolls)
  }

  /** The wait succeeds at the first poll that sees the requested level,
      having seen the other level at every poll before it, and times out
      after `n` polls that all saw the other level. */
  lemma {:induction false} AwaitMeans(pin: nat -> bit, t: nat, requested: bit, n: nat)
    ensures var w := AwaitFrom(pin, t, requested, n);
      var timedOut, e := w.timedOut, w.end;
      && t <= e <= t + n
      && (!timedOut ==>
            t < e && pin(e - 1) == requested && forall k :: t <= k < e - 1 ==> pin(k) != requested)
      && (timedOut ==> e == t + n && forall k :: t <= k < t + n ==> pin(k) != requested)
    decreases n
  {
    if n > 0 && pin(t) != requested {
      AwaitMeans(pin, t + 1, requested, n - 1);
    }
  }

  /** What a read produced: the return code, the bits received and the
      number of samplings taken by the end. */
  datatype Reception = Reception(code: byte, bits: seq<bit>, end: nat)

  /** How one round of the bit loop ended: with a return code, or with a
      bit sampled and the sampling count after it. */
  datatype Round = Stopped(code: byte, end: nat) | Got(b: bit, next: nat)

  /** One round of the bit loop from sampling `t`: wait for low (the start
      bit), wait for high, then sample. */
  function BitRound(pin: nat -> bit, t: nat): Round
  {
    var low := Await(pin, t, 0);
    if low.timedOut then Stopped(NoStartBit, low.end)
    else
      var high := Await(pin, low.end, 1);
      if high.timedOut then Stopped(NoRisingEdge, high.end)
      else Got(pin(high.end), high.end + 1)
  }

  /** The bit loop of `dht_read` from sampling `t`, with `bits` received so
      far. */
  function Receive(pin: nat -> bit, t: nat, bits: seq<bit>): Reception
    requires |bits| <= ReadingBits
    decreases ReadingBits - |bits|
  {
    if |bits| == ReadingBits then Reception(Success, bits, t)
    else
      match BitRound(pin, t)
      case Stopped(code, end) => Reception(code, bits, end)
      case Got(b, next) => Receive(pin, next, bits + [b])
  }

  /** `dht_read` from sampling `t`: the sensor must pull the line low, then
      release it, then send forty bits whose checksum must match. */
  function Exchange(pin: nat -> bit, t: nat): Reception
  {
    if pin(t) != 0 then Reception(NoResponse, [], t + 1)
    else
      var released := Await(pin, t + 1, 1);
      if released.timedOut then Reception(NoRelease, [], released.end)
      else
        var rx := Receive(pin, released.end, []);
        if rx.code == Success && !ChecksumOk(Pack(rx.bits)) then rx.(code := BadChecksum)
        else rx
  }

  /** The bit loop extends the bits received; it ends with code 0 exactly
      when all forty bits arrived, and with 3 or 4 otherwise. */
  lemma {:induction false} ReceiveCodes(pin: nat -> bit, t: nat, bits: seq<bit>)
    requires |bits| <= ReadingBits
    ensures var rx := Receive(pin, t, bits);
      && |bits| <= |rx.bits| <= ReadingBits && rx.bits[..|bits|] == bits
      && (rx.code == Success <==> |rx.bits| == ReadingBits)
      && (rx.code == Success || rx.code == NoStartBit || rx.code == NoRisingEdge)
    decreases ReadingBits - |bits|
  {
    if |bits| < ReadingBits {
      match BitRound(pin, t)
      case Stopped(_, _) =>
      case Got(b, next) =>
        var more := bits + [b];
        ReceiveCodes(pin, next, more);
        var rx := Receive(pin, next, more);
        assert rx.bits[..|bits|] == rx.bits[..|more|][..|bits|];
    }
  }

  /** The return codes of `dht_read` and what each says about the buffer:
      0 and 5 follow a complete reception whose checksum matches or does not,
      3 and 4 an incomplete one, and 1 and 2 leave the buffer zeroed. */
  lemma ExchangeCodes(pin: nat -> bit, t: nat)
    ensures var rx := Exchange(pin, t);
      && rx.code <= BadChecksum && |rx.bits| <= ReadingBits
      && (rx.code == Success ==> |rx.bits| == ReadingBits && ChecksumOk(Pack(rx.bits)))
      && (rx.code == BadChecksum ==> |rx.bits| == ReadingBits && !ChecksumOk(Pack(rx.bits)))
      && (rx.code == NoStartBit || rx.code == NoRisingEdge ==> |rx.bits| < ReadingBits)
      && (rx.code == NoResponse || rx.code == NoRelease ==> Pack(rx.bits) == [0, 0, 0, 0, 0])
  {
    PackNothing();
    if pin(t) == 0 {
      var released := Await(pin, t + 1, 1);
      if !released.timedOut {
        ReceiveCodes(pin, released.end, []);
      }
    }
  }

  /** The line of a sensor that sends `bits` correctly from sampling `t`:
      low at the presence check, high at the release, and per bit a low
      level, a high level, and the bit at the sampling after it. */
  ghost predicate Sends(pin: nat -> bit, t: nat, bits: seq<bit>)
  {
    && pin(t) == 0 && pin(t + 1) == 1
    && forall i :: 0 <= i < |bits| ==>
         pin(t + 2 + 3 * i) == 0 && pin(t + 3 + 3 * i) == 1 && pin(t + 4 + 3 * i) == bits[i]
  }

  /** A sensor that sends forty bits correctly is read in full: the buffer
      holds its bits, and the code is 0 or 5 as the checksum says. */
  lemma ReadsWhatIsSent(pin: nat -> bit, t: nat, bits: seq<bit>)
    requires |bits| == ReadingBits && Sends(pin, t, bits)
    ensures Exchange(pin, t).bits == bits
    ensures Exchange(pin, t).code == if ChecksumOk(Pack(bits)) then Success else BadChecksum
    ensures Exchange(pin, t).end == t + 2 + 3 * ReadingBits
  {
    assert Await(pin, t + 1, 1) == Waited(false, t + 2);
    ReceiveSent(pin, t, bits, []);
  }

  lemma {:induction false} ReceiveSent(pin: nat -> bit, t: nat, bits: seq<bit>, got: seq<bit>)
    requires |bits| == ReadingBits && Sends(pin, t, bits)
    requires |got| <= ReadingBits && got == bits[..|got|]
    ensures Receive(pin, t + 2 + 3 * |got|, got) == Reception(Success, bits, t + 2 + 3 * ReadingBits)
    decreases ReadingBits - |got|
  {
    var i := |got|;
    if i == ReadingBits {
      assert got == bits;
    } else {
      var s := t + 2 + 3 * i;
      assert pin(s) == 0 && pin(s + 1) == 1 && pin(s + 2) == bits[i];
      var more := got + [bits[i]];
      assert more == bits[..i + 1];
      assert Await(pin, s, 0) == Waited(false, s + 1);
      assert Await(pin, s + 1, 1) == Waited(false, s + 2);
      assert BitRound(pin, s) == Got(bits[i], s + 3);
      ReceiveSent(pin, t, bits, more);
      assert t + 2 + 3 * |more| == s + 3;
    }
  }

  class Sensor {
    /** The level the `t`-th sampling of the data pin sees. */
    const pin: nat -> bit
    /** Number of samplings so far. */
    var polls: nat

    constructor (pin: nat -> bit)
      ensures this.pin == pin && polls == 0
    {
      this.pin := pin;
      polls := 0;
    }

    /** `dht_pin()`: one sampling of the data pin. */
    method Sample() returns (b: bit)
      modifies this`polls
      ensures b == pin(old(polls)) && polls == old(polls) + 1
    {
      b := pin(polls);
      polls := polls + 1;
    }

    /** `dht_wait`: poll up to 100 times for the requested level; 0 when it
        was seen, 1 on timeout. */
    method Wait(requested: bit) returns (timeout: byte)
      modifies this`polls
      ensures timeout <= 1
      ensures Await(pin, old(polls), requested) == Waited(timeout == 1, polls)
    {
      var wait := WaitPolls;
      while wait > 0
        invariant AwaitFrom(pin, polls, requested, wait) == Await(pin, old(polls), requested)
      {
        var level := Sample();
        if level == requested {
          return 0;
        }
        wait := wait - 1;
      }
      return 1;
    }

    /** `dht_read`: zero the buffer, check the sensor's response, then shift
        the forty bits into `buf[i/8]` and check the checksum. */
    method Read(buf: array<byte>) returns (code: byte)
      requires buf.Length == ReadingBytes
      modifies this`polls, buf
      ensures var rx := Exchange(pin, old(polls));
        code == rx.code && polls == rx.end && buf[..] == Pack(rx.bits)
    {
      forall i | 0 <= i < buf.Length {
        buf[i] := 0;
      }
      PackNothing();
      assert buf[..] == Pack([]);
      var first := Sample();
      if first != 0 {
        return NoResponse;
      }
      var timeout := Wait(1);
      if timeout == 1 {
        return NoRelease;
      }
      code := ReceiveBits(buf);
      if code != Success {
        return;
      }
      if !ChecksumOk(buf[..]) {
        return BadChecksum;
      }
      return Success;
    }

    /** The bit loop of `dht_read`: per bit, wait for the start bit (low),
        wait for the rising edge, then sample and shift into `buf[i/8]`. */
    method ReceiveBits(buf: array<byte>) returns (code: byte)
      requires buf.Length == ReadingBytes && buf[..] == Pack([])
      modifies this`polls, buf
      ensures var rx := Receive(pin, old(polls), []);
        code == rx.code && polls == rx.end && buf[..] == Pack(rx.bits)
    {
      ghost var got: seq<bit> := [];
      var i := 0;
      while i < ReadingBits
        invariant i == |got| <= ReadingBits
        invariant buf[..] == Pack(got)
        invariant Receive(pin, polls, got) == Receive(pin, old(polls), [])
      {
        var b: bit;
        code, b := ReceiveBit(buf, i, got);
        if code != Success {
          return;
        }
        got := got + [b];
        i := i + 1;
      }
      return Success;
    }

    /** One round of the bit loop: the start bit, the rising edge, and the
        sample shifted into the buffer. */
    method ReceiveBit(buf: array<byte>, i: nat, ghost got: seq<bit>) returns (code: byte, b: bit)
      requires buf.Length == ReadingBytes && i == |got| < ReadingBits && buf[..] == Pack(got)
      modifies this`polls, buf
      ensures code == Success ==>
        BitRound(pin, old(polls)) == Got(b, polls) && buf[..] == Pack(got + [b])
      ensures code != Success ==>
        BitRound(pin, old(polls)) == Stopped(code, polls) && buf[..] == Pack(got)
    {
      var timeout := Wait(0);
      if timeout == 1 {
        return NoStartBit, 0;
      }
      timeout := Wait(1);
      if timeout == 1 {
        return NoRisingEdge, 0;
      }
      b := Sample();
      ShiftIn(buf, i, b, got);
      code := Success;
    }

    /** `buf[i/8] <<= 1; buf[i/8] |= bit`. */
    static method ShiftIn(buf: array<byte>, i: nat, b: bit, ghost got: seq<bit>)
      requires buf.Length == ReadingBytes && i == |got| < ReadingBits && buf[..] == Pack(got)
      modifies buf
      ensures buf[..] == Pack(got + [b])
    {
      PackSnoc(got, b);
      // `<<=` on a `uint8_t`, then `|=` into the low bit it cleared.
      buf[i / 8] := (buf[i / 8] * 2) % 256 + b;
    }
  }
}
