/** The DS18B20 1-Wire driver (therm_ds18b20.c): byte framing over single
    bit slots, the temperature read command sequence and the Search ROM walk
    that enumerates the devices on the wire one discrepancy at a time.

    The line timing is not modelled. The bus is an input oracle `line`, whose
    `t`-th value is what the `t`-th sampling of the line (a presence pulse or a
    read slot) sees, and an output log of the reset pulses, written bits and
    read slots in the order they happen. */
module Therm {
  import opened Bytes

  const CmdConvertTemp: byte := 0x44
  const CmdReadScratchpad: byte := 0xBE
  const CmdSearchRom: byte := 0xF0
  const CmdMatchRom: byte := 0x55
  const CmdSkipRom: byte := 0xCC

  /** Search result when no device answers the reset pulse. */
  const NoPresence: nat := 0xFFFF_FFFF_FFFF_FFFF
  /** Search result when a bit and its complement both read 1. */
  const NoResponse: nat := 0xFFFF_FFFF_FFFF_FFFE

  /** Length of a ROM code in bits. */
  const RomBits: nat := 64

  datatype Event = Reset | Write(b: bit) | Read

  function Writes(bits: seq<bit>): (r: seq<Event>)
    ensures |r| == |bits|
  {
    seq(|bits|, i requires 0 <= i < |bits| => Write(bits[i]))
  }

  function Reads(n: nat): (r: seq<Event>)
    ensures |r| == n
  {
    seq(n, _ => Read)
  }

  /** The slots a byte goes out in: its bits, least significant first. */
  function ByteWrites(x: byte): seq<Event>
  {
    Writes(LsbBits(x, 8))
  }

  /** `n` values of the line from sampling `t` on. */
  function Samples(line: nat -> bit, t: nat, n: nat): (r: seq<bit>)
    ensures |r| == n
  {
    seq(n, i requires 0 <= i < n => line(t + i))
  }

  /** The byte eight read slots from sampling `t` on assemble. */
  function ByteAt(line: nat -> bit, t: nat): (r: byte)
  {
    FromBitsLSBBound(Samples(line, t, 8));
    assert Pow2(8) == 256;
    FromBitsLSB(Samples(line, t, 8))
  }

  /** Where a temperature read that began at sampling `t0` with the log
      `log0` ends, at sampling `t` with the log `log`: the conversion took
      `wait` read slots, the last of them the first to see 1; `temp` is the
      value the sixteen scratchpad read slots carry; and the log holds the
      whole command sequence. */
  ghost predicate TemperatureReadFrom(line: nat -> bit, t0: nat, log0: seq<Event>, t: nat, log: seq<Event>,
                                      id: Option<nat>, wait: nat, temp: int)
  {
    && FirstOneAt(line, t0 + 1, wait)
    && t == t0 + wait + 19
    && temp == TemperatureAt(line, t0 + 1 + wait + 1)
    && log == log0 + ConversionEvents(wait) + QueryEvents(id)
  }

  /** Where the first half of a temperature read ends. */
  ghost predicate Converted(line: nat -> bit, t0: nat, log0: seq<Event>, t: nat, log: seq<Event>, wait: nat)
  {
    && FirstOneAt(line, t0 + 1, wait)
    && t == t0 + 1 + wait
    && log == log0 + ConversionEvents(wait)
  }

  /** Where the second half of a temperature read ends. */
  ghost predicate Queried(line: nat -> bit, t0: nat, log0: seq<Event>, t: nat, log: seq<Event>, id: Option<nat>, temp: int)
  {
    && t == t0 + 18
    && temp == TemperatureAt(line, t0 + 1)
    && log == log0 + QueryEvents(id)
  }

  /** The two halves, one after the other, make a whole temperature read. */
  lemma TemperatureReadSteps(line: nat -> bit, t0: nat, log0: seq<Event>, t1: nat, log1: seq<Event>,
                             t2: nat, log2: seq<Event>, id: Option<nat>, wait: nat, temp: int)
    requires Converted(line, t0, log0, t1, log1, wait)
    requires Queried(line, t1, log1, t2, log2, id, temp)
    ensures TemperatureReadFrom(line, t0, log0, t2, log2, id, wait, temp)
  {
  }

  /** Of `wait` read slots from sampling `t` on, the last is the first to
      see 1. */
  ghost predicate FirstOneAt(line: nat -> bit, t: nat, wait: nat)
  {
    wait >= 1 && line(t + wait - 1) == 1 && forall k :: t <= k < t + wait - 1 ==> line(k) == 0
  }

  /** The raw temperature sixteen read slots from sampling `t` on carry: two
      bytes, low byte first, as a two's-complement 16-bit value. */
  function TemperatureAt(line: nat -> bit, t: nat): (r: int)
    ensures -32768 <= r < 32768
  {
    var lo, hi := ByteAt(line, t), ByteAt(line, t + 8);
    assert lo + 256 * hi < 65536 by {
      assert 256 * hi <= 256 * 255;
    }
    Int16(lo + 256 * hi)
  }

  /** A byte written and read back in the same bit order is the same byte. */
  lemma ByteRoundTrip(x: byte)
    ensures FromBitsLSB(LsbBits(x, 8)) == x
  {
    assert Pow2(8) == 256;
    LsbBitsRoundTrip(x, 8);
  }

  /** The bits a byte is assembled from are the byte's bits, least
      significant first. */
  lemma BitsOfAssembledByte(bits: seq<bit>)
    requires |bits| == 8
    ensures FromBitsLSB(bits) < 256
    ensures LsbBits(FromBitsLSB(bits), 8) == bits
  {
    FromBitsLSBBound(bits);
    assert Pow2(8) == 256;
    BitsRoundTrip(bits);
  }

  /** One step of `therm_read_byte`: shifting the register right and putting
      the new bit on top keeps it equal to the bits so far, least significant
      first, scaled up to the top of the byte. */
  lemma ShiftInStep(got: seq<bit>, b: bit)
    requires |got| < 8
    ensures (FromBitsLSB(got) * Pow2(8 - |got|)) / 2 + 128 * (b as int)
      == FromBitsLSB(got + [b]) * Pow2(7 - |got|)
  {
    var k := |got|;
    var f, g := FromBitsLSB(got), FromBitsLSB(got + [b]);
    var p, q := Pow2(7 - k), Pow2(k);
    Pow2Split(k);
    FromBitsLSBSnoc(got, b);
    ShiftArith(f, b, p, q, Pow2(8 - k), g);
  }

  lemma Pow2Split(k: nat)
    requires k < 8
    ensures Pow2(8 - k) == 2 * Pow2(7 - k)
    ensures Pow2(k) * Pow2(7 - k) == 128
  {
    Pow2Add(k, 7 - k);
    assert Pow2(7) == 128;
  }

  lemma ShiftArith(f: int, b: int, p: int, q: int, p2: int, g: int)
    requires q * p == 128 && p2 == 2 * p && g == f + b * q
    ensures (f * p2) / 2 + 128 * b == g * p
  {
    assert f * p2 == 2 * (f * p);
    assert g * p == f * p + b * (q * p);
  }

  /** The slots of one Search ROM step per chosen bit: the bit, its
      complement, and the chosen bit written back. */
  function SearchEvents(chosen: seq<bit>): (r: seq<Event>)
    ensures |r| == 3 * |chosen|
  {
    if chosen == [] then []
    else SearchEvents(chosen[..|chosen| - 1]) + [Read, Read, Write(chosen[|chosen| - 1])]
  }

  /** The discrepancy mask, bit `k` at index `k`: the search reads and
      updates its bits one position at a time, and its value as a `uint64_t`
      is `FromBitsLSB(mask)`. */
  type Mask = m: seq<bit> | |m| == RomBits witness seq(RomBits, _ => 0)

  /** `mask < L_ONE << k`: no bit at `k` or above is set. With `L_ONE << 64`
      read as 2^64 every mask is below it, and `BelowMeansLess` shows the
      two readings agree for every `k` up to 64. */
  predicate Below(mask: seq<bit>, k: nat)
  {
    forall j :: k <= j < |mask| ==> mask[j] == 0
  }

  lemma {:induction false} AllZero(mask: seq<bit>)
    ensures Below(mask, 0) <==> FromBitsLSB(mask) == 0
  {
    if mask != [] {
      AllZero(mask[1..]);
      if Below(mask, 0) {
        assert Below(mask[1..], 0) by {
          forall j | 0 <= j < |mask[1..]| ensures mask[1..][j] == 0 {
            assert mask[j + 1] == 0;
          }
        }
      } else if FromBitsLSB(mask) == 0 {
        assert mask[0] == 0;
        forall j | 0 <= j < |mask| ensures mask[j] == 0 {
          if j > 0 {
            assert mask[1..][j - 1] == mask[j];
          }
        }
      }
    }
  }

  /** The bit reading of `mask < L_ONE << k` is the numeric one. */
  lemma {:induction false} BelowMeansLess(mask: seq<bit>, k: nat)
    requires k <= |mask|
    ensures Below(mask, k) <==> FromBitsLSB(mask) < Pow2(k)
  {
    if k == 0 {
      AllZero(mask);
    } else {
      var rest := mask[1..];
      BelowMeansLess(rest, k - 1);
      assert Below(mask, k) <==> Below(rest, k - 1) by {
        forall j | k - 1 <= j < |rest| ensures rest[j] == mask[j + 1] { }
        if Below(rest, k - 1) {
          forall j | k <= j < |mask| ensures mask[j] == 0 {
            assert rest[j - 1] == mask[j];
          }
        }
      }
    }
  }

  /** The choice made at one position of the search from the bit and its
      complement as read: the branch to take and the mask afterwards, or None
      when nothing answered. */
  function Decide(normal: bit, complement: bit, mask: Mask, pos: nat): Option<(bit, Mask)>
    requires pos < RomBits
  {
    if normal == 0 && complement == 0 then
      // Devices disagree here.
      if mask[pos] == 1 then
        if Below(mask, pos + 1) then Some((0, mask[pos := 0]))
        else Some((1, mask))
      else if Below(mask, pos) then Some((1, mask[pos := 1]))
      else Some((0, mask))
    else if normal == 1 && complement == 1 then None
    else Some((normal, mask))
  }

  /** Where the devices agree, their bit is taken and the mask is left alone;
      where both bit and complement read 1, nothing answered. */
  lemma DecideAgreed(normal: bit, complement: bit, mask: Mask, pos: nat)
    requires pos < RomBits
    ensures normal != complement ==> Decide(normal, complement, mask, pos) == Some((normal, mask))
    ensures normal == 1 && complement == 1 ==> Decide(normal, complement, mask, pos).None?
  {
  }

  /** At a discrepancy, the decision changes at most the mask's bit at the
      position, and that bit afterwards records the branch taken: 1 while the
      1-branch is still being explored, 0 once the 0-branch is taken. The
      1-branch is taken exactly when the position is a new discrepancy (above
      every set bit) or one whose 1-branch is still open below a higher one. */
  lemma DecideRecordsBranch(mask: Mask, pos: nat)
    requires pos < RomBits
    ensures var d := Decide(0, 0, mask, pos);
      && d.Some?
      && d.value.1[pos] == d.value.0
      && (forall k :: 0 <= k < RomBits && k != pos ==> d.value.1[k] == mask[k])
      && (d.value.0 == 1 <==> (if mask[pos] == 1 then !Below(mask, pos + 1) else Below(mask, pos)))
  {
  }

  /** The outcome of a search walk: whether all 64 positions were decided,
      the id returned, the mask afterwards, the bits chosen and the number of
      line samples taken at the end. */
  datatype Outcome = Outcome(found: bool, id: nat, mask: Mask, chosen: seq<bit>, taken: nat)

  /** The slots a search walk uses after the Search ROM command: one step per
      chosen bit, and two read slots for the position where nothing answered. */
  function WalkEvents(o: Outcome): seq<Event>
  {
    SearchEvents(o.chosen) + if o.found then [] else [Read, Read]
  }

  /** Everything a search that found a device on the wire puts on the bus. */
  function SearchLog(o: Outcome): seq<Event>
  {
    [Reset] + ByteWrites(CmdSearchRom) + WalkEvents(o)
  }

  /** The search from the position after `chosen`, with line samples from `t`
      on: one bit and its complement per position, decided by `Decide`. */
  function Walk(line: nat -> bit, t: nat, mask: Mask, chosen: seq<bit>): Outcome
    requires |chosen| <= RomBits
    decreases RomBits - |chosen|
  {
    if |chosen| == RomBits then Outcome(true, FromBitsLSB(chosen), mask, chosen, t)
    else
      match Decide(line(t), line(t + 1), mask, |chosen|)
      case None => Outcome(false, NoResponse, mask, chosen, t + 2)
      case Some((b, m)) => Walk(line, t + 2, m, chosen + [b])
  }

  /** One position of the walk, given the decision taken there. */
  lemma WalkStep(line: nat -> bit, t: nat, mask: Mask, chosen: seq<bit>, d: Option<(bit, Mask)>)
    requires |chosen| < RomBits
    requires d == Decide(line(t), line(t + 1), mask, |chosen|)
    ensures d.None? ==> Walk(line, t, mask, chosen) == Outcome(false, NoResponse, mask, chosen, t + 2)
    ensures d.Some? ==> Walk(line, t, mask, chosen) == Walk(line, t + 2, d.value.1, chosen + [d.value.0])
  {
  }

  lemma SearchEventsSnoc(chosen: seq<bit>, b: bit)
    ensures SearchEvents(chosen + [b]) == SearchEvents(chosen) + [Read, Read, Write(b)]
  {
    assert (chosen + [b])[..|chosen|] == chosen;
  }

  /** A search that decides every position returns the id whose bits,
      least significant first, are the bits it wrote back to the bus. */
  lemma WalkWritesId(line: nat -> bit, t: nat, mask: Mask, chosen: seq<bit>)
    requires |chosen| <= RomBits
    ensures var o := Walk(line, t, mask, chosen);
      && |chosen| <= |o.chosen| <= RomBits && o.chosen[..|chosen|] == chosen
      && (o.found ==> |o.chosen| == RomBits && o.id < Pow2(RomBits) && LsbBits(o.id, RomBits) == o.chosen)
      && (!o.found ==> o.id == NoResponse)
  {
    var o := Walk(line, t, mask, chosen);
    WalkExtends(line, t, mask, chosen);
    if o.found {
      FromBitsLSBBound(o.chosen);
      BitsRoundTrip(o.chosen);
    }
  }

  /** The walk only appends to the bits chosen so far; when it finds a
      device it has chosen every bit and returns their value. */
  lemma {:induction false} WalkExtends(line: nat -> bit, t: nat, mask: Mask, chosen: seq<bit>)
    requires |chosen| <= RomBits
    ensures var o := Walk(line, t, mask, chosen);
      && |chosen| <= |o.chosen| <= RomBits && o.chosen[..|chosen|] == chosen
      && (o.found ==> |o.chosen| == RomBits && o.id == FromBitsLSB(o.chosen))
      && (!o.found ==> o.id == NoResponse)
    decreases RomBits - |chosen|
  {
    if |chosen| < RomBits {
      match Decide(line(t), line(t + 1), mask, |chosen|)
      case None =>
      case Some((b, m)) =>
        WalkExtends(line, t + 2, m, chosen + [b]);
        var o := Walk(line, t + 2, m, chosen + [b]);
        assert o.chosen[..|chosen|] == o.chosen[..|chosen| + 1][..|chosen|];
    }
  }

  /** The line values a single device with ROM code bits `rom` (least
      significant first) produces during a search: at position `p`, its bit
      and then the complement. */
  ghost predicate SingleDevice(line: nat -> bit, t: nat, rom: seq<bit>)
  {
    forall p :: 0 <= p < |rom| ==> line(t + 2 * p) == rom[p] && line(t + 2 * p + 1) == 1 - rom[p]
  }

  /** With a single device on the wire, the search returns its ROM code and
      leaves the mask as it was. */
  lemma SingleDeviceFound(line: nat -> bit, t: nat, mask: Mask, rom: nat)
    requires rom < Pow2(RomBits) && SingleDevice(line, t, LsbBits(rom, RomBits))
    ensures Walk(line, t, mask, []) == Outcome(true, rom, mask, LsbBits(rom, RomBits), t + 2 * RomBits)
  {
    SingleDeviceFrom(line, t, mask, LsbBits(rom, RomBits), []);
    LsbBitsRoundTrip(rom, RomBits);
  }

  lemma {:induction false} SingleDeviceFrom(line: nat -> bit, t: nat, mask: Mask, rom: seq<bit>, chosen: seq<bit>)
    requires |rom| == RomBits && SingleDevice(line, t, rom)
    requires |chosen| <= RomBits && chosen == rom[..|chosen|]
    ensures Walk(line, t + 2 * |chosen|, mask, chosen)
      == Outcome(true, FromBitsLSB(rom), mask, rom, t + 2 * RomBits)
    decreases RomBits - |chosen|
  {
    var p := |chosen|;
    if p == RomBits {
      assert chosen == rom;
    } else {
      var b := rom[p];
      AgreedStep(line, t + 2 * p, mask, chosen, b);
      assert chosen + [b] == rom[..p + 1];
      SingleDeviceFrom(line, t, mask, rom, chosen + [b]);
    }
  }

  /** A position where the devices agree extends the walk by their bit. */
  lemma AgreedStep(line: nat -> bit, t: nat, mask: Mask, chosen: seq<bit>, b: bit)
    requires |chosen| < RomBits && line(t) == b && line(t + 1) == 1 - b
    ensures Walk(line, t, mask, chosen) == Walk(line, t + 2, mask, chosen + [b])
  {
    DecideAgreed(b, 1 - b, mask, |chosen|);
  }

  /** The slots of the conversion phase of `therm_read_temperature`, after
      the wait has read `wait` slots. */
  function ConversionEvents(wait: nat): seq<Event>
  {
    [Reset] + ByteWrites(CmdSkipRom) + ByteWrites(CmdConvertTemp) + Reads(wait)
  }

  /** The slots of the second half of a temperature read: addressing,
      the sixteen read slots of the first two scratchpad bytes, and the
      closing reset. */
  function QueryEvents(id: Option<nat>): seq<Event>
  {
    SelectEvents(id) + Reads(16) + [Reset]
  }

  /** The slots that address the device(s) and ask for the scratchpad: by
      ROM code when one is given, all devices otherwise. */
  function SelectEvents(id: Option<nat>): seq<Event>
  {
    [Reset] + Addressing(id) + ByteWrites(CmdReadScratchpad)
  }

  /** The ROM command that addresses the device(s). */
  function Addressing(id: Option<nat>): seq<Event>
  {
    match id
    case Some(rom) => ByteWrites(CmdMatchRom) + Writes(LsbBits(rom, RomBits))
    case None => ByteWrites(CmdSkipRom)
  }

  class Bus {
    /** The value the `t`-th sampling of the line sees. */
    const line: nat -> bit
    /** Number of samplings so far. */
    var taken: nat
    /** Everything done on the bus so far. */
    var log: seq<Event>

    constructor (line: nat -> bit)
      ensures this.line == line && taken == 0 && log == []
    {
      this.line := line;
      taken := 0;
      log := [];
    }

    /** Where a temperature read that began at sampling `t0` with the log
        `log0` ends: the conversion took `wait` read slots, the last of them
        the first to see 1; `temp` is the value the sixteen scratchpad read
        slots carry; and the log holds the whole command sequence. */
    ghost predicate TemperatureRead(t0: nat, log0: seq<Event>, id: Option<nat>, wait: nat, temp: int)
      reads this
    {
      TemperatureReadFrom(line, t0, log0, taken, log, id, wait, temp)
    }

    /** Where a search step that began at sampling `t0` with the log `log0`
        and the mask `start` ends: without a presence pulse the result is
        `NoPresence` and the mask is kept; otherwise the result, the mask,
        the samplings and the log are those of the walk. */
    ghost predicate Searched(t0: nat, log0: seq<Event>, start: Mask, id: nat, newMask: Mask)
      reads this
    {
      && (line(t0) != 0 ==>
            id == NoPresence && newMask == start && taken == t0 + 1 && log == log0 + [Reset])
      && (line(t0) == 0 ==>
            var o := Walk(line, t0 + 1, start, []);
            id == o.id && newMask == o.mask && taken == o.taken && log == log0 + SearchLog(o))
    }

    /** `therm_reset`: a reset pulse; the presence sample is 0 when a device
        answered. */
    method ResetPulse() returns (presence: bit)
      modifies this
      ensures presence == line(old(taken)) && taken == old(taken) + 1
      ensures log == old(log) + [Reset]
    {
      presence := line(taken);
      taken := taken + 1;
      log := log + [Reset];
    }

    /** `therm_write_bit` */
    method WriteBit(b: bit)
      modifies this`log
      ensures log == old(log) + [Write(b)]
    {
      log := log + [Write(b)];
    }

    /** `therm_read_bit` */
    method ReadBit() returns (b: bit)
      modifies this
      ensures b == line(old(taken)) && taken == old(taken) + 1
      ensures log == old(log) + [Read]
    {
      b := line(taken);
      taken := taken + 1;
      log := log + [Read];
    }

    /** `therm_read_byte`: eight read slots, the first one the least
        significant bit. */
    method ReadByte() returns (n: byte)
      modifies this
      ensures n == ByteAt(line, old(taken))
      ensures taken == old(taken) + 8 && log == old(log) + Reads(8)
    {
      n := 0;
      ghost var got: seq<bit> := [];
      var i := 0;
      while i < 8
        invariant 0 <= i <= 8 && got == Samples(line, old(taken), i)
        invariant taken == old(taken) + i && log == old(log) + Reads(i)
        invariant n == FromBitsLSB(got) * Pow2(8 - i)
      {
        var b := ReadBit();
        ShiftInStep(got, b);
        // `n >>= 1; n |= bit << 7`: the shift leaves the top bit clear, so
        // the OR adds 128 * bit.
        n := n / 2 + 128 * (b as int);
        assert Samples(line, old(taken), i + 1) == got + [b];
        got := got + [b];
        assert Reads(i + 1) == Reads(i) + [Read];
        i := i + 1;
      }
    }

    /** The low `n` bits of `x`, least significant first, each in its own
        write slot. */
    method WriteLsbFirst(x: nat, n: nat)
      modifies this`log
      ensures log == old(log) + Writes(LsbBits(x, n))
    {
      var rest := x;
      var i := 0;
      while i < n
        invariant 0 <= i <= n
        invariant log == old(log) + Writes(LsbBits(x, n)[..i])
        invariant LsbBits(rest, n - i) == LsbBits(x, n)[i..]
      {
        assert LsbBits(x, n)[i..][0] == rest % 2;
        WriteBit(rest % 2);
        assert Writes(LsbBits(x, n)[..i + 1]) == Writes(LsbBits(x, n)[..i]) + [Write(rest % 2)];
        assert LsbBits(x, n)[i + 1..] == LsbBits(x, n)[i..][1..];
        rest := rest / 2;
        i := i + 1;
      }
      assert LsbBits(x, n)[..n] == LsbBits(x, n);
    }

    /** `therm_write_byte`: eight write slots, least significant bit first. */
    method WriteByte(x: byte)
      modifies this`log
      ensures log == old(log) + ByteWrites(x)
    {
      WriteLsbFirst(x, 8);
    }

    /** `therm_read_temperature`: start a conversion on every device, wait
        until a read slot sees 1, address one device by ROM code (or all),
        and read the first two scratchpad bytes as a signed 16-bit value,
        low byte first. The wait needs a 1 on the line eventually. */
    method ReadTemperature(id: Option<nat>) returns (temp: int, ghost wait: nat)
      requires exists j :: j > taken && line(j) == 1
      modifies this
      ensures TemperatureRead(old(taken), old(log), id, wait, temp)
    {
      ghost var t0, log0 := taken, log;
      wait := Convert();
      ghost var t1, log1 := taken, log;
      temp := Query(id);
      TemperatureReadSteps(line, t0, log0, t1, log1, taken, log, id, wait, temp);
    }

    /** The second half of `therm_read_temperature`: address the device(s),
        read the scratchpad and end with a reset. */
    method Query(id: Option<nat>) returns (temp: int)
      modifies this
      ensures Queried(line, old(taken), old(log), taken, log, id, temp)
    {
      Select(id);
      temp := ReadScratchpad();
      var _ := ResetPulse();
    }

    /** The first two scratchpad bytes, low byte first, as a signed 16-bit
        value. */
    method ReadScratchpad() returns (temp: int)
      modifies this
      ensures taken == old(taken) + 16 && log == old(log) + Reads(16)
      ensures temp == TemperatureAt(line, old(taken))
    {
      var b0 := ReadByte();
      var b1 := ReadByte();
      // `*temp = b0; *temp |= b1 << 8`: the bytes do not overlap, so the OR
      // adds; the result is stored in an `int16_t`.
      temp := Int16(b0 as int + 256 * b1 as int);
      assert Reads(8) + Reads(8) == Reads(16);
    }

    /** The first half of `therm_read_temperature`: reset, Skip ROM, Convert
        T, then read slots until one sees 1 (the conversion is done). */
    method Convert() returns (ghost wait: nat)
      requires exists j :: j > taken && line(j) == 1
      modifies this
      ensures Converted(line, old(taken), old(log), taken, log, wait)
    {
      var _ := ResetPulse();
      WriteByte(CmdSkipRom);
      WriteByte(CmdConvertTemp);
      wait := AwaitConversion();
      Regroup(old(log), [Reset], ByteWrites(CmdSkipRom));
      Regroup(old(log), [Reset] + ByteWrites(CmdSkipRom), ByteWrites(CmdConvertTemp));
      Regroup(old(log), [Reset] + ByteWrites(CmdSkipRom) + ByteWrites(CmdConvertTemp), Reads(wait));
    }

    /** `while(!therm_read_bit());`: read slots until one sees 1. */
    method AwaitConversion() returns (ghost wait: nat)
      requires exists j :: j >= taken && line(j) == 1
      modifies this
      ensures FirstOneAt(line, old(taken), wait)
      ensures taken == old(taken) + wait
      ensures log == old(log) + Reads(wait)
    {
      ghost var j :| j >= taken && line(j) == 1;
      var done := ReadBit();
      wait := 1;
      while done == 0
        invariant taken == old(taken) + wait && old(taken) + wait - 1 <= j
        invariant done == line(old(taken) + wait - 1)
        invariant forall k :: old(taken) <= k < old(taken) + wait - 1 ==> line(k) == 0
        invariant log == old(log) + Reads(wait)
        decreases j - (old(taken) + wait)
      {
        done := ReadBit();
        assert Reads(wait + 1) == Reads(wait) + [Read];
        Regroup(old(log), Reads(wait), [Read]);
        wait := wait + 1;
      }
    }

    /** The second half: reset, then Match ROM with the 64 bits of the id
        (least significant first) or Skip ROM, then Read Scratchpad. */
    method Select(id: Option<nat>)
      modifies this
      ensures taken == old(taken) + 1
      ensures log == old(log) + SelectEvents(id)
    {
      var _ := ResetPulse();
      Address(id);
      WriteByte(CmdReadScratchpad);
      Regroup(old(log), [Reset], Addressing(id));
      Regroup(old(log), [Reset] + Addressing(id), ByteWrites(CmdReadScratchpad));
    }

    /** Match ROM with the 64 bits of the id, least significant first, or
        Skip ROM. */
    method Address(id: Option<nat>)
      modifies this`log
      ensures log == old(log) + Addressing(id)
    {
      match id {
        case Some(rom) =>
          WriteByte(CmdMatchRom);
          WriteLsbFirst(rom, RomBits);
        case None =>
          WriteByte(CmdSkipRom);
      }
    }

    /** `therm_search`: one walk down the ROM tree, taking the 1-branch at
        every new discrepancy and the 0-branch where the mask says the
        1-branch is done; the mask is updated in place. */
    method Search(mask: Mask) returns (id: nat, newMask: Mask)
      modifies this
      ensures Searched(old(taken), old(log), mask, id, newMask)
    {
      var presence := ResetPulse();
      if presence != 0 {
        return NoPresence, mask;
      }
      WriteByte(CmdSearchRom);
      id, newMask := Descend(mask);
      ghost var o := Walk(line, old(taken) + 1, mask, []);
      Regroup(old(log), [Reset], ByteWrites(CmdSearchRom));
      Regroup(old(log), [Reset] + ByteWrites(CmdSearchRom), WalkEvents(o));
    }

    /** One position of `therm_search`: read the bit and its complement and
        decide on them; the walk from here goes on from the decision. */
    method Probe(mask: Mask, position: nat, ghost chosen: seq<bit>) returns (decision: Option<(bit, Mask)>)
      requires position == |chosen| < RomBits
      modifies this
      ensures decision == Decide(line(old(taken)), line(old(taken) + 1), mask, |chosen|)
      ensures decision.None? ==>
        Walk(line, old(taken), mask, chosen) == Outcome(false, NoResponse, mask, chosen, old(taken) + 2)
      ensures decision.Some? ==>
        Walk(line, old(taken), mask, chosen) == Walk(line, old(taken) + 2, decision.value.1, chosen + [decision.value.0])
      ensures taken == old(taken) + 2 && log == old(log) + [Read, Read]
    {
      var normal := ReadBit();
      var complement := ReadBit();
      decision := Decide(normal, complement, mask, position);
      WalkStep(line, old(taken), mask, chosen, decision);
    }

    /** The loop of `therm_search` after the Search ROM command: per position,
        read the bit and its complement, decide, and write the chosen bit
        back, assembling the id from the chosen bits. */
    method Descend(mask: Mask) returns (id: nat, newMask: Mask)
      modifies this
      ensures var o := Walk(line, old(taken), mask, []);
        && id == o.id && newMask == o.mask && taken == o.taken
        && log == old(log) + WalkEvents(o)
    {
      ghost var chosen: seq<bit> := [];
      ghost var whole := Walk(line, taken, mask, chosen);
      newMask := mask;
      var deviceId: nat := 0;
      var position := 0;
      while position < RomBits
        invariant position == |chosen| <= RomBits
        invariant deviceId == FromBitsLSB(chosen)
        invariant whole == Walk(line, taken, newMask, chosen)
        invariant log == old(log) + SearchEvents(chosen)
      {
        var decision := Probe(newMask, position, chosen);
        if decision.None? {
          return NoResponse, newMask;
        }
        var selected: bit;
        selected, newMask := decision.value.0, decision.value.1;
        // `deviceID |= selected << position`: bits from `position` up are
        // still clear, so the OR adds.
        FromBitsLSBSnoc(chosen, selected);
        deviceId := deviceId + selected * Pow2(position);
        WriteBit(selected);
        SearchEventsSnoc(chosen, selected);
        Regroup(old(log) + SearchEvents(chosen), [Read, Read], [Write(selected)]);
        Regroup(old(log), SearchEvents(chosen), [Read, Read, Write(selected)]);
        chosen := chosen + [selected];
        position := position + 1;
      }
      return deviceId, newMask;
    }
  }
}
