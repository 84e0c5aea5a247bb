/** The protocol engine of a unit on the bus (bull.c): it checks each
    complete frame, snoops on search replies meant for other units, and
    answers reads and writes of its parameters with reply frames sent
    through `uart_putc`.

    The process-wide state is one object, `Unit`: the unit's address, the
    flag that suppresses replies to broadcasts, the EEPROM contents, the
    clock, the 1-Wire search registers and the log of every byte sent. The
    slot table (search.c), the entropy pool (random.c) and the 1-Wire bus
    (therm_ds18b20.c) are the objects modelled beside it. */
module Node {
  import opened Bytes
  import opened Frame
  import Search
  import Random
  import Therm

  const ParamAddress: byte := 0x01
  const ParamName: byte := 0x02
  const ParamListen: byte := 0x03
  const ParamProgram: byte := 0x04
  const ParamTime: byte := 0x05
  const ParamVersion: byte := 0x06
  const ParamPixels: byte := 0x07
  const ParamSearch: byte := 0x08
  const ParamWireReset: byte := 0x20
  const ParamWireSearch: byte := 0x21
  const ParamTemperature: byte := 0x22
  const ParamWireBit: byte := 0x23

  /** The name is stored in EEPROM from offset 1, at most 15 bytes. */
  const NameLength: nat := 15

  /** Lowest EEPROM offset beyond everything the engine reads or writes. */
  const EepromUsed: nat := 0x30

  const OkText: seq<byte> := Ascii("OK")
  const InvalidParameter: seq<byte> := Ascii("Invalid parameter")
  const BadChecksum: seq<byte> := Ascii("Bad checksum")
  const UnhandledCommand: seq<byte> := Ascii("Unhandled command")
  const InvalidLength: seq<byte> := Ascii("Invalid length")
  const ProgrammingModeFailed: seq<byte> := Ascii("Failed programming mode")
  const LengthMultipleOfThree: seq<byte> := Ascii("Length must be a multiple of three")

  /** `therm.discrepancy_mask = 0` */
  function ClearMask(): Therm.Mask
  {
    seq(Therm.RomBits, _ => 0)
  }

  /** Parameters 0x10-0x1F are bytes kept in EEPROM. */
  predicate IsEepromParam(param: byte)
  {
    0x10 <= param < 0x20
  }

  /** Where a read of an EEPROM parameter looks. */
  function EepromReadOffset(param: byte): nat
  {
    0x10 + param
  }

  /** Where a write of an EEPROM parameter stores. */
  function EepromWriteOffset(param: byte): nat
    requires IsEepromParam(param)
  {
    param - 0x10 + 1
  }

  /** Reads of EEPROM parameters look at offsets 0x20-0x2F, while writes
      store at 0x01-0x10, over the name: a value written is not the value
      read back. */
  lemma EepromOffsetsDisagree(param: byte)
    requires IsEepromParam(param)
    ensures 0x20 <= EepromReadOffset(param) < EepromUsed
    ensures 1 <= EepromWriteOffset(param) <= 0x10
    ensures EepromReadOffset(param) != EepromWriteOffset(param)
  {
  }

  /** What a reply builder sends: nothing while replies are inhibited, and
      otherwise one frame from `address` that is complete, carries a
      matching checksum and reads back as the fields it was built from. */
  function Emit(inhibit: bool, address: byte, command: byte, param: byte, payload: seq<byte>): (r: seq<byte>)
    requires |payload| < 256
    ensures inhibit <==> r == []
    ensures !inhibit ==>
      && IsBull(r) && SumMatches(r) && |r| == |payload| + 5
      && r[0] == address && r[1] == command && r[2] == param && r[4..|r| - 1] == payload
  {
    FrameWellFormed(address, command, param, payload);
    if inhibit then [] else Frame.Frame(address, command, param, payload)
  }

  /** The frame is addressed to this unit or to everyone. */
  predicate ForUs(data: seq<byte>, address: byte)
    requires |data| >= 1
  {
    data[0] == address || data[0] == Broadcast
  }

  /** A six-byte read reply of parameter 0x08: another unit answering a
      search poll with the slot it announces. */
  predicate SearchReply(data: seq<byte>)
    requires IsBull(data)
  {
    data[1] == CmdRead && data[2] == ParamSearch && |data| == 6
  }

  /** The frame's payload, as far as its length field reaches. */
  function Payload(data: seq<byte>): (r: seq<byte>)
    requires IsBull(data)
    ensures |r| == data[3] && |r| < 256
  {
    data[4..4 + data[3]]
  }

  /** The two requests that make a unit answer even a broadcast: a search
      poll of its own selected slot, and a listen order naming its address
      or everyone. */
  predicate ClearsInhibit(data: seq<byte>, address: byte, selected: byte)
    requires IsBull(data)
  {
    && data[3] == 1
    && ((data[1] == CmdRead && data[2] == ParamSearch && data[4] == selected)
        || (data[1] == CmdWrite && data[2] == ParamListen && (data[4] == address || data[4] == Broadcast)))
  }

  /** A request that may draw from the entropy pool: a search poll or the
      start of a search round, each with a one-byte payload. */
  predicate MayDraw(data: seq<byte>)
    requires IsBull(data)
  {
    data[2] == ParamSearch && data[3] == 1 && (data[1] == CmdRead || data[1] == CmdWrite)
  }

  /** `therm_write_bit(x)` leaves the line high for any nonzero `x`. */
  function Level(x: byte): bit
  {
    if x != 0 then 1 else 0
  }

  /** The bit parameter 0x23 writes: the first payload byte's level. */
  function LevelOf(payload: seq<byte>): bit
  {
    if payload == [] then 0 else Level(payload[0])
  }

  /** A write that changes the EEPROM or the clock: the name, the time with
      four bytes, an EEPROM parameter with one. */
  predicate Stores(param: byte, length: nat)
  {
    param == ParamName || (param == ParamTime && length == 4) || (IsEepromParam(param) && length == 1)
  }

  /** The mask a 1-Wire search step starts from: cleared when the payload
      is one nonzero byte. */
  function SearchStart(payload: seq<byte>, mask: Therm.Mask): Therm.Mask
  {
    if |payload| == 1 && payload[0] != 0 then ClearMask() else mask
  }

  lemma Sum8Snoc(s: seq<byte>, x: byte)
    ensures Sum8(s + [x]) == (Sum8(s) + x) % 256
  {
    assert (s + [x])[..|s|] == s;
  }

  /** One more byte sent and summed. */
  lemma SummedStep(out: seq<byte>, sent: seq<byte>, bytes: seq<byte>, i: nat)
    requires i < |bytes|
    ensures out + bytes[..i] + [bytes[i]] == out + bytes[..i + 1]
    ensures (Sum8(sent + bytes[..i]) + bytes[i]) % 256 == Sum8(sent + bytes[..i + 1])
  {
    assert bytes[..i + 1] == bytes[..i] + [bytes[i]];
    Regroup(sent, bytes[..i], [bytes[i]]);
    Regroup(out, bytes[..i], [bytes[i]]);
    Sum8Snoc(sent + bytes[..i], bytes[i]);
  }

  /** The values a request may change: the registers, the bytes sent so far,
      the slot table and the bus. */
  datatype State = State(
    address: byte, eeprom: seq<byte>, time: nat, deviceId: nat, mask: Therm.Mask, out: seq<byte>,
    selected: byte, next: byte, nrSlots: byte, table: array<byte>, used: seq<byte>,
    taken: nat, log: seq<Therm.Event>)

  /** The reply to a read of a parameter that is a plain register; None
      for the other parameters. */
  function Register(s: State, version: seq<byte>, param: byte): (r: Option<seq<byte>>)
    requires |s.eeprom| >= EepromUsed && |version| < 256
    ensures r.Some? ==> |r.value| < 256
    ensures r.Some? <==>
      param in {ParamAddress, ParamName, ParamTime, ParamVersion, ParamWireSearch} || IsEepromParam(param)
  {
    if param == ParamAddress then Some([s.address])
    else if param == ParamName then Some(s.eeprom[1..1 + NameLength])
    else if param == ParamTime then Some(LE(s.time, 4))
    else if param == ParamVersion then Some(version)
    else if IsEepromParam(param) then Some([s.eeprom[EepromReadOffset(param)]])
    else if param == ParamWireSearch then Some(LE(s.deviceId, 8))
    else None
  }

  /** The address, EEPROM, clock and 1-Wire search registers are kept. */
  predicate RegistersKept(s: State, t: State)
  {
    t.address == s.address && t.eeprom == s.eeprom && t.time == s.time && t.deviceId == s.deviceId && t.mask == s.mask
  }

  /** The slot table is kept. */
  predicate SlotsKept(s: State, t: State)
  {
    && t.selected == s.selected && t.next == s.next && t.nrSlots == s.nrSlots
    && t.table == s.table && t.used == s.used
  }

  /** Nothing happened on the bus. */
  predicate BusKept(s: State, t: State)
  {
    t.taken == s.taken && t.log == s.log
  }

  /** The outcome `t` of a read of `param` with `payload` from `s`, when
      replies were inhibited (`quiet`) as it began; the pool's stream went
      from `fed` to `fed'`. */
  predicate ReadDone(s: State, t: State, version: seq<byte>, param: byte, payload: seq<byte>, quiet: bool,
                     pool: Random.Pool, fed: seq<byte>, fed': seq<byte>)
    requires |t.eeprom| >= EepromUsed && |version| < 256
  {
    if param == ParamSearch then SlotPolled(s, t, payload, quiet, pool, fed, fed')
    else if param == ParamTemperature || param == ParamWireBit then WireUsed(s, t, quiet)
    else RegisterRead(s, t, version, param, quiet)
  }

  /** A read of a register: its value, or a refusal of the parameter, is
      the reply, and nothing else changes. */
  predicate RegisterRead(s: State, t: State, version: seq<byte>, param: byte, quiet: bool)
    requires |t.eeprom| >= EepromUsed && |version| < 256
  {
    && t.out == s.out + (match Register(t, version, param)
                         case Some(v) => Emit(quiet, t.address, CmdRead, param, v)
                         case None => Emit(quiet, t.address, CmdError, param, InvalidParameter))
    && RegistersKept(s, t) && SlotsKept(s, t) && BusKept(s, t)
  }

  /** A search poll (read of 0x08): with a one-byte payload, a broadcast
      poll of this unit's selected slot draws the next slot from the pool
      (`srch_select_next_slot` on the recorded slots) and announces it, a
      broadcast poll of another slot does nothing, and a poll addressed to
      this unit means another unit with the same address answered, so its
      slot is recorded. Any other length does nothing. Only the draw feeds
      the pool, whose stream goes from `fed` to `fed'`. */
  predicate SlotPolled(s: State, t: State, payload: seq<byte>, quiet: bool,
                       pool: Random.Pool, fed: seq<byte>, fed': seq<byte>)
  {
    && RegistersKept(s, t) && BusKept(s, t)
    && if |payload| != 1 then
         t.out == s.out && SlotsKept(s, t) && fed' == fed
       else if !quiet then
         && t.out == s.out && fed' == fed
         && t.selected == s.selected && t.next == s.next && t.nrSlots == s.nrSlots
         && t.table == s.table && t.used == Search.AddSlot(s.used, payload[0])
       else if payload[0] == s.selected then
         && t.table == s.table && t.used == s.used && t.selected == s.selected && t.nrSlots == s.nrSlots
         && (t.next, fed') == Search.Select(pool.hash, pool.budget, fed, s.nrSlots, Search.UsedPrefix(s.used), Search.MaxDraws)
         && (t.next != 0 ==> t.next !in Search.UsedPrefix(t.used))
         && (t.nrSlots >= 1 ==> t.next <= t.nrSlots)
         && t.out == s.out + Emit(false, t.address, CmdRead, ParamSearch, [t.next])
       else
         t.out == s.out && SlotsKept(s, t) && fed' == fed
  }

  /** A 1-Wire request (0x20-0x23): the address, EEPROM, clock and slot
      table are kept, and nothing is sent while replies are inhibited. */
  predicate WireUsed(s: State, t: State, quiet: bool)
  {
    && t.address == s.address && t.eeprom == s.eeprom && t.time == s.time
    && SlotsKept(s, t) && (quiet ==> t.out == s.out)
  }

  /** Two 1-Wire steps make one. */
  lemma WireUsedTwice(s: State, t: State, u: State, quiet: bool)
    requires t.address == s.address && t.eeprom == s.eeprom && t.time == s.time
    requires SlotsKept(s, t) && t.out == s.out
    requires WireUsed(t, u, quiet)
    ensures WireUsed(s, u, quiet)
  {
  }

  /** The outcome `t` of a write of `param` with `payload` from `s`, when
      replies were inhibited (`quiet`) as it began; the pool's stream went
      from `fed` to `fed'`. */
  predicate WriteDone(s: State, t: State, param: byte, payload: seq<byte>, quiet: bool,
                      pool: Random.Pool, fed: seq<byte>, fed': seq<byte>)
    requires |s.eeprom| >= EepromUsed && |payload| < 256
  {
    if param == ParamAddress then AddressWritten(s, t, payload, quiet)
    else if param == ParamSearch then SearchStarted(s, t, payload, quiet, pool, fed, fed')
    else if param == ParamWireReset || param == ParamWireSearch || param == ParamWireBit then WireUsed(s, t, quiet)
    else if param == ParamListen then
      && RegistersKept(s, t) && SlotsKept(s, t) && BusKept(s, t)
      && if |payload| == 1 && (payload[0] == s.address || payload[0] == Broadcast) then
           t.out == s.out + Emit(false, t.address, CmdWrite, param, [])
         else
           t.out == s.out
    else
      && t.address == s.address && t.deviceId == s.deviceId && t.mask == s.mask
      && SlotsKept(s, t) && BusKept(s, t)
      && (!Stores(param, |payload|) ==> t.eeprom == s.eeprom && t.time == s.time)
      && if param == ParamName then
           var n := Min(|payload|, NameLength);
           && t.eeprom == s.eeprom[..1] + payload[..n] + s.eeprom[1 + n..]
           && t.out == s.out && t.time == s.time
         else if param == ParamProgram then
           t.out == s.out + Emit(quiet, t.address, CmdError, param, ProgrammingModeFailed)
         else if param == ParamTime then
           if |payload| == 4 then
             && t.time == FromLE(payload) && t.eeprom == s.eeprom
             && t.out == s.out + Emit(quiet, t.address, CmdWrite, param, [])
           else
             t.out == s.out + Emit(quiet, t.address, CmdError, param, InvalidLength)
         else if param == ParamPixels then
           if |payload| == 0 || |payload| % 3 != 0 then
             t.out == s.out + Emit(quiet, t.address, CmdError, param, LengthMultipleOfThree)
           else
             t.out == s.out + Emit(quiet, t.address, CmdWrite, param, OkText)
         else if IsEepromParam(param) then
           if |payload| == 1 then
             && t.eeprom == s.eeprom[EepromWriteOffset(param) := payload[0]] && t.time == s.time
             && t.out == s.out + Emit(quiet, t.address, CmdWrite, param, [])
           else
             t.out == s.out + Emit(quiet, t.address, CmdError, param, InvalidLength)
         else
           t.out == s.out + Emit(quiet, t.address, CmdError, param, InvalidParameter)
  }

  /** A write of the address (0x01): with two payload bytes it is taken only
      when the second names the slot this unit announced, and otherwise
      ignored without reply; with one byte it is taken; any other length
      is refused. A taken address is stored at EEPROM offset 0 and
      acknowledged from the new address. */
  predicate AddressWritten(s: State, t: State, payload: seq<byte>, quiet: bool)
    requires |s.eeprom| >= 1
  {
    && t.time == s.time && t.deviceId == s.deviceId && t.mask == s.mask
    && SlotsKept(s, t) && BusKept(s, t)
    && if (|payload| == 2 && payload[1] == s.next) || |payload| == 1 then
         && t.address == payload[0] && t.eeprom == s.eeprom[0 := payload[0]]
         && t.out == s.out + Emit(quiet, payload[0], CmdWrite, ParamAddress, [])
       else
         && t.address == s.address && t.eeprom == s.eeprom
         && t.out == s.out + if |payload| == 2 then [] else Emit(quiet, s.address, CmdError, ParamAddress, InvalidLength)
  }

  /** The start of a search round (write of 0x08): with a one-byte payload
      the table is cleared, the round gets that many slots, and the
      announced slot is kept when it lies in the round (the pool is left
      alone) and is drawn from the pool over an empty table otherwise; it
      becomes the selected one. Any other length is refused and nothing
      changes. The pool's stream goes from `fed` to `fed'`. */
  predicate SearchStarted(s: State, t: State, payload: seq<byte>, quiet: bool,
                          pool: Random.Pool, fed: seq<byte>, fed': seq<byte>)
  {
    && RegistersKept(s, t) && BusKept(s, t)
    && if |payload| == 1 then
         && t.table == s.table && t.used == seq(Search.MaxSlots, _ => 0)
         && Search.UsedPrefix(t.used) == [] && t.nrSlots == payload[0] && t.selected == t.next
         && (1 <= s.next <= payload[0] ==> t.next == s.next && fed' == fed)
         && (!(1 <= s.next <= payload[0]) ==>
               (t.next, fed') == Search.Select(pool.hash, pool.budget, fed, payload[0], [], Search.MaxDraws))
         && (payload[0] >= 1 ==> t.next <= payload[0])
         && t.out == s.out + Emit(quiet, t.address, CmdWrite, ParamSearch, [])
       else
         && SlotsKept(s, t) && fed' == fed
         && t.out == s.out + Emit(quiet, t.address, CmdError, ParamSearch, InvalidLength)
  }

  class Unit {
    /** The address-arbitration slot table (search.c). */
    const slots: Search.SlotTable
    /** The entropy pool (random.c). */
    const pool: Random.Pool
    /** The 1-Wire bus (therm_ds18b20.c). */
    const bus: Therm.Bus
    /** The bytes `version_length`/`version_char` describe. */
    const version: seq<byte>
    /** `address` */
    var address: byte
    /** `bull_inhibit_response` */
    var inhibit: bool
    /** The EEPROM contents. */
    var eeprom: seq<byte>
    /** `time_s` */
    var time: nat
    /** `therm.device_id` */
    var deviceId: nat
    /** `therm.discrepancy_mask` */
    var mask: Therm.Mask
    /** Every byte sent with `uart_putc`. */
    var out: seq<byte>

    ghost predicate Valid()
      reads this, slots, slots.used
    {
      slots.Valid() && |eeprom| >= EepromUsed && |version| < 256
    }

    /** The globals at power-on, zero-initialised. */
    constructor (slots: Search.SlotTable, pool: Random.Pool, bus: Therm.Bus, version: seq<byte>, eeprom: seq<byte>)
      requires slots.Valid() && |eeprom| >= EepromUsed && |version| < 256
      ensures Valid()
      ensures this.slots == slots && this.pool == pool && this.bus == bus && this.version == version
      ensures this.eeprom == eeprom && address == 0 && !inhibit && time == 0
      ensures deviceId == 0 && mask == ClearMask() && out == []
    {
      this.slots := slots;
      this.pool := pool;
      this.bus := bus;
      this.version := version;
      this.eeprom := eeprom;
      address := 0;
      inhibit := false;
      time := 0;
      deviceId := 0;
      mask := ClearMask();
      out := [];
    }

    /** `bull_init`: the address stored at EEPROM offset 0, where a cleared
        EEPROM (0xFF) means address 0. */
    method Init()
      requires Valid()
      modifies this`address
      ensures address == if eeprom[0] == 0xFF then 0 else eeprom[0]
    {
      address := eeprom[0];
      if address == 0xFF {
        address := 0;
      }
    }

    /** A temperature conversion started now ends: some later read slot
        sees 1. */
    ghost predicate ConversionEnds()
      reads this, bus
    {
      exists j :: j > bus.taken && bus.line(j) == 1
    }

    /** The values a request may change, now. */
    ghost function Now(): State
      reads this`address, this`eeprom, this`time, this`deviceId, this`mask, this`out, slots, slots.used, bus
    {
      State(address, eeprom, time, deviceId, mask, out,
             slots.selected, slots.next, slots.nrSlots, slots.used, slots.used[..], bus.taken, bus.log)
    }

    /** `uart_putc` */
    method Put(c: byte)
      modifies this`out
      ensures out == old(out) + [c]
    {
      out := out + [c];
    }

    /** The first four bytes of a reply, summed as they go out. */
    method PutHeader(command: byte, param: byte, length: byte) returns (sum: byte)
      modifies this`out
      ensures out == old(out) + [address, command, param, length]
      ensures sum == Sum8([address, command, param, length])
    {
      sum := 0;
      Put(address);
      sum := (sum + address) % 256;
      assert sum == Sum8([address]) by {
        assert [address][..0] == [];
      }
      Put(command);
      sum := (sum + command) % 256;
      assert sum == Sum8([address, command]) by {
        assert [address, command][..1] == [address];
      }
      Put(param);
      sum := (sum + param) % 256;
      assert sum == Sum8([address, command, param]) by {
        assert [address, command, param][..2] == [address, command];
      }
      Put(length);
      sum := (sum + length) % 256;
      assert sum == Sum8([address, command, param, length]) by {
        assert [address, command, param, length][..3] == [address, command, param];
      }
    }

    /** Sends `bytes` after `sent`, adding each to the running sum. */
    method PutSummed(ghost sent: seq<byte>, sum: byte, bytes: seq<byte>) returns (total: byte)
      requires sum == Sum8(sent)
      modifies this`out
      ensures out == old(out) + bytes
      ensures total == Sum8(sent + bytes)
    {
      total := sum;
      assert sent + bytes[..0] == sent;
      for i := 0 to |bytes|
        invariant out == old(out) + bytes[..i]
        invariant total == Sum8(sent + bytes[..i])
      {
        SummedStep(old(out), sent, bytes, i);
        Put(bytes[i]);
        total := (total + bytes[i]) % 256;
      }
      assert bytes[..|bytes|] == bytes;
    }

    /** One frame, summed byte by byte as it goes out. */
    method SendFrame(command: byte, param: byte, payload: seq<byte>)
      requires |payload| < 256
      modifies this`out
      ensures out == old(out) + Frame.Frame(address, command, param, payload)
    {
      var header: seq<byte> := [address, command, param, |payload| as byte];
      var sum := PutHeader(command, param, |payload|);
      sum := PutSummed(header, sum, payload);
      Put(sum);
      Regroup(old(out), header, payload);
      Regroup(old(out), header + payload, [sum]);
    }

    /** `bull_data_reply` */
    method DataReply(command: byte, param: byte, payload: seq<byte>)
      requires |payload| < 256
      modifies this`out
      ensures out == old(out) + Emit(inhibit, address, command, param, payload)
    {
      if inhibit {
        return;
      }
      SendFrame(command, param, payload);
    }

    /** `bull_data_reply2`: one reply whose payload is two pieces, summed
        one after the other. */
    method DataReply2(command: byte, param: byte, first: seq<byte>, second: seq<byte>)
      requires |first| + |second| < 256
      modifies this`out
      ensures out == old(out) + Emit(inhibit, address, command, param, first + second)
    {
      if inhibit {
        return;
      }
      var header: seq<byte> := [address, command, param, (|first| + |second|) as byte];
      var sum := PutHeader(command, param, |first| + |second|);
      sum := PutSummed(header, sum, first);
      sum := PutSummed(header + first, sum, second);
      Regroup(header, first, second);
      assert sum == Sum8(header + (first + second));
      assert out == old(out) + (header + (first + second)) by {
        Regroup(old(out), header, first);
        Regroup(old(out), header + first, second);
      }
      Put(sum);
      Regroup(old(out), header + (first + second), [sum]);
      assert out == old(out) + Frame.Frame(address, command, param, first + second);
    }

    /** `bull_string_reply`: `text` is the message without its terminating
        NUL, so the length the firmware counts up to the terminator is
        `|text|`. */
    method StringReply(command: byte, param: byte, text: seq<byte>)
      requires |text| < 256
      modifies this`out
      ensures out == old(out) + Emit(inhibit, address, command, param, text)
    {
      if inhibit {
        return;
      }
      SendFrame(command, param, text);
    }

    /** `bull_verify_length` */
    method VerifyLength(param: byte, supplied: nat, expected: nat) returns (ok: bool)
      modifies this`out
      ensures ok <==> supplied == expected
      ensures out == old(out) + if ok then [] else Emit(inhibit, address, CmdError, param, InvalidLength)
    {
      if supplied == expected {
        return true;
      }
      StringReply(CmdError, param, InvalidLength);
      return false;
    }

    /** `handle_bull`, for a buffer `is_bull` accepted; `tcnt2` is the timer
        value fed to the pool afterwards. A temperature read needs the
        conversion to end. */
    method HandleBull(data: seq<byte>, tcnt2: byte) returns (ghost drawn: seq<byte>)
      requires Valid() && IsBull(data)
      requires SumMatches(data) && ForUs(data, address) && data[1] == CmdRead && data[2] == ParamTemperature
        ==> ConversionEnds()
      modifies this, slots, slots.used, pool, bus
      ensures Valid()
      ensures !SumMatches(data) ==>
        && out == old(out) + (if data[0] == address then Emit(inhibit, address, CmdError, 0x00, BadChecksum) else [])
        && inhibit == old(inhibit) && RegistersKept(old(Now()), Now()) && SlotsKept(old(Now()), Now()) && BusKept(old(Now()), Now())
        && unchanged(pool)
      ensures SumMatches(data) && !ForUs(data, old(address)) ==>
        && out == old(out) && inhibit == old(inhibit) && RegistersKept(old(Now()), Now()) && BusKept(old(Now()), Now())
        && unchanged(pool) && unchanged(slots)
        && slots.used[..] == if SearchReply(data) then Search.AddSlot(old(slots.used[..]), data[4]) else old(slots.used[..])
      ensures SumMatches(data) && ForUs(data, old(address)) ==>
        && (inhibit <==> data[0] == Broadcast && !ClearsInhibit(data, old(address), old(slots.selected)))
        && (inhibit ==> out == old(out))
        && pool.fed == drawn + [tcnt2]
        && |old(pool.fed)| <= |drawn| && drawn[..|old(pool.fed)|] == old(pool.fed)
        && (!MayDraw(data) ==> drawn == old(pool.fed))
      ensures SumMatches(data) && ForUs(data, old(address)) && data[1] == CmdRead ==>
        ReadDone(old(Now()), Now(), version, data[2], Payload(data), data[0] == Broadcast, pool, old(pool.fed), drawn)
      ensures SumMatches(data) && ForUs(data, old(address)) && data[1] == CmdWrite ==>
        WriteDone(old(Now()), Now(), data[2], Payload(data), data[0] == Broadcast, pool, old(pool.fed), drawn)
      ensures SumMatches(data) && ForUs(data, old(address)) && data[1] != CmdRead && data[1] != CmdWrite ==>
        && out == old(out) + Emit(data[0] == Broadcast, address, CmdError, 0x00, UnhandledCommand)
        && inhibit == (data[0] == Broadcast) && RegistersKept(old(Now()), Now()) && SlotsKept(old(Now()), Now()) && BusKept(old(Now()), Now())
    {
      drawn := pool.fed;
      var ok := ChecksumOk(data);
      if !ok {
        RefuseChecksum(data);
        return;
      }
      if data[0] != address && data[0] != Broadcast {
        Snoop(data);
        return;
      }
      drawn := Answer(data, tcnt2);
    }

    /** The rest of `handle_bull` for a frame meant for this unit or for
        everyone: the request is answered, then the timer value is fed to
        the pool. */
    method Answer(data: seq<byte>, tcnt2: byte) returns (ghost drawn: seq<byte>)
      requires Valid() && IsBull(data) && ForUs(data, address)
      requires data[1] == CmdRead && data[2] == ParamTemperature ==> ConversionEnds()
      modifies this, slots, slots.used, pool, bus
      ensures Valid()
      ensures inhibit <==> data[0] == Broadcast && !ClearsInhibit(data, old(address), old(slots.selected))
      ensures inhibit ==> out == old(out)
      ensures pool.fed == drawn + [tcnt2]
      ensures |old(pool.fed)| <= |drawn| && drawn[..|old(pool.fed)|] == old(pool.fed)
      ensures !MayDraw(data) ==> drawn == old(pool.fed)
      ensures data[1] == CmdRead ==> ReadDone(old(Now()), Now(), version, data[2], Payload(data), data[0] == Broadcast, pool, old(pool.fed), drawn)
      ensures data[1] == CmdWrite ==> WriteDone(old(Now()), Now(), data[2], Payload(data), data[0] == Broadcast, pool, old(pool.fed), drawn)
      ensures data[1] != CmdRead && data[1] != CmdWrite ==>
        && out == old(out) + Emit(data[0] == Broadcast, address, CmdError, 0x00, UnhandledCommand)
        && inhibit == (data[0] == Broadcast) && RegistersKept(old(Now()), Now()) && SlotsKept(old(Now()), Now()) && BusKept(old(Now()), Now())
    {
      Dispatch(data);
      ghost var s := Now();
      drawn := pool.fed;
      pool.Feed([tcnt2]);
      assert Now() == s;
    }

    /** The checksum failure branch of `handle_bull`: an error reply, only
        when the frame named this unit. */
    method RefuseChecksum(data: seq<byte>)
      requires |data| >= 1
      modifies this`out
      ensures out == old(out) + (if data[0] == address then Emit(inhibit, address, CmdError, 0x00, BadChecksum) else [])
    {
      if data[0] == address {
        StringReply(CmdError, 0x00, BadChecksum);
      }
    }

    /** The branch of `handle_bull` for a frame meant for another unit: a
        search reply's slot is recorded, anything else is ignored. */
    method Snoop(data: seq<byte>)
      requires Valid() && IsBull(data)
      modifies slots.used
      ensures Valid()
      ensures slots.used[..] == if SearchReply(data) then Search.AddSlot(old(slots.used[..]), data[4]) else old(slots.used[..])
    {
      if data[1] == CmdRead && data[2] == ParamSearch && |data| == 6 {
        slots.AddUsed(data[4]);
      }
    }

    /** The part of `handle_bull` after a frame was found to be for this
        unit: the reply flag, the command switch, and nothing fed yet. */
    method Dispatch(data: seq<byte>)
      requires Valid() && IsBull(data) && ForUs(data, address)
      requires data[1] == CmdRead && data[2] == ParamTemperature ==> ConversionEnds()
      modifies this, slots, slots.used, pool, bus
      ensures Valid()
      ensures inhibit <==> data[0] == Broadcast && !ClearsInhibit(data, old(address), old(slots.selected))
      ensures inhibit ==> out == old(out)
      ensures |old(pool.fed)| <= |pool.fed| && pool.fed[..|old(pool.fed)|] == old(pool.fed)
      ensures !MayDraw(data) ==> unchanged(pool)
      ensures data[1] == CmdRead ==> ReadDone(old(Now()), Now(), version, data[2], Payload(data), data[0] == Broadcast, pool, old(pool.fed), pool.fed)
      ensures data[1] == CmdWrite ==> WriteDone(old(Now()), Now(), data[2], Payload(data), data[0] == Broadcast, pool, old(pool.fed), pool.fed)
      ensures data[1] != CmdRead && data[1] != CmdWrite ==>
        && out == old(out) + Emit(data[0] == Broadcast, address, CmdError, 0x00, UnhandledCommand)
        && inhibit == (data[0] == Broadcast) && RegistersKept(old(Now()), Now()) && SlotsKept(old(Now()), Now()) && BusKept(old(Now()), Now())
    {
      inhibit := data[0] == Broadcast;
      if data[1] == CmdRead {
        HandleRead(data[2], Payload(data));
      } else if data[1] == CmdWrite {
        HandleWrite(data[2], Payload(data));
      } else {
        StringReply(CmdError, 0x00, UnhandledCommand);
      }
    }

    /** `bull_handle_read` */
    method HandleRead(param: byte, payload: seq<byte>)
      requires Valid() && |payload| < 256
      requires param == ParamTemperature ==> ConversionEnds()
      modifies this, slots, slots.used, pool, bus
      ensures Valid()
      ensures ReadDone(old(Now()), Now(), version, param, payload, old(inhibit), pool, old(pool.fed), pool.fed)
      ensures inhibit <==> old(inhibit) && !(param == ParamSearch && |payload| == 1 && payload[0] == old(slots.selected))
      ensures inhibit ==> out == old(out)
      ensures |old(pool.fed)| <= |pool.fed| && pool.fed[..|old(pool.fed)|] == old(pool.fed)
      ensures !(param == ParamSearch && |payload| == 1) ==> unchanged(pool)
    {
      if param == ParamSearch {
        PollSlot(payload);
      } else if param == ParamTemperature {
        ghost var wait, temp := ReadTemperature(payload);
      } else if param == ParamWireBit {
        ReadWireBit();
      } else {
        ReadRegister(param);
      }
    }

    /** The branches of `bull_handle_read` that reply with a register, or
        refuse the parameter. */
    method ReadRegister(param: byte)
      requires Valid() && param != ParamSearch && param != ParamTemperature && param != ParamWireBit
      modifies this`out
      ensures RegisterRead(old(Now()), Now(), version, param, inhibit)
      ensures out == old(out) + match Register(Now(), version, param)
                                case Some(v) => Emit(inhibit, address, CmdRead, param, v)
                                case None => Emit(inhibit, address, CmdError, param, InvalidParameter)
    {
      if param == ParamAddress {
        DataReply(CmdRead, param, [address]);
      } else if param == ParamName {
        DataReply(CmdRead, param, eeprom[1..1 + NameLength]);
      } else if param == ParamTime {
        DataReply(CmdRead, param, LE(time, 4));
      } else if param == ParamVersion {
        DataReply(CmdRead, param, version);
      } else if IsEepromParam(param) {
        DataReply(CmdRead, param, [eeprom[EepromReadOffset(param)]]);
      } else if param == ParamWireSearch {
        DataReply(CmdRead, param, LE(deviceId, 8));
      } else {
        StringReply(CmdError, param, InvalidParameter);
      }
    }

    /** The search poll branch of `bull_handle_read`. */
    method PollSlot(payload: seq<byte>)
      requires Valid()
      modifies this`inhibit, this`out, slots, slots.used, pool
      ensures Valid()
      ensures SlotPolled(old(Now()), Now(), payload, old(inhibit), pool, old(pool.fed), pool.fed)
      ensures inhibit <==> old(inhibit) && !(|payload| == 1 && payload[0] == old(slots.selected))
      ensures |old(pool.fed)| <= |pool.fed| && pool.fed[..|old(pool.fed)|] == old(pool.fed)
      ensures |payload| != 1 ==> unchanged(pool)
    {
      if |payload| == 1 {
        if inhibit {
          var next := slots.ReadSlot(payload[0], pool);
          if next.Some? {
            inhibit := false;
            DataReply(CmdRead, ParamSearch, [next.value]);
          }
        } else {
          slots.AddUsed(payload[0]);
        }
      }
    }

    /** The temperature branch of `bull_handle_read`: an eight-byte payload
        becomes the device id; the conversion and the read go to that id by
        MATCH ROM; the reply is the temperature as two bytes, low first,
        then the id. The conversion took `wait` read slots and `temp` is the
        temperature read. */
    method ReadTemperature(payload: seq<byte>) returns (ghost wait: nat, ghost temp: int)
      requires Valid() && ConversionEnds()
      modifies this`deviceId, this`out, bus
      ensures Valid() && WireUsed(old(Now()), Now(), inhibit)
      ensures deviceId == if |payload| == 8 then FromLE(payload) else old(deviceId)
      ensures bus.TemperatureRead(old(bus.taken), old(bus.log), Some(deviceId), wait, temp)
      ensures out == old(out) + Emit(inhibit, address, CmdRead, ParamTemperature, LE(temp % 65536, 2) + LE(deviceId, 8))
    {
      ghost var s0 := Now();
      if |payload| == 8 {
        deviceId := FromLE(payload);
      }
      ghost var s1 := Now();
      wait, temp := TemperatureReply();
      WireUsedTwice(s0, s1, Now(), inhibit);
    }

    /** The read and the reply of the temperature branch, for the current
        device id. */
    method TemperatureReply() returns (ghost wait: nat, ghost temp: int)
      requires Valid() && ConversionEnds()
      modifies this`out, bus
      ensures Valid() && WireUsed(old(Now()), Now(), inhibit)
      ensures bus.TemperatureRead(old(bus.taken), old(bus.log), Some(deviceId), wait, temp)
      ensures out == old(out) + Emit(inhibit, address, CmdRead, ParamTemperature, LE(temp % 65536, 2) + LE(deviceId, 8))
    {
      ghost var s0 := Now();
      var t;
      t, wait := bus.ReadTemperature(Some(deviceId));
      temp := t;
      assert unchanged(slots, slots.used);
      ghost var s1 := Now();
      assert SlotsKept(s0, s1) && s1.out == s0.out;
      // `temp.i16` goes out as its two bytes, low first.
      DataReply2(CmdRead, ParamTemperature, LE(t % 65536, 2), LE(deviceId, 8));
      assert unchanged(slots, slots.used);
      WireUsedTwice(s0, s1, Now(), inhibit);
    }

    /** The 1-Wire bit branch of `bull_handle_read`: one read slot, whose
        sample is the reply. */
    method ReadWireBit()
      requires Valid()
      modifies this`out, bus
      ensures Valid() && WireUsed(old(Now()), Now(), inhibit)
      ensures bus.taken == old(bus.taken) + 1 && bus.log == old(bus.log) + [Therm.Read]
      ensures out == old(out) + Emit(inhibit, address, CmdRead, ParamWireBit, [bus.line(old(bus.taken))])
    {
      var b := bus.ReadBit();
      DataReply(CmdRead, ParamWireBit, [b]);
    }

    /** `bull_handle_write` */
    method HandleWrite(param: byte, payload: seq<byte>)
      requires Valid() && |payload| < 256
      modifies this, slots, slots.used, pool, bus
      ensures Valid()
      ensures WriteDone(old(Now()), Now(), param, payload, old(inhibit), pool, old(pool.fed), pool.fed)
      ensures inhibit <==> old(inhibit) && !(param == ParamListen && |payload| == 1 && (payload[0] == old(address) || payload[0] == Broadcast))
      ensures inhibit ==> out == old(out)
      ensures |old(pool.fed)| <= |pool.fed| && pool.fed[..|old(pool.fed)|] == old(pool.fed)
      ensures !(param == ParamSearch && |payload| == 1) ==> unchanged(pool)
    {
      if param == ParamAddress {
        WriteAddress(payload);
      } else if param == ParamSearch {
        StartSearch(payload);
      } else if param == ParamListen {
        Listen(payload);
      } else if param == ParamWireReset || param == ParamWireSearch || param == ParamWireBit {
        WriteWire(param, payload);
      } else {
        WriteSetting(param, payload);
      }
    }

    /** The listen branch of `bull_handle_write`: an order naming this unit
        or everyone lifts the inhibit and is acknowledged. */
    method Listen(payload: seq<byte>)
      modifies this`inhibit, this`out
      ensures inhibit <==> old(inhibit) && !(|payload| == 1 && (payload[0] == address || payload[0] == Broadcast))
      ensures out == old(out) + if |payload| == 1 && (payload[0] == address || payload[0] == Broadcast)
                                then Emit(false, address, CmdWrite, ParamListen, []) else []
    {
      if |payload| == 1 && (payload[0] == address || payload[0] == Broadcast) {
        inhibit := false;
        DataReply(CmdWrite, ParamListen, []);
      }
      // `ignore_traffic` is not part of this model.
    }

    /** The 1-Wire branches of `bull_handle_write`. */
    method WriteWire(param: byte, payload: seq<byte>)
      requires param == ParamWireReset || param == ParamWireSearch || param == ParamWireBit
      requires |payload| < 256
      modifies this`deviceId, this`mask, this`out, bus
      ensures inhibit ==> out == old(out)
    {
      if param == ParamWireReset {
        ResetWire();
      } else if param == ParamWireSearch {
        ghost var start := WireSearch(payload);
      } else {
        WireBits(payload);
      }
    }

    /** The branches of `bull_handle_write` for the name, programming mode, the clock, the pixels and the EEPROM bytes, and
        the refusal of an unknown parameter. */
    method WriteSetting(param: byte, payload: seq<byte>)
      requires Valid() && |payload| < 256
      requires param !in {ParamAddress, ParamSearch, ParamListen, ParamWireReset, ParamWireSearch, ParamWireBit}
      modifies this`eeprom, this`time, this`out
      ensures Valid()
      ensures WriteDone(old(Now()), Now(), param, payload, inhibit, pool, pool.fed, pool.fed)
      ensures inhibit ==> out == old(out)
    {
      if param == ParamName {
        var n := Min(|payload|, NameLength);
        eeprom := eeprom[..1] + payload[..n] + eeprom[1 + n..];
      } else if param == ParamProgram {
        // `programming_mode` is not part of this model; it came back.
        StringReply(CmdError, param, ProgrammingModeFailed);
      } else if param == ParamTime {
        var ok := VerifyLength(param, |payload|, 4);
        if ok {
          time := FromLE(payload);
          DataReply(CmdWrite, param, []);
        }
      } else if param == ParamPixels {
        if |payload| == 0 || |payload| % 3 != 0 {
          StringReply(CmdError, param, LengthMultipleOfThree);
        } else {
          // The `wsled_color` calls are not part of this model.
          StringReply(CmdWrite, param, OkText);
        }
      } else if IsEepromParam(param) {
        var ok := VerifyLength(param, |payload|, 1);
        if ok {
          eeprom := eeprom[EepromWriteOffset(param) := payload[0]];
          DataReply(CmdWrite, param, []);
        }
      } else {
        StringReply(CmdError, param, InvalidParameter);
      }
      assert unchanged(slots, slots.used);
    }

    /** The address branch of `bull_handle_write`. */
    method WriteAddress(payload: seq<byte>)
      requires Valid()
      modifies this`address, this`eeprom, this`out
      ensures AddressWritten(old(Now()), Now(), payload, inhibit)
    {
      if |payload| == 2 {
        var us := slots.IsUs(payload[1]);
        if !us {
          return;
        }
      } else {
        var ok := VerifyLength(ParamAddress, |payload|, 1);
        if !ok {
          return;
        }
      }
      address := payload[0];
      eeprom := eeprom[0 := address];
      DataReply(CmdWrite, ParamAddress, []);
    }

    /** The search start branch of `bull_handle_write`. */
    method StartSearch(payload: seq<byte>)
      requires Valid()
      modifies this`out, slots, slots.used, pool
      ensures Valid()
      ensures SearchStarted(old(Now()), Now(), payload, inhibit, pool, old(pool.fed), pool.fed)
      ensures |old(pool.fed)| <= |pool.fed| && pool.fed[..|old(pool.fed)|] == old(pool.fed)
      ensures |payload| != 1 ==> unchanged(pool)
    {
      var ok := VerifyLength(ParamSearch, |payload|, 1);
      if ok {
        slots.Start(payload[0], pool);
        DataReply(CmdWrite, ParamSearch, []);
      }
    }

    /** The 1-Wire reset branch of `bull_handle_write`: the presence sample
        goes back in a reply. */
    method ResetWire()
      modifies this`out, bus
      ensures bus.taken == old(bus.taken) + 1 && bus.log == old(bus.log) + [Therm.Reset]
      ensures out == old(out) + Emit(inhibit, address, CmdWrite, ParamWireReset, [bus.line(old(bus.taken))])
    {
      var presence := bus.ResetPulse();
      DataReply(CmdWrite, ParamWireReset, [presence]);
    }

    /** The 1-Wire search branch of `bull_handle_write`: a one-byte nonzero
        payload clears the mask first; the step's id and new mask become the
        registers, and both go back, eight bytes each, low first, in a reply
        that carries parameter 0x20. `start` is the mask the step began
        with. */
    method WireSearch(payload: seq<byte>) returns (ghost start: Therm.Mask)
      modifies this`deviceId, this`mask, this`out, bus
      ensures start == SearchStart(payload, old(mask))
      ensures bus.Searched(old(bus.taken), old(bus.log), start, deviceId, mask)
      ensures out == old(out) + Emit(inhibit, address, CmdWrite, ParamWireReset, LE(deviceId, 8) + LE(FromBitsLSB(mask), 8))
    {
      start := SearchStep(payload);
      DataReply(CmdWrite, ParamWireReset, LE(deviceId, 8) + LE(FromBitsLSB(mask), 8));
    }

    /** The registers' part of the 1-Wire search branch. */
    method SearchStep(payload: seq<byte>) returns (ghost start: Therm.Mask)
      modifies this`deviceId, this`mask, bus
      ensures start == SearchStart(payload, old(mask))
      ensures bus.Searched(old(bus.taken), old(bus.log), start, deviceId, mask)
    {
      if |payload| == 1 && payload[0] != 0 {
        mask := ClearMask();
      }
      start := mask;
      deviceId, mask := bus.Search(mask);
    }

    /** The 1-Wire bit branch of `bull_handle_write`: the first payload byte
        goes out as many times as the payload is long, and the reply is the
        low byte of the 16-bit counter. */
    method WireBits(payload: seq<byte>)
      requires |payload| < 256
      modifies this`out, bus
      ensures bus.taken == old(bus.taken)
      ensures bus.log == old(bus.log) + Therm.Writes(Copies<bit>(LevelOf(payload), |payload|))
      ensures out == old(out) + Emit(inhibit, address, CmdWrite, ParamWireBit, [|payload|])
    {
      var i := 0;
      while i < |payload|
        invariant 0 <= i <= |payload|
        invariant bus.taken == old(bus.taken) && out == old(out)
        invariant bus.log == old(bus.log) + Therm.Writes(Copies<bit>(LevelOf(payload), i))
      {
        bus.WriteBit(Level(payload[0]));
        assert Therm.Writes(Copies<bit>(LevelOf(payload), i + 1))
            == Therm.Writes(Copies<bit>(LevelOf(payload), i)) + [Therm.Write(LevelOf(payload))];
        i := i + 1;
      }
      DataReply(CmdWrite, ParamWireBit, [i % 256]);
    }
  }
}
