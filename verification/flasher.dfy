/** The flash tool (flasher.py): it parses an Intel HEX image and writes it
    to, or checks it against, a unit's flash through the STK500 bootloader
    protocol (Atmel AVR061), one 128-byte page at a time, over the same
    serial port as the bus host (`HostBull.Host`).

    A failed Python `assert`, an `IndexError` or a `ValueError` ends the
    tool; here each is a `Failure` result. */
module Flasher {
  import opened Bytes
  import HostBull

  /** STK500 replies. */
  const InSync: byte := 0x14
  const RespOk: byte := 0x10

  /** Bytes of a page written or read at once. */
  const PageSize: nat := 128

  /** How many bytes `read` asks for when no length is given. */
  const ReadAllLength: nat := 512

  /** Why parsing a HEX file fails. */
  datatype HexError =
    | AfterEof        // a line after the end-of-file record
    | NoColon         // a line not starting with ':'
    | BadHex          // the rest of the line is not hexadecimal byte pairs
    | ShortRecord     // fewer bytes than the record header needs
    | BadChecksum
    | NotContiguous   // a data record below the end of the image so far
    | WrongLength     // a data record whose payload disagrees with its length byte
    | UnhandledType

  datatype Failure =
    | Hex(kind: HexError, line: nat)
    | ShortReply      // fewer bytes than the length asked for
    | NoReply         // nothing came back at all
    | NotInSync       // the first byte is not INSYNC
    | NotOk           // the last byte is not OK

  // ----- Intel HEX -----

  /** The characters `bytes.fromhex` skips before each byte pair. */
  predicate IsSpace(c: char)
  {
    c == ' ' || c == '\t' || c == '\n' || c == '\r' || c == 11 as char || c == 12 as char
  }

  function HexValue(c: char): (r: Option<nat>)
    ensures r.Some? ==> r.value < 16
  {
    if '0' <= c <= '9' then Some(c as int - '0' as int)
    else if 'a' <= c <= 'f' then Some(c as int - 'a' as int + 10)
    else if 'A' <= c <= 'F' then Some(c as int - 'A' as int + 10)
    else None
  }

  /** `bytes.fromhex(text.strip())`: byte pairs of hexadecimal digits, with
      whitespace allowed before each pair and at the end; None where Python
      raises `ValueError`. */
  function FromHex(text: seq<char>): (r: Option<seq<byte>>)
    ensures r.Some? ==> 2 * |r.value| <= |text|
    decreases |text|
  {
    if text == [] then Some([])
    else if IsSpace(text[0]) then FromHex(text[1..])
    else if |text| >= 2 && HexValue(text[0]).Some? && HexValue(text[1]).Some? then
      match FromHex(text[2..])
      case None => None
      case Some(rest) => Some([16 * HexValue(text[0]).value + HexValue(text[1]).value] + rest)
    else None
  }

  /** The checksum a record must end with: the two's complement of the low
      byte of the sum of all its other bytes, computed as the source does
      it, by complementing the bits and adding one. On a byte, XOR with 0xFF
      is 255 minus the byte (`XorFlipsByte`). */
  function RecordChecksum(record: seq<byte>): byte
    requires |record| >= 1
  {
    var low := Sum(record[..|record| - 1]) % 256;
    ((255 - low) + 1) % 256
  }

  /** XOR with 0xFF flips the eight bits of a byte, which subtracts it from
      255. */
  lemma XorFlipsByte(v: bv8)
    ensures (v ^ 0xFF) as int == 255 - v as int
  {
    assert v ^ 0xFF == 0xFF - v;
  }

  /** A record's checksum is right exactly when all its bytes, the checksum
      included, sum to zero modulo 256. */
  lemma RecordChecksumZeroSum(record: seq<byte>)
    requires |record| >= 1
    ensures RecordChecksum(record) == record[|record| - 1] <==> Sum8(record) == 0
  {
    var n := |record| - 1;
    var x := Sum(record[..n]) % 256;
    Sum8Last(record);
    NegationByte(x, record[n]);
  }

  /** The wrapping sum of a record is the low byte of the sum of all but its
      last byte, plus the last byte, modulo 256. */
  lemma Sum8Last(record: seq<byte>)
    requires |record| >= 1
    ensures Sum8(record) == (Sum(record[..|record| - 1]) % 256 + record[|record| - 1]) % 256
  {
    Sum8IsSumMod(record[..|record| - 1]);
  }

  /** `y` is the negation of `x` modulo 256 exactly when they sum to 0
      modulo 256. */
  lemma NegationByte(x: int, y: int)
    requires 0 <= x < 256 && 0 <= y < 256
    ensures ((255 - x) + 1) % 256 == y <==> (x + y) % 256 == 0
  {
    if x == 0 {
      assert ((255 - x) + 1) % 256 == 0;
    } else {
      assert ((255 - x) + 1) % 256 == 256 - x;
    }
  }

  /** What the parser keeps between lines: the image so far, whether the
      end-of-file record was seen, and the offset of the first data record
      (`start_address`), where the image begins. */
  datatype HexState = HexState(data: seq<byte>, eof: bool, start: Option<nat>)

  const Fresh := HexState([], false, None)

  /** `line[4:-1]`: empty when the record has no byte between its header
      and its last byte. */
  function RecordPayload(record: seq<byte>): seq<byte>
  {
    if |record| >= 5 then record[4..|record| - 1] else []
  }

  /** One iteration of the loop in `read_hex`. */
  function Step(st: HexState, line: seq<char>): (r: Result<HexState, HexError>)
    ensures r.Ok? ==> !st.eof && |line| >= 1 && line[0] == ':'
    ensures r.Ok? ==> FromHex(line[1..]).Some? && |FromHex(line[1..]).value| >= 4
  {
    if st.eof then Err(AfterEof)
    else if |line| == 0 || line[0] != ':' then Err(NoColon)
    else match FromHex(line[1..])
      case None => Err(BadHex)
      case Some(record) =>
        if |record| == 0 then Err(ShortRecord)
        else if RecordChecksum(record) != record[|record| - 1] then Err(BadChecksum)
        else if |record| < 4 then Err(ShortRecord)
        else
          var length, offset, kind := record[0], record[1] as int * 256 + record[2], record[3];
          if kind == 0x01 then Ok(st.(eof := true))
          else if kind == 0x00 then
            var start := if st.start.None? then offset else st.start.value;
            var holes := if offset > start + |st.data| then offset - (start + |st.data|) else 0;
            var data := st.data + Copies(0xFF, holes);
            if offset != start + |data| then Err(NotContiguous)
            else if |RecordPayload(record)| != length then Err(WrongLength)
            else Ok(HexState(data + RecordPayload(record), false, Some(start)))
          else if kind == 0x03 then Ok(st)
          else Err(UnhandledType)
  }

  /** The parser's state after the first lines, or the first failure and
      the index of the line that caused it. */
  function Parsed(lines: seq<seq<char>>): (r: Result<HexState, Failure>)
    ensures r.Err? ==> r.error.Hex? && r.error.line < |lines|
  {
    if lines == [] then Ok(Fresh)
    else match Parsed(lines[..|lines| - 1])
      case Err(e) => Err(e)
      case Ok(st) =>
        match Step(st, lines[|lines| - 1])
        case Ok(next) => Ok(next)
        case Err(kind) => Err(Hex(kind, |lines| - 1))
  }

  /** What `read_hex` returns for a file with these lines. */
  function Image(lines: seq<seq<char>>): Result<seq<byte>, Failure>
  {
    match Parsed(lines)
    case Ok(st) => Ok(st.data)
    case Err(e) => Err(e)
  }

  /** A record is accepted only when all its bytes sum to zero modulo 256;
      an end-of-file record sets the flag, a type 03 record changes nothing,
      and a type other than 00, 01 and 03 is refused. */
  lemma StepRecord(st: HexState, line: seq<char>)
    requires !st.eof && |line| >= 1 && line[0] == ':'
    requires FromHex(line[1..]).Some? && |FromHex(line[1..]).value| >= 4
    ensures var record := FromHex(line[1..]).value;
      && (Sum8(record) != 0 ==> Step(st, line) == Err(BadChecksum))
      && (Sum8(record) == 0 && record[3] == 0x01 ==> Step(st, line) == Ok(st.(eof := true)))
      && (Sum8(record) == 0 && record[3] == 0x03 ==> Step(st, line) == Ok(st))
      && (Sum8(record) == 0 && record[3] !in {0x00, 0x01, 0x03} ==> Step(st, line) == Err(UnhandledType))
  {
    RecordChecksumZeroSum(FromHex(line[1..]).value);
  }

  /** A data record goes in at its offset from the first data record's:
      the gap up to it is filled with 0xFF, its payload follows, and
      nothing before is touched. An offset below the end of the image so
      far, or a payload whose size disagrees with the length byte, is
      refused. */
  lemma StepData(st: HexState, line: seq<char>)
    requires Step(st, line).Ok? || Step(st, line).error in {NotContiguous, WrongLength}
    requires FromHex(line[1..]).Some? && |FromHex(line[1..]).value| >= 4 && FromHex(line[1..]).value[3] == 0x00
    requires st.start.Some? || st.data == []
    ensures var record := FromHex(line[1..]).value;
      var offset := record[1] as int * 256 + record[2];
      var start := if st.start.None? then offset else st.start.value;
      var payload := RecordPayload(record);
      && (Step(st, line).Ok? <==> offset >= start + |st.data| && |payload| == record[0])
      && (Step(st, line).Ok? ==>
            var data := Step(st, line).value.data;
            && Step(st, line).value.start == Some(start) && !Step(st, line).value.eof
            && |data| == offset - start + |payload|
            && data[..|st.data|] == st.data
            && (forall k :: |st.data| <= k < offset - start ==> data[k] == 0xFF)
            && data[offset - start..] == payload)
  {
    var record := FromHex(line[1..]).value;
    RecordChecksumZeroSum(record);
    var offset := record[1] as int * 256 + record[2];
    var start := if st.start.None? then offset else st.start.value;
    var holes := if offset > start + |st.data| then offset - (start + |st.data|) else 0;
    var filled := st.data + Copies(0xFF, holes);
    if Step(st, line).Ok? {
      var data := Step(st, line).value.data;
      assert data == filled + RecordPayload(record);
      assert data[..|st.data|] == st.data;
    }
  }

  /** A failure is final: the first line refused decides the result. */
  lemma {:induction false} FailureFinal(lines: seq<seq<char>>, i: nat)
    requires i <= |lines| && Parsed(lines[..i]).Err?
    ensures Parsed(lines) == Parsed(lines[..i])
  {
    if i < |lines| {
      assert lines[..|lines| - 1][..i] == lines[..i];
      FailureFinal(lines[..|lines| - 1], i);
    } else {
      assert lines[..i] == lines;
    }
  }

  /** The end-of-file record is final: a file with any line after it is
      refused. */
  lemma NothingAfterEof(lines: seq<seq<char>>, i: nat)
    requires i < |lines| && Parsed(lines[..i]).Ok? && Parsed(lines[..i]).value.eof
    ensures Parsed(lines) == Err(Hex(AfterEof, i))
  {
    assert lines[..i + 1][..i] == lines[..i];
    FailureFinal(lines, i + 1);
  }

  /** `Flasher.read_hex` over the lines of the file. */
  method ReadHex(lines: seq<seq<char>>) returns (r: Result<seq<byte>, Failure>)
    ensures r == Image(lines)
  {
    var data: seq<byte> := [];
    var eof := false;
    var start: Option<nat> := None;
    var i := 0;
    while i < |lines|
      invariant 0 <= i <= |lines|
      invariant Parsed(lines[..i]) == Ok(HexState(data, eof, start))
    {
      assert lines[..i + 1][..i] == lines[..i];
      var next := ReadLine(HexState(data, eof, start), lines[i]);
      if next.Err? {
        FailureFinal(lines, i + 1);
        return Err(Hex(next.error, i));
      }
      data, eof, start := next.value.data, next.value.eof, next.value.start;
      i := i + 1;
    }
    assert lines[..i] == lines;
    return Ok(data);
  }

  /** The body of the loop in `read_hex`, for one line. */
  method ReadLine(st: HexState, line: seq<char>) returns (r: Result<HexState, HexError>)
    ensures r == Step(st, line)
  {
    if st.eof {
      return Err(AfterEof);
    }
    if |line| == 0 || line[0] != ':' {
      return Err(NoColon);
    }
    var decoded := FromHex(line[1..]);
    if decoded.None? {
      return Err(BadHex);
    }
    var record := decoded.value;
    if |record| == 0 {
      return Err(ShortRecord);
    }
    var checksum := RecordChecksum(record);
    if checksum != record[|record| - 1] {
      return Err(BadChecksum);
    }
    if |record| < 4 {
      return Err(ShortRecord);
    }
    var length, offset, kind := record[0], record[1] as int * 256 + record[2], record[3];
    if kind == 0x01 {
      return Ok(st.(eof := true));
    } else if kind == 0x00 {
      var start := if st.start.None? then offset else st.start.value;
      var data := st.data;
      while offset > start + |data|
        invariant |st.data| <= |data|
        invariant data == st.data + Copies(0xFF, |data| - |st.data|)
        invariant offset > start + |st.data| ==> start + |data| <= offset
        invariant offset <= start + |st.data| ==> data == st.data
        decreases offset - |data|
      {
        data := data + [0xFF];
      }
      if offset != start + |data| {
        return Err(NotContiguous);
      }
      var payload := RecordPayload(record);
      if |payload| != length {
        return Err(WrongLength);
      }
      return Ok(HexState(data + payload, false, Some(start)));
    } else if kind == 0x03 {
      return Ok(st);
    }
    return Err(UnhandledType);
  }

  // ----- STK500 page framing -----

  /** `Cmnd_STK_LOAD_ADDRESS`: the word address (the byte address halved),
      low byte first. */
  function LoadAddress(address: nat): seq<byte>
  {
    var word := address / 2;
    [0x55, word % 256, (word / 256) % 256, 0x20]
  }

  /** `Cmnd_STK_PROG_PAGE` for flash: the block size, high byte first, then
      the bytes. */
  function ProgramPageCommand(block: seq<byte>): seq<byte>
  {
    [0x64, (|block| / 256) % 256, |block| % 256, 0x46] + block + [0x20]
  }

  /** `Cmnd_STK_READ_PAGE` for flash: the block size, high byte first. */
  function ReadPageCommand(size: nat): seq<byte>
  {
    [0x74, (size / 256) % 256, size % 256, 0x46, 0x20]
  }

  /** What `program_page` sends: the address, then the page. */
  function ProgramRequest(address: nat, block: seq<byte>): seq<byte>
  {
    LoadAddress(address) + ProgramPageCommand(block)
  }

  /** What `read_page` sends: the address, then the read. */
  function ReadRequest(address: nat, size: nat): seq<byte>
  {
    LoadAddress(address) + ReadPageCommand(size)
  }

  /** The bootloader's answer to `read_page` when the page holds `page`:
      the acknowledgement of the address, then the page between INSYNC
      and OK. */
  function PageReply(page: seq<byte>): seq<byte>
  {
    Acks(1) + [InSync] + page + [RespOk]
  }

  /** `Cmnd_STK_LEAVE_PROGMODE` */
  const LeaveCommand: seq<byte> := [0x51, 0x20]

  /** The bootloader recovers an even byte address below 128 KiB from the
      two address bytes, and a block size below 64 KiB from the two size
      bytes of either page command. */
  lemma HeadersRoundTrip(address: nat, block: seq<byte>, size: nat)
    requires address % 2 == 0 && address < 0x20000 && |block| < 0x10000 && size < 0x10000
    ensures 2 * (LoadAddress(address)[1] as int + 256 * LoadAddress(address)[2] as int) == address
    ensures 256 * ProgramPageCommand(block)[1] as int + ProgramPageCommand(block)[2] as int == |block|
    ensures 256 * ReadPageCommand(size)[1] as int + ReadPageCommand(size)[2] as int == size
  {
  }

  /** The reply check of `Flasher.read`; `length` 0 stands for no length
      (Python treats `None` and 0 alike there). */
  function CheckReply(got: seq<byte>, length: nat): (r: Result<seq<byte>, Failure>)
    ensures r.Ok? <==>
      (length != 0 ==> |got| == length) && |got| >= 1 && got[0] == InSync && got[|got| - 1] == RespOk
    ensures r.Ok? ==> r.value == got
  {
    if length != 0 && |got| != length then Err(ShortReply)
    else if |got| == 0 then Err(NoReply)
    else if got[0] != InSync then Err(NotInSync)
    else if got[|got| - 1] != RespOk then Err(NotOk)
    else Ok(got)
  }

  /** How many bytes `read` asks for. */
  function ToRead(length: nat): nat
  {
    if length != 0 then length else ReadAllLength
  }

  /** The pages `write_hex` and `validate` go through. */
  function Pages(image: seq<byte>): seq<seq<byte>>
    decreases |image|
  {
    if image == [] then []
    else [image[..Min(PageSize, |image|)]] + Pages(image[Min(PageSize, |image|)..])
  }

  function Concat(pages: seq<seq<byte>>): seq<byte>
  {
    if pages == [] then [] else pages[0] + Concat(pages[1..])
  }

  /** The pages put back together are the image; every page but the last
      is full, and page `i` starts at byte `128 * i`. */
  lemma {:induction false} PagesCover(image: seq<byte>)
    ensures Concat(Pages(image)) == image
    ensures |Pages(image)| == (|image| + PageSize - 1) / PageSize
    ensures forall i :: 0 <= i < |Pages(image)| ==>
      Pages(image)[i] == image[PageSize * i..Min(PageSize * (i + 1), |image|)]
    decreases |image|
  {
    if image != [] {
      var n := Min(PageSize, |image|);
      var rest := image[n..];
      PagesCover(rest);
      assert Pages(image) == [image[..n]] + Pages(rest);
      assert image[..n] + rest == image;
    }
    forall i | 0 <= i < |Pages(image)|
      ensures Pages(image)[i] == image[PageSize * i..Min(PageSize * (i + 1), |image|)]
    {
      PageAt(image, i);
    }
  }

  /** Page `i` is the image's bytes from `128 * i`, at most 128 of them. */
  lemma {:induction false} PageAt(image: seq<byte>, i: nat)
    requires i < |Pages(image)| && PageSize * i < |image|
    ensures Pages(image)[i] == image[PageSize * i..Min(PageSize * (i + 1), |image|)]
    decreases i
  {
    var n := Min(PageSize, |image|);
    var rest := image[n..];
    assert Pages(image) == [image[..n]] + Pages(rest);
    if i > 0 {
      assert rest != [];
      PageAt(rest, i - 1);
      assert n == PageSize;
      var lo, hi := PageSize * (i - 1), Min(PageSize * i, |rest|);
      assert lo + PageSize == PageSize * i && hi + PageSize == Min(PageSize * (i + 1), |image|);
      assert rest[lo..hi] == image[lo + PageSize..hi + PageSize];
    }
  }

  /** What `write_hex` sends for pages starting at `address`. */
  function ProgramAll(pages: seq<seq<byte>>, address: nat): seq<byte>
  {
    if pages == [] then []
    else ProgramRequest(address, pages[0]) + ProgramAll(pages[1..], address + PageSize)
  }

  /** What `validate` sends for pages starting at `address`. */
  function ReadAll(pages: seq<seq<byte>>, address: nat): seq<byte>
  {
    if pages == [] then []
    else ReadRequest(address, |pages[0]|) + ReadAll(pages[1..], address + |pages[0]|)
  }

  /** `n` acknowledgements: INSYNC followed by OK. */
  function Acks(n: nat): seq<byte>
  {
    if n == 0 then [] else [InSync, RespOk] + Acks(n - 1)
  }

  /** What the bootloader answers to `validate`'s requests when the first
      bytes of its flash are `data`: for each page, an acknowledgement of
      the address, then the page between INSYNC and OK. */
  function Served(data: seq<byte>): seq<byte>
    decreases |data|
  {
    if data == [] then []
    else
      var n := Min(PageSize, |data|);
      PageReply(data[..n]) + Served(data[n..])
  }

  /** Reading one more page after whole pages adds its reply at the end. */
  lemma {:induction false} ServedSnoc(data: seq<byte>, page: seq<byte>, pages: nat)
    requires |data| == PageSize * pages && 1 <= |page| <= PageSize
    ensures Served(data + page) == Served(data) + PageReply(page)
    decreases pages
  {
    if data == [] {
      assert data + page == page;
      assert page[..|page|] == page && page[|page|..] == [];
    } else {
      var rest := data[PageSize..];
      assert (data + page)[..PageSize] == data[..PageSize];
      assert (data + page)[PageSize..] == rest + page;
      ServedSnoc(rest, page, pages - 1);
    }
  }

  /** `read_page` succeeds on `rx` when it starts with an acknowledgement
      and then `size` bytes between INSYNC and OK. */
  predicate PageServed(rx: seq<byte>, size: nat)
  {
    |rx| >= size + 4 && Acks(1) <= rx && rx[2] == InSync && rx[size + 3] == RespOk
  }

  /** Two acknowledgements are one after the other. */
  lemma AcksPrefix(rx: seq<byte>)
    ensures Acks(2) <= rx <==> Acks(1) <= rx && Acks(1) <= rx[2..]
  {
    assert Acks(1) == [InSync, RespOk];
    assert Acks(2) == [InSync, RespOk, InSync, RespOk];
  }

  /** The reply to `read_page`, taken apart as `read(2)` and
      `read(size + 2)` take it. */
  lemma PageReplyParts(rx0: seq<byte>, rx1: seq<byte>, rx2: seq<byte>, ack: seq<byte>, got: seq<byte>, size: nat)
    requires Acks(1) <= rx0 && ack == rx0[..2] && rx1 == rx0[2..]
    requires got == rx1[..Min(size + 2, |rx1|)] && rx2 == rx1[|got|..]
    ensures CheckReply(got, size + 2).Ok? <==> PageServed(rx0, size)
    ensures CheckReply(got, size + 2).Ok? ==> rx0 == PageReply(got[1..|got| - 1]) + rx2
  {
    assert Acks(1) == [InSync, RespOk];
    if |rx1| < size + 2 {
      assert |rx0| < size + 4;
    } else {
      assert |got| == size + 2;
      assert got[0] == rx0[2] && got[size + 1] == rx0[size + 3];
      if CheckReply(got, size + 2).Ok? {
        var v := got[1..size + 1];
        assert got == [InSync] + v + [RespOk];
        assert rx0 == ack + rx1;
        assert rx1 == got + rx2;
        assert ack == Acks(1);
        assert PageReply(v) == ack + got;
      }
    }
  }

  /** The page sits at bytes 3 to `size + 3` of its reply. */
  lemma PagePayload(page: seq<byte>, rest: seq<byte>)
    ensures (PageReply(page) + rest)[3..|page| + 3] == page
  {
    assert Acks(1) == [InSync, RespOk];
    assert PageReply(page) + rest == [InSync, RespOk, InSync] + page + ([RespOk] + rest);
  }

  class Flasher {
    /** `self.serial`, the port shared with the bus host. */
    const serial: HostBull.Host

    constructor (serial: HostBull.Host)
      ensures this.serial == serial
    {
      this.serial := serial;
    }

    /** `Flasher.read` */
    method Read(length: nat) returns (r: Result<seq<byte>, Failure>)
      modifies serial`rx
      ensures var got := old(serial.rx)[..Min(ToRead(length), |old(serial.rx)|)];
        r == CheckReply(got, length) && serial.rx == old(serial.rx)[|got|..]
    {
      var got := serial.Receive(ToRead(length));
      if length != 0 && |got| != length {
        return Err(ShortReply);
      }
      if |got| == 0 {
        return Err(NoReply);
      }
      if got[0] != InSync {
        return Err(NotInSync);
      }
      if got[|got| - 1] != RespOk {
        return Err(NotOk);
      }
      return Ok(got);
    }

    /** An acknowledgement: `read(2)` of INSYNC, OK. */
    method Ack() returns (r: Result<(), Failure>)
      modifies serial`rx
      ensures r.Ok? <==> Acks(1) <= old(serial.rx)
      ensures r.Ok? ==> serial.rx == old(serial.rx)[2..]
    {
      var got := Read(2);
      if got.Err? {
        return Err(got.error);
      }
      return Ok(());
    }

    /** The first half of `program_page` and `read_page`: the word address,
        low byte first, between `Cmnd_STK_LOAD_ADDRESS` and `Sync_CRC_EOP`. */
    method SendLoadAddress(address: nat)
      modifies serial`sent
      ensures serial.sent == old(serial.sent) + LoadAddress(address)
    {
      serial.Send([0x55]);
      var word := address / 2;
      serial.Send([word % 256, (word / 256) % 256]);
      serial.Send([0x20]);
    }

    /** The second half of `program_page`. */
    method SendProgramPage(block: seq<byte>)
      modifies serial`sent
      ensures serial.sent == old(serial.sent) + ProgramPageCommand(block)
    {
      serial.Send([0x64]);
      serial.Send([(|block| / 256) % 256]);
      serial.Send([|block| % 256]);
      serial.Send([0x46]);
      serial.Send(block);
      serial.Send([0x20]);
    }

    /** The second half of `read_page`. */
    method SendReadPage(size: nat)
      modifies serial`sent
      ensures serial.sent == old(serial.sent) + ReadPageCommand(size)
    {
      serial.Send([0x74]);
      serial.Send([(size / 256) % 256]);
      serial.Send([size % 256]);
      serial.Send([0x46]);
      serial.Send([0x20]);
    }

    /** `Flasher.program_page` */
    method ProgramPage(address: nat, block: seq<byte>) returns (r: Result<(), Failure>)
      modifies serial
      ensures r.Ok? <==> Acks(2) <= old(serial.rx)
      ensures r.Ok? ==>
        && serial.sent == old(serial.sent) + ProgramRequest(address, block)
        && old(serial.rx) == Acks(2) + serial.rx
    {
      ghost var sent0 := serial.sent;
      SendLoadAddress(address);
      var ok := Ack();
      if ok.Err? {
        AcksPrefix(old(serial.rx));
        return ok;
      }
      SendProgramPage(block);
      r := Ack();
      AcksPrefix(old(serial.rx));
      Regroup(sent0, LoadAddress(address), ProgramPageCommand(block));
    }

    /** `Flasher.read_page` */
    method ReadPage(address: nat, size: nat) returns (r: Result<seq<byte>, Failure>)
      modifies serial
      ensures r.Ok? <==> PageServed(old(serial.rx), size)
      ensures r.Ok? ==>
        && r.value == old(serial.rx)[3..size + 3]
        && old(serial.rx) == PageReply(r.value) + serial.rx
        && serial.sent == old(serial.sent) + ReadRequest(address, size)
    {
      ghost var sent0 := serial.sent;
      SendLoadAddress(address);
      var ok := Ack();
      if ok.Err? {
        return Err(ok.error);
      }
      ghost var rx1 := serial.rx;
      SendReadPage(size);
      var got := Read(size + 2);
      if got.Err? {
        PageReplyParts(old(serial.rx), rx1, serial.rx, old(serial.rx)[..2], rx1[..Min(size + 2, |rx1|)], size);
        return Err(got.error);
      }
      r := Ok(got.value[1..|got.value| - 1]);
      PageReplyParts(old(serial.rx), rx1, serial.rx, old(serial.rx)[..2], got.value, size);
      PagePayload(r.value, serial.rx);
      Regroup(sent0, LoadAddress(address), ReadPageCommand(size));
    }

    /** `Flasher.leave_programming_mode` */
    method Leave() returns (r: Result<(), Failure>)
      modifies serial
      ensures serial.sent == old(serial.sent) + LeaveCommand
      ensures r.Ok? <==> CheckReply(old(serial.rx)[..Min(ReadAllLength, |old(serial.rx)|)], 0).Ok?
      ensures serial.rx == old(serial.rx)[Min(ReadAllLength, |old(serial.rx)|)..]
    {
      serial.Send([0x51, 0x20]);
      var got := Read(0);
      if got.Err? {
        return Err(got.error);
      }
      return Ok(());
    }

    /** `Flasher.write_hex`: the image goes out in 128-byte pages at
        addresses 0, 128, 256, ..., whatever offset the file starts at;
        then programming mode is left. */
    method WriteHex(lines: seq<seq<char>>) returns (r: Result<(), Failure>)
      modifies serial
      ensures Image(lines).Err? ==> r == Err(Image(lines).error) && unchanged(serial)
      ensures Image(lines).Ok? && r.Ok? ==>
        var pages := Pages(Image(lines).value);
        var rest := old(serial.rx)[Min(4 * |pages|, |old(serial.rx)|)..];
        && Acks(2 * |pages|) <= old(serial.rx)
        && CheckReply(rest[..Min(ReadAllLength, |rest|)], 0).Ok?
        && serial.rx == rest[Min(ReadAllLength, |rest|)..]
        && serial.sent == old(serial.sent) + ProgramAll(pages, 0) + LeaveCommand
      ensures Image(lines).Ok? ==>
        var pages := Pages(Image(lines).value);
        var rest := old(serial.rx)[Min(4 * |pages|, |old(serial.rx)|)..];
        Acks(2 * |pages|) <= old(serial.rx) && CheckReply(rest[..Min(ReadAllLength, |rest|)], 0).Ok? ==> r.Ok?
    {
      var image := ReadHex(lines);
      if image.Err? {
        return Err(image.error);
      }
      r := ProgramImage(image.value);
      if r.Err? {
        return r;
      }
      AcksLength(2 * |Pages(image.value)|);
      assert serial.rx == old(serial.rx)[4 * |Pages(image.value)|..];
      r := Leave();
    }

    /** The loop of `write_hex`: page after page, each acknowledged twice. */
    method ProgramImage(image: seq<byte>) returns (r: Result<(), Failure>)
      modifies serial
      ensures r.Ok? <==> Acks(2 * |Pages(image)|) <= old(serial.rx)
      ensures r.Ok? ==>
        && serial.sent == old(serial.sent) + ProgramAll(Pages(image), 0)
        && old(serial.rx) == Acks(2 * |Pages(image)|) + serial.rx
    {
      var data := image;
      var address := 0;
      ghost var done := 0;
      ghost var rx, sent := serial.rx, serial.sent;
      while |data| > 0
        invariant |Pages(image)| == done + |Pages(data)|
        invariant address == PageSize * done
        invariant rx == Acks(2 * done) + serial.rx
        invariant sent + ProgramAll(Pages(image), 0) == serial.sent + ProgramAll(Pages(data), address)
        decreases |data|
      {
        var n := Min(PageSize, |data|);
        ghost var sent0, rx0 := serial.sent, serial.rx;
        ProgramAllStep(data, address);
        if Acks(2 * |Pages(image)|) <= rx {
          AcksStop(rx, rx0, done, |Pages(image)|);
        }
        var ok := ProgramPage(address, data[..n]);
        if ok.Err? {
          return ok;
        }
        ProgramStep(rx, rx0, serial.rx, done, sent0, serial.sent,
          ProgramRequest(address, data[..n]), ProgramAll(Pages(data[n..]), address + PageSize));
        data := data[n..];
        address := address + PageSize;
        done := done + 1;
      }
      return Ok(());
    }

    /** `Flasher.validate`: reads the flash back in pages of at most 128
        bytes until the image's length is covered, then leaves programming
        mode; the result is what was read and the image. */
    method Validate(lines: seq<seq<char>>) returns (r: Result<(seq<byte>, seq<byte>), Failure>)
      modifies serial
      ensures Image(lines).Err? ==> r == Err(Image(lines).error) && unchanged(serial)
      ensures Image(lines).Ok? && r.Ok? ==>
        var pages := Pages(Image(lines).value);
        && r.value.1 == Image(lines).value
        && |r.value.0| == |r.value.1|
        && Served(r.value.0) <= old(serial.rx)
        && var rest := old(serial.rx)[|Served(r.value.0)|..];
        && CheckReply(rest[..Min(ReadAllLength, |rest|)], 0).Ok?
        && serial.rx == rest[Min(ReadAllLength, |rest|)..]
        && serial.sent == old(serial.sent) + ReadAll(pages, 0) + LeaveCommand
    {
      var reference := ReadHex(lines);
      if reference.Err? {
        return Err(reference.error);
      }
      var data := ReadImage(reference.value);
      if data.Err? {
        return Err(data.error);
      }
      var left := Leave();
      if left.Err? {
        return Err(left.error);
      }
      return Ok((data.value, reference.value));
    }

    /** The loop of `validate`: pages of at most 128 bytes until `size`
        bytes are read. */
    method ReadImage(image: seq<byte>) returns (r: Result<seq<byte>, Failure>)
      modifies serial
      ensures r.Ok? ==>
        && |r.value| == |image|
        && old(serial.rx) == Served(r.value) + serial.rx
        && serial.sent == old(serial.sent) + ReadAll(Pages(image), 0)
    {
      var address := 0;
      var data: seq<byte> := [];
      ghost var done := 0;
      ghost var rx, sent := serial.rx, serial.sent;
      while address < |image|
        invariant address <= |image| && |data| == address
        invariant address == PageSize * done || address == |image|
        invariant rx == Served(data) + serial.rx
        invariant sent + ReadAll(Pages(image), 0) == serial.sent + ReadAll(Pages(image[address..]), address)
      {
        var size := Min(PageSize, |image| - address);
        ghost var sent0, rx0 := serial.sent, serial.rx;
        ReadAllStep(image, address, size);
        var page := ReadPage(address, size);
        if page.Err? {
          return Err(page.error);
        }
        ServedSnoc(data, page.value, done);
        ReadStep(rx, rx0, serial.rx, Served(data), PageReply(page.value), sent0, serial.sent,
          ReadRequest(address, size), ReadAll(Pages(image[address + size..]), address + size));
        data := data + page.value;
        address := address + size;
        done := done + 1;
      }
      assert image[address..] == [];
      return Ok(data);
    }
  }

  /** The requests for the pages from `address` on: one page, then the
      rest. */
  lemma ReadAllStep(image: seq<byte>, address: nat, size: nat)
    requires address < |image| && size == Min(PageSize, |image| - address)
    ensures ReadAll(Pages(image[address..]), address)
         == ReadRequest(address, size) + ReadAll(Pages(image[address + size..]), address + size)
  {
    assert image[address..][..size] == image[address..address + size];
    assert image[address..][size..] == image[address + size..];
  }

  /** Regrouping the bytes after one more page read: what was served
      before `rx0` plus the page's reply `reply` is now served before
      `rx1`, and the request `request` has moved from the pending part
      `request + rest` to the sent part. */
  lemma ReadStep(rx: seq<byte>, rx0: seq<byte>, rx1: seq<byte>, served: seq<byte>, reply: seq<byte>,
                 sent0: seq<byte>, sent1: seq<byte>, request: seq<byte>, rest: seq<byte>)
    requires rx == served + rx0 && rx0 == reply + rx1
    requires sent1 == sent0 + request
    ensures rx == (served + reply) + rx1
    ensures sent0 + (request + rest) == sent1 + rest
  {
  }


  /** The requests for the pages of `data` at `address`: one page, then
      the rest. */
  lemma ProgramAllStep(data: seq<byte>, address: nat)
    requires |data| > 0
    ensures ProgramAll(Pages(data), address)
         == ProgramRequest(address, data[..Min(PageSize, |data|)])
          + ProgramAll(Pages(data[Min(PageSize, |data|)..]), address + PageSize)
  {
  }

  /** Regrouping the bytes after one more page programmed: two more
      acknowledgements are consumed and the request `request` has moved
      from the pending part `request + rest` to the sent part. */
  lemma ProgramStep(rx: seq<byte>, rx0: seq<byte>, rx1: seq<byte>, done: nat,
                    sent0: seq<byte>, sent1: seq<byte>, request: seq<byte>, rest: seq<byte>)
    requires rx == Acks(2 * done) + rx0 && rx0 == Acks(2) + rx1
    requires sent1 == sent0 + request
    ensures rx == Acks(2 * (done + 1)) + rx1
    ensures sent0 + (request + rest) == sent1 + rest
  {
    AcksGrow(done, rx1);
  }

  /** Two more acknowledgements after `n` pairs make `n + 1` pairs. */
  lemma AcksGrow(n: nat, rest: seq<byte>)
    ensures Acks(2 * n) + (Acks(2) + rest) == Acks(2 * (n + 1)) + rest
  {
    AcksAppend(2 * n, 2);
  }

  /** When the stream holds `total` pairs of acknowledgements and `done` of
      them were consumed, the next two are there too. */
  lemma AcksStop(s: seq<byte>, rest: seq<byte>, done: nat, total: nat)
    requires done < total && s == Acks(2 * done) + rest && Acks(2 * total) <= s
    ensures Acks(2) <= rest
  {
    AcksAppend(2 * done, 2 * (total - done));
    AcksAppend(2, 2 * (total - done) - 2);
    AcksLength(2 * done);
    AcksLength(2);
    var k := 4 * done;
    var t := Acks(2 * total);
    assert t == Acks(2 * done) + (Acks(2) + Acks(2 * (total - done) - 2));
    assert t[k..k + 4] == Acks(2);
    assert rest[..4] == s[k..k + 4] == t[k..k + 4];
  }

  lemma {:induction false} AcksLength(n: nat)
    ensures |Acks(n)| == 2 * n
  {
    if n > 0 {
      AcksLength(n - 1);
    }
  }

  lemma {:induction false} AcksAppend(a: nat, b: nat)
    ensures Acks(a + b) == Acks(a) + Acks(b)
  {
    if a > 0 {
      AcksAppend(a - 1, b);
    }
  }
}
