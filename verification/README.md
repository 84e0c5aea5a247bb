# bull: a verified model of the bus firmware and its host tools

bull is a small multi-drop bus. Several units (AVR microcontrollers) share
one half-duplex serial line with a master, usually a PC. Every message on
the line is a frame:

    address, command, parameter, length, payload[length], checksum

The checksum is the 8-bit wrapping sum of everything before it. Address
0xFF is the broadcast address. Command 0x01 reads a parameter, 0x81 writes
one, and 0xFF marks an error reply. A unit checks each frame and answers
the reads and writes addressed to it. It stays silent on broadcasts unless
a handler decides the broadcast was meant for it. It also overhears the
search replies of other units.

Units that share an address are separated by a randomised search round:

- the master starts a round of N slots;
- each unit picks a slot with its entropy pool (a running SHA-256 fed with
  ADC noise, EEPROM bytes and timer jitter);
- the master polls every slot;
- the unit in that slot announces its next slot;
- every unit records the slots it overhears, so its next draw avoids them.

The master then renames units, identifying each one by the slot it
announced. A unit can also blink Morse text and read DS18B20 (1-Wire) and
DHT11 sensors. On the PC, `bull.py` frames requests and parses replies,
`searcher.py` runs search rounds and hands out free addresses, and
`flasher.py` loads an Intel HEX image through the bootloader.

The Dafny modules follow the source files:

| module | source | form |
|---|---|---|
| `Bytes` | shared | byte and bit types, Option/Result, wrapping sums, little-endian and bit packing |
| `Frame` | bull.c | frame predicates and the frame builder |
| `Node` | bull.c | class `Unit`: the protocol engine and its registers |
| `Search` | search.c | class `SlotTable`: the used-slot table and the slot draw |
| `Random` | random.c | class `Pool`: the entropy pool and rejection sampling |
| `Morse` | morse.c | class `Sequencer`: the blink buffer and the Morse encoder |
| `Therm` | therm_ds18b20.c | class `Bus`: the 1-Wire primitives, temperature reading and ROM search |
| `Dht` | dht11.c | class `Sensor`: the DHT11 handshake and 40-bit reading |
| `HostBull` | bull.py | class `Host`: request framing and reply parsing |
| `Flasher` | flasher.py | HEX parsing and class `Flasher`: page programming and read-back |
| `Searcher` | searcher.py | class `Searcher`: search rounds; address allocation |

Hardware is modelled as an oracle plus a counter, so each sample is taken
at a known index:

- the 1-Wire line and the DHT11 pin are functions `nat -> bit`;
- ADC samples and TCNT2 values are parameters;
- the serial port on the PC side is a byte sequence of incoming data plus
  a log of everything sent.

Everything a unit sends through `uart_putc` is appended to `Unit.out`.

## Model

| member | source | states |
|---|---|---|
| `Bytes.Sum8IsSumMod` | bull.py:26-30 | the byte-by-byte wrapping checksum equals the plain sum of the bytes modulo 256, as `checksum` computes it |
| `Bytes.Int16` | therm_ds18b20.c:123-125 | the two scratchpad bytes read as a signed 16-bit value lie in [-32768, 32768) and agree with the raw value modulo 65536 |
| `Bytes.LEFromLE` | bull.c:296-304 | a byte string read as a little-endian number and written back in as many bytes is unchanged, so an 8-byte device id given in a temperature request comes back as sent |
| `Bytes.LsbBitsRoundTrip` | therm_ds18b20.c:76-93 | a value below 2^n sent as n bits LSB first reads back as the same value |
| `Bytes.BitsRoundTrip` | therm_ds18b20.c:226-230 | bits assembled LSB first into a number split back into the same bits |
| `Frame.ChecksumOk` | bull.c:117-124 | `checksum_ok` accepts a frame exactly when its last byte is the wrapping sum of the bytes before it |
| `Frame.FrameWellFormed` | bull.c:164-190 | a frame built from address, command, parameter and a payload under 256 bytes is complete, passes the checksum, has length payload+5, and its header fields and payload read back unchanged |
| `Frame.IsBull` | bull.c:63-73 | defines frame completeness: at least five bytes, and at least the length byte plus five |
| `Frame.IsBullStable` | bull.c:63-73 | once a buffer holds a complete frame, appending further bytes keeps it complete |
| `Frame.SingleByteChangeDetected` | bull.c:117-124 | changing any single byte of a frame that passes the checksum makes it fail |
| `Node.EepromOffsetsDisagree` | bull.c:289-292 | a read of parameter 0x10-0x1F looks at EEPROM offset 0x20-0x2F, but a write of the same parameter stores at offset 1-0x10 (see bull.c:394-399): the two never meet |
| `Node.Emit` | bull.c:126-224 | a reply is empty exactly when replies are inhibited; otherwise it is a well-formed frame from the unit's address carrying the given command, parameter and payload |
| `Node.Payload` | bull.c:101 | the payload handed to the handlers has the length given in the frame's length byte, under 256 |
| `Node.Register` | bull.c:257-313 | a read has a plain register value exactly for the address, name, time, version, 1-Wire id and EEPROM-byte parameters; all other plain parameters get "Invalid parameter" |
| `Node.Unit.constructor` | bull.c:24-31 | the unit starts with address 0, replies allowed, the clock at 0, a cleared 1-Wire search state and nothing sent |
| `Node.Unit.Init` | bull.c:55-61 | the address is loaded from EEPROM offset 0, and an erased cell (0xFF) gives address 0 |
| `Node.Unit.Put` | uart.c:38-69 | the send buffer is modelled as the byte sequence the unit has sent: one byte is appended to it |
| `Node.Unit.PutHeader` | bull.c:175-182 | the four header bytes are sent from the unit's own address, and the running checksum is their wrapping sum |
| `Node.Unit.PutSummed` | bull.c:183-187 | the payload bytes are sent in order and the running checksum then covers everything sent in the frame so far |
| `Node.Unit.SendFrame` | bull.c:164-190 | exactly one complete frame is appended to the output |
| `Node.Unit.DataReply` | bull.c:164-190 | the reply to send is appended, or nothing when replies are inhibited |
| `Node.Unit.DataReply2` | bull.c:192-224 | two payload parts are sent as one frame whose payload is their concatenation, or nothing when inhibited |
| `Node.Unit.StringReply` | bull.c:126-162 | a text reply is a frame carrying the text, or nothing when inhibited |
| `Node.Unit.VerifyLength` | bull.c:315-321 | the gate passes exactly when the supplied length is the expected one, and otherwise sends an "Invalid length" error |
| `Node.Unit.HandleBull` | bull.c:75-115 | a frame that fails the checksum is refused with "Bad checksum" only when addressed to this unit (and silently when the previous frame left replies inhibited, as written), and nothing else changes; a foreign frame changes nothing except the used-slot table, which records a snooped search reply; a frame for this unit inhibits replies exactly when it is a broadcast no handler claims, dispatches reads and writes to their outcomes, refuses other commands with "Unhandled command", and feeds TCNT2 to the entropy pool last: the final stream is the one the request left (changed only by a slot draw, which follows `Search.Select`) followed by TCNT2 |
| `Node.Unit.Answer` | bull.c:95-114 | the handling of a frame for this unit: the inhibit flag, the dispatch outcome (a slot draw follows `Search.Select`), and the pool fed only by that draw and then the TCNT2 byte |
| `Node.Unit.RefuseChecksum` | bull.c:76-82 | a corrupt frame gets a "Bad checksum" error exactly when its address byte is this unit's address, unless replies are still inhibited from the previous frame |
| `Node.Unit.Snoop` | bull.c:84-93 | a search reply from another unit adds its announced slot to the used-slot table; any other foreign frame leaves the table alone |
| `Node.Unit.Dispatch` | bull.c:95-108 | a broadcast inhibits replies unless the handler claims it; a read or write ends in the outcome its parameter defines; any other command gets "Unhandled command" unless inhibited |
| `Node.Unit.HandleRead` | bull.c:257-313 | every read parameter ends in its defined outcome: a register value, a search poll, a 1-Wire action or an "Invalid parameter" error; only a one-byte poll of the selected slot lifts the inhibit flag |
| `Node.Unit.ReadRegister` | bull.c:258-270 | a register read replies with the register's value, or refuses the parameter, and changes nothing else |
| `Node.Unit.PollSlot` | bull.c:271-288 | a broadcast poll of this unit's selected slot redraws the announced slot from the pool (`Search.Select` over the recorded slots, so 0 or a slot of the round not recorded as taken) and announces it even though the poll was a broadcast; a poll addressed to this unit records the slot as taken; any other poll changes nothing |
| `Node.Unit.ReadTemperature` | bull.c:296-304 | an 8-byte payload selects that device id; the reply carries the signed temperature that the DS18B20 read produced, then the device id |
| `Node.Unit.TemperatureReply` | bull.c:298-303 | the reply carries the temperature read from the selected device as two little-endian bytes, then the 8-byte device id |
| `Node.Unit.ReadWireBit` | bull.c:305-308 | one bit is read from the 1-Wire line and sent back as the payload |
| `Node.Unit.HandleWrite` | bull.c:333-420 | every write parameter ends in its defined outcome; only a one-byte listen payload naming this unit or the broadcast address lifts the inhibit flag |
| `Node.Unit.WriteWire` | bull.c:400-415 | the 1-Wire writes (reset, search step, bit writes) send nothing while replies are inhibited |
| `Node.Unit.Listen` | bull.c:353-367 | a one-byte payload naming this unit or the broadcast address is acknowledged even on a broadcast; any other payload is ignored |
| `Node.Unit.WriteSetting` | bull.c:350-399 | a name write stores up to 15 bytes from EEPROM offset 1 without a reply; when the jump to the bootloader returns, a "Failed programming mode" error is sent; a time write takes a 4-byte little-endian value; a pixel stream must be a non-empty multiple of three; an EEPROM-byte write takes one byte; unknown parameters get "Invalid parameter" (see bull.c:416-418) |
| `Node.Unit.WriteAddress` | bull.c:335-349 | a two-byte address write is taken only when its second byte names the slot this unit announced and is otherwise silently ignored; a one-byte write is always taken; the new address is stored at EEPROM offset 0 and acknowledged from it; other lengths are refused |
| `Node.Unit.StartSearch` | bull.c:388-393 | a one-byte write starts a round of that many slots with an empty table, keeping the announced slot without touching the pool when it lies in the new round and redrawing it as `Search.Select` over the empty table otherwise; any other length is refused |
| `Node.Unit.ResetWire` | bull.c:400-403 | one reset pulse is sent and the sampled presence bit is the reply |
| `Node.Unit.WireSearch` | bull.c:404-410 | one ROM search step runs from the stored discrepancy mask, or from a cleared one when the payload is a single nonzero byte; the reply carries the found id and the new mask, under parameter 0x20 as written |
| `Node.Unit.SearchStep` | bull.c:404-409 | the search starts from a cleared mask when the payload is a single nonzero byte and from the stored one otherwise, and leaves the found id and new mask in the unit |
| `Node.Unit.WireBits` | bull.c:411-415 | every payload byte writes one bit, at the level of the payload's first byte, and the reply carries the count |
| `Search.UsedPrefix` | search.c:11-19 | the recorded slots, all nonzero, are the cells before the first zero cell |
| `Search.FirstZero` | search.c:60-65 | the index found is a zero cell with every cell before it nonzero, and None means no cell is zero |
| `Search.UsedPrefixIsPrefix` | search.c:11-19 | in a table whose empty cells all follow the filled ones, the recorded slots are exactly the cells before the first empty one |
| `Search.AddSlot` | search.c:58-69 | adding keeps the table's size: the slot goes into the first zero cell, and a full table is kept |
| `Search.AddSlotRecords` | search.c:58-69 | adding a slot to such a table keeps that shape and appends the slot to the recorded ones, unless the table is full or the slot is 0 |
| `Search.SlotInRound` | search.c:25 | a draw in [0, nr-1] plus one lies in the round [1, nr] |
| `Search.Select` | search.c:21-33 | defines `srch_select_next_slot` on the pool's stream: up to 64 draws of 1 plus a random integer up to `nr-1` (in 8 bits), stopping at the first slot not recorded, else 0 |
| `Search.SelectStep` | search.c:24-29 | one pass of the selection loop: a draw that gives nothing ends it with slot 0, a draw whose slot is not recorded ends it with that slot, and a recorded slot leaves the remaining draws to decide |
| `Search.Draws` | search.c:24-25 | up to n successive `rnd_integer` results; fewer than n only when the last call gave nothing, and every earlier one gave a value |
| `Search.SelectSound` | search.c:21-33 | a nonzero slot the selection announces is not recorded, it lies in the round [1, nr] when the round is not empty, and the pool's stream is only extended |
| `Search.SelectFirstFree` | search.c:24-29 | a nonzero slot the selection announces is the slot of the first draw, in the pool's order, that is not recorded; every earlier draw landed on a recorded slot |
| `Search.SelectGivesUp` | search.c:24-32 | in a round of at least one slot, slot 0 is announced only when every draw made (up to 64) landed on a recorded slot or the pool gave nothing |
| `Search.SlotTable.constructor` | search.c:5-9 | a new table records no slot, and selected and next are 0 |
| `Search.SlotTable.Taken` | search.c:11-19 | `srch_taken` answers exactly whether the slot is among the recorded ones |
| `Search.SlotTable.SelectNextSlot` | search.c:21-33 | the announced slot and the pool's stream afterwards are `Search.Select` of the old stream over the recorded slots with 64 tries (its properties are Search.SelectSound, Search.SelectFirstFree and Search.SelectGivesUp); the table, the round size and the selected slot are untouched |
| `Search.SlotTable.DrawOnce` | search.c:25-28 | one pass of the loop: the drawn slot is stored, and the pass ends the search exactly as `Search.Select` does with the same tries, or leaves the rest to the remaining tries on the new stream |
| `Search.SlotTable.Start` | search.c:35-42 | the table is emptied, the round gets the new size, an announced slot inside the round is kept without drawing, a slot of 0 or beyond the round is redrawn as `Search.Select` over the emptied table, and the announced slot becomes the selected one |
| `Search.SlotTable.ReadSlot` | search.c:44-52 | a poll of another slot returns nothing and changes nothing; a poll of the selected slot redraws the announced slot as `Search.Select` over the recorded slots and returns it, so it is 0 or a slot of the round not recorded as taken |
| `Search.SlotTable.IsUs` | search.c:54-56 | true exactly when the slot is the announced one |
| `Search.SlotTable.AddUsed` | search.c:58-69 | the slot goes into the first empty cell, and the recorded slots grow by it unless the table is full |
| `Random.BitLengthBounds` | random.c:54-62 | the bit length b of a positive number n satisfies 2^(b-1) <= n < 2^b |
| `Random.BitLengthOfByte` | random.c:54-62 | a byte has at most 8 significant bits |
| `Random.MaskCovers` | random.c:54-62 | the mask is the smallest all-ones cover of max: max <= mask <= 2*max |
| `Random.FirstAccepted` | random.c:66-73 | defines the scan of one digest: the first byte, in order, that is at most `max` once masked, or None |
| `Random.FirstAcceptedBounded` | random.c:64-74 | a byte the sampler accepts from a digest is at most max |
| `Random.Draw` | random.c:64-74 | defines the sampling loop with at most `fuel` digests: each digest is the hash of the stream and feeds its first two bytes back; the value is the first accepted masked byte, or None once the digests are used up |
| `Random.DrawBounded` | random.c:64-74 | a drawn integer is at most max |
| `Random.DrawFeedsBack` | random.c:38-47 | each digest consumed by a draw feeds two bytes back into the pool, so a draw only extends the fed stream, and a successful draw always extends it |
| `Random.Pool.constructor` | random.c:9-12 | a new pool has been fed nothing |
| `Random.Pool.Feed` | random.c:34-36 | the bytes are appended to the stream the hash runs over |
| `Random.Pool.FeedFromAdc` | random.c:22-32 | each ADC sample is fed as its two bytes, low byte first |
| `Random.Pool.Init` | random.c:11-20 | the pool is seeded with 32 ADC samples and then the first 32 EEPROM bytes |
| `Random.Pool.Read` | random.c:38-47 | the digest is the hash of everything fed so far, and its first two bytes are fed back |
| `Random.Pool.Integer` | random.c:49-76 | max 0 gives 0 without touching the pool; otherwise the result is the masked rejection draw over successive digests, never above max; the result and the new stream are `Random.IntegerDraw` of the old stream |
| `Random.IntegerDraw` | random.c:49-76 | the value one `rnd_integer(max)` call gives is at most max, and the call only extends the pool's stream |
| `Random.MaskOf` | random.c:57-62 | the number of right shifts that bring max to zero is its bit length b, and the mask built from it, 2^b - 1, is the all-ones mask of that length (the smallest all-ones cover of max, by Random.MaskCovers) |
| `Random.FirstAcceptable` | random.c:66-72 | the scan of one digest returns its first masked byte not above max, or nothing |
| `Random.AdcBytes` | random.c:22-32 | n samples give 2n bytes |
| `Morse.Pattern` | morse.c:111-176 | defines the table: the marks of each letter (either case), digit and punctuation sign, a gap for a space, and None for anything else |
| `Morse.DecodeSignals` | morse.c:92-107 | the blink patterns of dot, dash and gap form a prefix code: any mark sequence can be decoded back from its blinks |
| `Morse.OfferFills` | morse.c:69-72 | offering bits to a buffer stores the longest prefix that fits in 256 bits and drops the rest |
| `Morse.OfferAppend` | morse.c:69-90 | offering two bit strings one after the other stores the same as offering their concatenation |
| `Morse.SignalsAppend` | morse.c:109-180 | the blinks of two mark sequences are the concatenation of their blinks |
| `Morse.PackAppend` | morse.c:77-85 | setting bit `len % 8` of byte `len / 8`, MSB first and clearing a fresh byte, appends the bit to the packed buffer and changes no earlier bit |
| `Morse.CharSignalOf` | morse.c:109-180 | a character's blinks are its marks' blinks followed by a gap |
| `Morse.MessageSplit` | morse.c:182-195 | a message is its characters' blinks followed by two more gaps |
| `Morse.MaskTest` | morse.c:24-25 | testing bit k of a byte by shifting and masking agrees with testing it with a mask |
| `Morse.Sequencer.constructor` | morse.c:4-9 | a new sequencer holds no bits |
| `Morse.Sequencer.Init` | morse.c:11-14 | the buffer is emptied and repeat is on |
| `Morse.Sequencer.GetLed` | morse.c:16-26 | the LED shows the stored bit at the current position, and is off past the end |
| `Morse.Sequencer.Tick` | morse.c:28-46 | the LED shows the current bit, the position advances, and it wraps to 0 after the last bit only when repeat is on; past the end nothing moves |
| `Morse.Sequencer.Repeat` | morse.c:48-57 | repeat takes the new setting, and switching it on after the end restarts at 0 |
| `Morse.Sequencer.Restart` | morse.c:59-61 | the position goes back to 0 |
| `Morse.Sequencer.Clear` | morse.c:63-66 | the stored bits and the position are cleared; repeat is kept |
| `Morse.Sequencer.Add` | morse.c:69-90 | one bit is appended exactly when fewer than 256 are stored, and the result says whether it was |
| `Morse.Sequencer.WriteState` | morse.c:77-85 | the buffer byte gets the bit OR-ed in at its MSB-first position, starting from 0 on a fresh byte |
| `Morse.Sequencer.Dot` | morse.c:92-95 | a dot stores its on/off pattern, cut at capacity, and reports whether it fitted whole |
| `Morse.Sequencer.Dash` | morse.c:97-102 | a dash stores its on/off pattern, cut at capacity, and reports whether it fitted whole |
| `Morse.Sequencer.Space` | morse.c:104-107 | a gap stores its off pattern, cut at capacity, and reports whether it fitted whole |
| `Morse.Sequencer.Mark` | morse.c:92-107 | one mark's blinks are offered, cut at capacity, and the result says whether they fitted whole |
| `Morse.Sequencer.Marks` | morse.c:112-173 | the blinks of a character's marks, in order, are offered, cut at capacity |
| `Morse.Sequencer.Character` | morse.c:109-180 | a letter or digit (either case) stores its Morse pattern and a gap; success means the character is known and its pattern fitted |
| `Morse.Sequencer.SayP` | morse.c:182-195 | the text replaces the buffer with the message's blinks cut at capacity (all of them when they fit), and playing restarts at 0 |
| `Therm.TemperatureReadSteps` | therm_ds18b20.c:95-128 | a temperature read is a conversion followed by a query of the same device |
| `Therm.TemperatureAt` | therm_ds18b20.c:123-125 | the temperature read from the scratchpad is a signed 16-bit value |
| `Therm.ByteRoundTrip` | therm_ds18b20.c:76-93 | a byte written LSB first and read back LSB first is the same byte |
| `Therm.BitsOfAssembledByte` | therm_ds18b20.c:76-84 | eight bits shifted in from the top form a byte whose bits are those eight |
| `Therm.ShiftInStep` | therm_ds18b20.c:80-81 | shifting right and OR-ing the new bit into bit 7 assembles the bits read so far, LSB first |
| `Therm.SearchEvents` | therm_ds18b20.c:155-231 | each ROM bit costs three bus slots (read, read complement, write) |
| `Therm.AllZero` | therm_ds18b20.c:184 | the discrepancy mask is all zero exactly when its value is 0 |
| `Therm.BelowMeansLess` | therm_ds18b20.c:205 | no mask bit at or above k exactly when the mask's value is below 2^k |
| `Therm.Decide` | therm_ds18b20.c:160-224 | defines one position of `therm_search`: the branch taken and the mask after it, or None when nothing answered |
| `Therm.DecideAgreed` | therm_ds18b20.c:218-224 | when bit and complement differ every device agrees and that bit is taken; when both are 1 nothing answered |
| `Therm.DecideRecordsBranch` | therm_ds18b20.c:160-217 | on a discrepancy the chosen branch is written into the mask at that position and no other mask bit changes; branch 1 is taken exactly when the mask says to continue down the 1 side |
| `Therm.Walk` | therm_ds18b20.c:155-233 | defines the 64-position search loop from a given position: the chosen bits, the mask, and the device id or no device |
| `Therm.WalkWritesId` | therm_ds18b20.c:226-230 | a finished search's id is the 64 chosen bits, LSB first; an abandoned search reports no device |
| `Therm.WalkExtends` | therm_ds18b20.c:155-233 | the search only extends the bits chosen so far, and a finished search chose all 64 |
| `Therm.SingleDeviceFound` | therm_ds18b20.c:130-234 | with exactly one device on the line, a search from any mask finds that device's ROM id |
| `Therm.Bus.ResetPulse` | therm_ds18b20.c:8-28 | a reset pulse samples the presence bit once |
| `Therm.Bus.WriteBit` | therm_ds18b20.c:30-49 | one write slot carrying the bit is logged |
| `Therm.Bus.ReadBit` | therm_ds18b20.c:51-74 | one read slot samples the line once |
| `Therm.Bus.ReadByte` | therm_ds18b20.c:76-84 | eight read slots assemble the byte sampled LSB first |
| `Therm.Bus.WriteLsbFirst` | therm_ds18b20.c:111-113 | the value's low n bits are written LSB first |
| `Therm.Bus.WriteByte` | therm_ds18b20.c:86-93 | a byte is written as eight bits, LSB first |
| `Therm.Bus.ReadTemperature` | therm_ds18b20.c:95-128 | a temperature read starts a conversion, waits for it to end, addresses the device and reads the signed temperature from the scratchpad |
| `Therm.Bus.Query` | therm_ds18b20.c:106-127 | the device is addressed and the temperature is read from its scratchpad |
| `Therm.Bus.ReadScratchpad` | therm_ds18b20.c:123-126 | two bytes are read and combined into the signed temperature |
| `Therm.Bus.Convert` | therm_ds18b20.c:98-104 | skip-ROM and convert are sent, then the line is polled until it first reads 1 |
| `Therm.Bus.AwaitConversion` | therm_ds18b20.c:104 | polling stops at the first 1 read from the line |
| `Therm.Bus.Select` | therm_ds18b20.c:106-121 | a reset is followed by match-ROM and the id, or by skip-ROM when no id is given |
| `Therm.Bus.Address` | therm_ds18b20.c:108-120 | the ROM command is followed by the 64 id bits when an id is given |
| `Therm.Bus.Search` | therm_ds18b20.c:130-234 | with no presence pulse the search reports no device and keeps the mask; otherwise it sends search-ROM and runs the bit walk, returning its id and new mask |
| `Therm.Bus.Probe` | therm_ds18b20.c:156-224 | reading a bit and its complement decides the next search step |
| `Therm.Bus.Descend` | therm_ds18b20.c:155-233 | the search loop performs the bit walk and logs its reads and writes |
| `Dht.ChecksumOk` | dht11.c:27-39 | defines the reading's check: the sum of the first four bytes, wrapped to 8 bits, equals the fifth |
| `Dht.ChecksumIsBusChecksum` | dht11.c:27-39 | the sensor's checksum rule is the bus rule: the fifth byte is the wrapping sum of the first four |
| `Dht.MsbBitsRoundTrip` | dht11.c:63-77 | bits assembled MSB first split back into the same bits |
| `Dht.PackNothing` | dht11.c:44 | the reading buffer starts as five zero bytes |
| `Dht.PackSnoc` | dht11.c:75-76 | receiving one more bit shifts it into the current byte and leaves the other bytes alone |
| `Dht.PackMsbFirst` | dht11.c:63-77 | each byte of a full reading holds its eight bits, MSB first |
| `Dht.AwaitMeans` | dht11.c:6-25 | a wait ends at the first sample showing the level, or times out having never seen it |
| `Dht.ReceiveCodes` | dht11.c:63-77 | the bit loop only extends the bits received, succeeds exactly when all 40 arrived, and otherwise stops with a missing start bit or rising edge |
| `Dht.Exchange` | dht11.c:41-84 | defines a reading from a sampled line: no response when the line is not low, no release when it never goes high, then forty bits received, and a bad checksum over the packed bytes |
| `Dht.ExchangeCodes` | dht11.c:41-84 | success means 40 bits with a good checksum; a bad checksum means 40 bits with a wrong one; a failed handshake leaves the buffer zero |
| `Dht.ReadsWhatIsSent` | dht11.c:41-84 | when the sensor sends 40 bits with the expected timing, the read returns exactly those bits and the code follows the checksum |
| `Dht.Sensor.Sample` | dht11.c:6-25 | one pin sample is taken |
| `Dht.Sensor.Wait` | dht11.c:6-25 | the wait polls the pin until it shows the level or times out, as the wait function defines |
| `Dht.Sensor.Read` | dht11.c:41-84 | the code, the samples taken and the buffer are those of the exchange the sensor's signal defines |
| `Dht.Sensor.ReceiveBits` | dht11.c:63-78 | the bit loop leaves the packed bits received and the code at which it stopped |
| `Dht.Sensor.ReceiveBit` | dht11.c:64-76 | one bit round either yields a bit shifted into the buffer or stops with an error code and leaves the buffer alone |
| `Dht.Sensor.ShiftIn` | dht11.c:75-76 | shifting a bit into byte `i/8` leaves the buffer as the MSB-first packing of the bits so far plus the new bit |
| `HostBull.Parse` | bull.py:51-76 | a reply is ok exactly when it passes the checksum, its length byte matches and it is not an error reply; the fields are the reply's bytes |
| `HostBull.Respond` | bull.py:41-89 | fewer than five bytes give nothing, or the raw bytes with full data; otherwise the parsed reply, or just its payload |
| `HostBull.Arrived` | bull.py:42-59 | the reply taken from the line is five header bytes plus as many payload bytes as the length byte asks, or whatever arrived before the timeout |
| `HostBull.ReadRequest` | bull.py:91-94 | a read request exists exactly for byte-sized address and parameter and a payload under 256 bytes, and is then the read frame |
| `HostBull.Wrap` | bull.py:100-101 | a byte string is sent as it is; a number becomes one byte and must fit in one |
| `HostBull.WriteRequest` | bull.py:99-103 | a write request exists exactly when its fields fit in bytes, and is then the write frame of the wrapped value |
| `HostBull.RequestsAreFrames` | bull.py:91-103 | every request the host sends is a complete frame with a correct checksum that carries the given address, command, parameter and data |
| `HostBull.ReplyRoundTrip` | bull.py:41-89 | a frame a unit sends (bull.c:164-190) is taken off the line whole, whatever follows it, and parses back to its own fields |
| `HostBull.OkReplyIsFrame` | bull.py:62-76 | a reply parsed as ok is exactly the frame built from its fields, and not an error reply |
| `HostBull.Host.Checksum` | bull.py:26-30 | the unbounded sum reduced modulo 256 is the wrapping byte sum of the data |
| `HostBull.Host.Check` | bull.py:51-76 | the fields and the cleared-on-failure `ok` flag are those of the reference parse: ok exactly when the checksum and length check and the command is not the error command |
| `HostBull.Host.SerialRead` | bull.py:41-89 | one reply is taken off the line and interpreted, and the rest stays for the next read |
| `HostBull.Host.Read` | bull.py:91-97 | a valid request sends the read frame and returns the next reply; an invalid one sends nothing |
| `HostBull.Host.Write` | bull.py:99-106 | a valid request sends the write frame and returns the next reply; an invalid one sends nothing |
| `Flasher.HexValue` | flasher.py:162 | a hex digit has a value below 16 |
| `Flasher.FromHex` | flasher.py:162 | decoded hex text gives at most half as many bytes as characters |
| `Flasher.XorFlipsByte` | flasher.py:163 | XOR with 0xFF of a byte is 255 minus it |
| `Flasher.RecordChecksumZeroSum` | flasher.py:163-164 | a record's checksum byte matches exactly when all its bytes sum to 0 modulo 256 |
| `Flasher.Step` | flasher.py:160-185 | a line is accepted only before the EOF record, when it starts with a colon and decodes to at least four bytes |
| `Flasher.Parsed` | flasher.py:159-186 | a parse failure names the line it happened on |
| `Flasher.StepRecord` | flasher.py:160-185 | a bad checksum fails; the EOF record ends the file; a start-segment record is ignored; other unknown record types fail |
| `Flasher.StepData` | flasher.py:170-179 | a data record is taken exactly when it does not go back and its length byte is right; it extends the image, filling any gap with 0xFF, and the first record fixes the start address |
| `Flasher.FailureFinal` | flasher.py:159-186 | once a line fails, later lines do not change the outcome |
| `Flasher.NothingAfterEof` | flasher.py:160 | any line after the EOF record is an error |
| `Flasher.ReadHex` | flasher.py:154-186 | the loop computes the image the record rules define |
| `Flasher.ReadLine` | flasher.py:160-185 | one line is handled as the record rules define |
| `Flasher.HeadersRoundTrip` | flasher.py:119-152 | the load-address bytes give back the word address, and the size bytes give back the block size |
| `Flasher.CheckReply` | flasher.py:87-96 | a reply is accepted exactly when it has the asked length, when one is asked, starts in sync and ends OK |
| `Flasher.PagesCover` | flasher.py:213-220 | the 128-byte pages cover the image in order, and there are ceil(len/128) of them |
| `Flasher.ServedSnoc` | flasher.py:194-198 | the replies to reading the pages of an image, one after another, are the page replies in order |
| `Flasher.Flasher.Read` | flasher.py:87-96 | the bytes read are the asked length (512 when none) or what arrived, and the reply is checked |
| `Flasher.Flasher.Ack` | flasher.py:125 | the two-byte acknowledgement is accepted exactly when it is in-sync followed by OK |
| `Flasher.Flasher.SendLoadAddress` | flasher.py:121-124 | the load-address command carries the word address |
| `Flasher.Flasher.SendProgramPage` | flasher.py:128-134 | the program-page command carries the block size, memory type and the data |
| `Flasher.Flasher.SendReadPage` | flasher.py:146-150 | the read-page command carries the block size and memory type |
| `Flasher.Flasher.ProgramPage` | flasher.py:119-135 | programming a page succeeds exactly when both steps are acknowledged, and then the load-address and program-page commands were sent |
| `Flasher.Flasher.ReadPage` | flasher.py:137-152 | reading a page succeeds exactly when the bootloader acknowledged and served the page; the page read is the served bytes without the sync and OK bytes |
| `Flasher.Flasher.Leave` | flasher.py:83-85 | leaving sends the quit command and succeeds exactly when the reply (up to 512 bytes) checks; that reply is consumed and the rest of the input stays on the line |
| `Flasher.Flasher.WriteHex` | flasher.py:209-223 | a bad HEX file fails before anything is sent; otherwise each page is programmed from address 0, then programming mode is left; it succeeds exactly when every page is acknowledged twice and the quit reply after those acknowledgements checks, and the input left on the line is what follows that reply |
| `Flasher.Flasher.ProgramImage` | flasher.py:213-220 | the image is programmed page by page, and this succeeds exactly when every page was acknowledged |
| `Flasher.Flasher.Validate` | flasher.py:188-207 | a bad HEX file fails before anything is sent; otherwise the flash is read back page by page and returned beside the image; a success means the pages were served in order, the quit reply after them checks, and the input left on the line is what follows that reply |
| `Flasher.Flasher.ReadImage` | flasher.py:191-198 | a successful read-back has the image's length and consumed exactly the page replies |
| `Searcher.PollsInOrder` | searcher.py:23-24 | a round polls slots 0 to n-1 in order, one poll frame each |
| `Searcher.Classify` | searcher.py:32-44 | defines `read_slot`'s verdict: a unit when the reply is ok and carries exactly one byte, its next slot |
| `Searcher.SlotReplyRecognised` | searcher.py:32-50 | a unit's slot reply (bull.c:271-288) is recognised as that unit with its announced slot |
| `Searcher.ClassifiedIsFrame` | searcher.py:37-43 | a recognised unit came from a correct six-byte frame with a one-byte payload |
| `Searcher.Next` | searcher.py:35 | each poll consumes exactly one reply from the line |
| `Searcher.FoundFromReplies` | searcher.py:19-27 | the units found are at most one per slot, and each comes from the reply to one of the polls |
| `Searcher.Searcher.constructor` | searcher.py:12-17 | a searcher needs a round of 5 to 255 slots |
| `Searcher.Searcher.Start` | searcher.py:29-30 | starting a round broadcasts a write of the slot count and takes one reply |
| `Searcher.Searcher.ReadSlot` | searcher.py:32-50 | a slot read sends the poll, takes one reply and classifies it |
| `Searcher.Searcher.Search` | searcher.py:19-27 | a search starts the round and polls every slot from 0 to the slot count, collecting the units found in order |
| `Searcher.Searcher.PollSlots` | searcher.py:23-26 | the loop sends every poll in order and keeps each unit found |
| `Searcher.FreeId` | searcher.py:87 | the suggested address is the smallest one below 255 not yet used, and there is none exactly when all are used |
| `Searcher.FreeFrom` | searcher.py:87 | the smallest unused address from a given start |
| `Searcher.Initial` | searcher.py:83-84 | the used list starts as the ignored addresses followed by 0 |
| `Searcher.Assign` | searcher.py:85-94 | defines one turn of the allocation: a used address gets the smallest free one and a rename frame, a new one is recorded, and exhaustion stops further changes |
| `Searcher.AllocationDistinct` | searcher.py:82-94 | the addresses the allocation settles on are distinct and never 0; each unit gets one until the addresses run out; every rename is to an address below 255 |
| `Searcher.AllocatePrefix` | searcher.py:83-94 | the used list only grows |
| `Searcher.SmallestFree` | searcher.py:87-88 | the search for the first free address finds the smallest unused one |
| `Searcher.Autoset` | searcher.py:82-94 | the used list and the rename frames sent are those the allocation defines, and it fails only when addresses run out |
| `Searcher.AllocateStops` | searcher.py:88 | once addresses run out, later units change nothing |

## Left out

- Serial I/O on the unit (uart.c), the RS-485 direction switching and the
  SPI and addressable-LED drivers (spi.c, ws2812b_led.c) are not part of
  this model. A reply is the byte sequence appended to `Unit.out`, and a
  pixel write is modelled only by its length check and reply.
- `ignore_traffic` (bull.c:323-331), the programming-mode jump and
  hardware.c, eeprom.c and main.c are not part of this model. The EEPROM
  is a byte sequence of at least 0x30 bytes; the main loop that collects
  bytes and calls `is_bull` and `handle_bull` is not modelled.
- Node.Unit.HandleBull: requires a complete frame. `handle_bull` is only
  called once `is_bull` accepted the buffer, and that caller is not part of
  this model.
- Node.Unit.HandleBull, Node.Unit.Answer, Node.Unit.Dispatch,
  Node.Unit.HandleRead, Node.Unit.HandleWrite: for the 1-Wire parameters
  (0x20-0x23) these state only that the address, EEPROM, clock and slot
  table are kept and that nothing is sent while inhibited. The exact bus
  traffic and replies are stated on Node.Unit.ResetWire, Node.Unit.WireSearch,
  Node.Unit.WireBits, Node.Unit.ReadWireBit and Node.Unit.ReadTemperature.
- Node.Unit.WriteSetting: the jump to the bootloader (`programming_mode`,
  hardware.c:54-60) is treated as returning, so a programming-mode write
  always sends the "Failed programming mode" error. On the unit all normal
  execution stops at the jump, and that reply is only sent if it returns.
- Node.Unit.WriteWire: states only that nothing is sent while inhibited;
  each branch's contract is on the method it calls.
- Node.Unit.StringReply: takes the message without its terminating NUL and
  requires it to be under 256 bytes. The loop that counts up to the NUL,
  stopping at 255, is not modelled: every message of the firmware is
  shorter than 255 bytes and has no NUL inside, so the count is the
  message's length.
- The version reply carries the version text as an opaque byte string;
  version.h is not part of this model.
- Random.Pool.Integer: `rnd_integer` loops until a byte is accepted. The
  model draws at most `budget` digests per call and returns None when they
  are used up. Search.SlotTable.SelectNextSlot treats None like its own
  exhaustion, with slot 0.
- SHA-256 (sha256.c) is an uninterpreted function `hash` from the fed byte
  stream to a 32-byte digest. Nothing about its distribution is modelled,
  so the uniformity of `rnd_integer` is not stated.
- With a round of 0 slots, `srch_nr_slots - 1` wraps to 255 in 8 bits;
  this is modelled as written.
- Timing is not modelled. Delays, the microsecond slot timing of the 1-Wire
  and DHT11 lines and the 250 ms and 100 ms serial timeouts on the PC are
  left out. A timeout becomes "fewer bytes arrived than asked".
- Therm.Bus.ReadTemperature and Node.Unit.ReadTemperature: require that
  the line eventually reads 1 after the conversion starts, and so do the
  handlers that reach them for a temperature read. The source would
  otherwise wait for ever.
- In `therm_search`, `L_ONE << 64` at the last bit position is read as
  2^64, so the comparison with the mask never cuts off bit 63.
- Morse.Sequencer.SayP: requires a text under 256 characters without NUL,
  since the index is a `uint8_t` and the text is NUL-terminated.
- On the PC side, argparse, printing and `time.sleep` are left out. So are
  the bootloader handshake (`__init__`, `enter_programming_mode`,
  `read_bootloader_version`) and the searcher's command-line script: its
  rounds loop, and the `b.write(address, 0x03)` call that passes no value.
  `Bull.write` requires a value, so that call raises a TypeError as soon
  as an ignored address is given; Searcher.Autoset with a non-empty
  ignored list therefore models a path the script never reaches.
  The `assert`s of flasher.py become `Err` results. In searcher.py, the
  range check on `nr_slots` (searcher.py:14) is the requires of
  Searcher.Searcher.constructor, and the `isinstance` check (searcher.py:13)
  is left out, since the type system already gives a host.
- Flasher.Flasher.Read: a length of 0 is treated like no length (512 bytes),
  as `length or 512` does.
- Flasher.FromHex: only ASCII whitespace is stripped around the hex text.
- HostBull.Wrap: a value that is neither bytes nor an int (a Python
  TypeError) is not modelled.
- Flasher.RecordChecksum: `^ 0xFF` is written as 255 minus the byte; the
  two agree by Flasher.XorFlipsByte.
- Flasher.Flasher.WriteHex: the image is written from
  address 0 whatever start address the HEX file gives, as the source does.
- Flasher.Flasher.ReadImage and Flasher.Flasher.Validate: state what a
  successful read-back sent and consumed, not when it fails. The comparison
  in `validate` only prints, so it is not modelled.
- HostBull.Host.SerialRead: without `full_data` the payload is returned
  even when the reply is not ok, as the source does.
- serialbus.py and port.py are not part of this model.
- The searcher's `used` list holds the ignored addresses as strings, as
  `args.ignored` does. So a string never equals a unit's numeric address.
