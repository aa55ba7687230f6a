# Nucci: a verified model of the firmware's algorithms and protocols

Nucci is the firmware of a Geiger counter on an STM32F4. This project models the parts of it in
which a mistake is expensive and hard to see, and proves what they are for:

- **Bootloader and upload** (`Flash`, `Image`, `ImageCheck`, `BootMachine`, `BootSafety`, `BootConvergence`,
  `BootProgram`, `Upload`). Two flash regions, main and storage; an upgrade that survives a power
  failure at every point, also in the middle of an erase; the program `boot.cpp` refines the machine.
- **CRC engines** (`Words16`, `Crc16`, `Crc16Tables`, `CrcErrors`, `CrcEngines`, `Words32`, `Crc32`,
  `CrcUnit`). One bit at a time is the definition; the tables, the split tables and the CRC unit of
  the processor refine it, and its linearity gives error detection for messages of any length.
- **Modbus RTU** (`Bytes`, `Digits`, `ModbusData`, `ModbusProtocol`, `ModbusServe`, `ModbusWire`,
  `ModbusMeaning`, `FrameErrors`, `ModbusServer`, `ModbusClient`). A client node and a server node
  with their own buffers on a lossless line. `Execute` is the direct operation on the register
  tables; every call is that. `ModbusMeaning` says what it does to each cell, and what each frame is
  as numbers, in terms of binary digits and literal codes alone.
- **Parameter store and register walk** (`ParamBytes`, `Params`, `ParamSystem`, `Eeprom`,
  `ParamStore`, `RegisterWalk`). Values to bytes, a sealed blob, EEPROM pages, and back.
- **Rasterisers** (`Pixels`, `Line`, `Circle`, `Triangle`). Incremental loops against closed forms.
- **Rings** (`EthRing`, `EthDriver`, `LogRing`, `LogWriter`). Ownership and order in every
  interleaving of the processor with a DMA engine or an interrupt.
- **Numeric loops** (`Calendar`, `Rtc`, `SigmaDelta`).

Code that works step by step is modelled by classes and loops over arrays; each such method is
proved equal to a function, and the lemmas are about the function. Bytes are 8-bit vectors.
Machine integers are mathematical integers; where the width of a variable matters it is a subset
type (`int16`), a remainder (`Word32`), or a bound that is proved to be kept.

## Where the code does less than it seems to promise

Each of these is proved with its exact condition.

- `crc32_posix` on fewer than four bytes is not CRC-32: lines 74-75 of `crc32.h` write a word to the
  unit instead of using its reset value (`CrcUnit.PosixIsCrc32`).
- A write-and-read request whose write starts below the register table is not refused:
  `modbus.c:860-863` tests the read address twice (`ModbusServe.ServerIsFaithful`).
- `Eep24AA::write` fills 16 bytes from any address, so a write that is not page-aligned wraps back
  over earlier bytes of its page (`Eeprom.WriteExactIff`, `Eeprom.WriteWrapsBack`).
- `_write` counts one byte too many as free, and can loop for ever (`LogWriter.LoopEndsIff`,
  `LogWriter.AllWaitingIff`); bytes handed to the UART are protected only by their distance
  (`LogRing.HeadroomIff`).
- The Ethernet driver tests only the first descriptor of a long frame and never clears its
  first/last flags (`EthRing.PrepareExactIff`, `EthRing.MarkedIff`).
- `rtc_setTime` does not test lower bounds (`Rtc.ReadBackIff`); `tmToUnixTime` counts seconds of
  whole days in 32 bits (`Rtc.UnixTimeIsTimegmIff`).
- The modulator's accumulator has no bound for inputs above 7680 (`SigmaDelta.InputAllowedIff`).
- A line drawn backwards may differ from the line drawn forwards where the ideal point lies halfway
  between two pixels (`Line.LineReversed`).

## Model

| member | source | states |
|---|---|---|
| Flash.SectorHoldsAddress | NucciF/drivers/src/flash.c:71-79 | the sector computed from an address is the one that contains it; a 128K-aligned address above the small sectors selects exactly its own 128K |
| Flash.Memory.ErasePage | NucciF/drivers/src/flash.c:68-86 | erasing blanks exactly the sector of the address and nothing else |
| Flash.Memory.Write | NucciF/drivers/src/flash.c:94-112 | the copy programs every byte of the range, clearing bits only, and nothing else |
| Image.CheckReadsOnlyTheImage | NucciF/boot.cpp:80-94 | the image check, the version comparison and the entry offset depend only on the first `size` bytes |
| ImageCheck.PassesIff | NucciF/boot.cpp:80-94 | an image passes exactly when bytes 8 to 11 are 87 25 23 36, its size is usable, and its first four bytes are, lowest first, the CRC-32 of eight zero bytes and the rest of it |
| ImageCheck.WrongByteFails | NucciF/boot.cpp:88-93 | an image that passes no longer does with any one byte of it changed, stored CRC, magic or content, but for the size field |
| ImageCheck.OneByteDetected | NucciF/drivers/include/crc32.h:63-96 | one wrong byte changes the CRC-32 of a message of any length |
| ImageCheck.SameReleaseIff | NucciF/boot.cpp:40-43 | two images are of one release exactly when the CRC field and the three version numbers agree |
| BootSafety.StepKeeps | NucciF/boot.cpp:36-72 | every step of the bootloader, every power failure between or inside flash operations and every upload keeps the upgrade invariant, and a bootable image if there was one |
| BootSafety.RunInvariant | NucciF/boot.cpp:36-72 | the invariant holds in every state of every run from any readable flash |
| BootSafety.AlwaysBootable | NucciF/boot.cpp:36-72 | once main or storage holds a good image, one of them does in every later state of every run |
| BootSafety.OnlyGoodImagesRun | NucciF/boot.cpp:69-72 | control is transferred only to a main image with the magic bytes, a usable size and the CRC-32 of its content in its first four bytes, at the offset its header names |
| BootSafety.NeverBothAtRisk | NucciF/boot.cpp:51-67 | storage changes only while main is good and main is left alone; main changes only while storage is good and storage is left alone |
| BootConvergence.Boot | NucciF/boot.cpp:25-75 | an undisturbed boot always ends, running or halted, with the invariant kept |
| BootConvergence.BootUpgrades | NucciF/boot.cpp:51-72 | an undisturbed boot that upgrades leaves the image in main, both regions otherwise blank, nothing else changed, and runs it |
| BootConvergence.BootWithoutUpgrade | NucciF/boot.cpp:36-49 | a boot that does not upgrade changes no flash and runs exactly when main is good |
| BootConvergence.HeaderDecides | NucciF/boot.cpp:36-49 | with two good images a boot leaves the flash alone exactly when the stored CRC and the three version numbers agree, and otherwise main ends with the storage image |
| BootConvergence.BootOutcome | NucciF/boot.cpp:36-72 | a program is started, at the entry in its header, exactly when either image is good; a bad stored image changes nothing and a good one replaces a bad main |
| BootConvergence.SecondBootIsQuiet | NucciF/boot.cpp:25-75 | the boot after an upgrade changes no flash and ends in the same state |
| BootConvergence.UpgradeIsNotLost | NucciF/boot.cpp:36-72 | however often power fails between steps, what finally runs is good and has the CRC and the three version numbers of the good stored image, and the device never halts |
| BootProgram.Bootloader.ImageCrcAt | NucciF/boot.cpp:88-92 | the two chained calls give the CRC-32 of the image with its first eight bytes zero |
| BootProgram.Bootloader.CheckProgram | NucciF/boot.cpp:80-94 | the program's check, through the CRC unit, is the image check |
| BootProgram.Bootloader.CopyImage | NucciF/boot.cpp:58 | the copy from storage to main is the machine's programming phase, byte by byte |
| BootProgram.Bootloader.Upgrade | NucciF/boot.cpp:51-67 | the upgrade block performs the machine's erase, program, verify and erase phases |
| BootProgram.Bootloader.BootMain | NucciF/boot.cpp:25-75 | the whole program leaves the flash and the outcome of the machine's undisturbed boot |
| Upload.SplitIntoRecords | NucciF/scripts/nucci.py:98-107 | the loader's loop produces the image in numbered slices of 128 bytes, the last one shorter |
| Upload.AnyOrderAnyRepeats | NucciF/scripts/nucci.py:102-107 | the records of an image, in any order and with any repeats, turn a blank region into the image followed by 0xFF |
| Upload.Receiver.FileRecord | NucciF/portfreemodbus/src/porttcp.cpp:130-156 | a record is accepted exactly when it addresses file 1 and lies in the storage region, and then programs exactly its bytes |
| Upload.Receiver.EraseStorage | NucciF/portfreemodbus/src/porttcp.cpp:158-172 | the conditional erase loop leaves the whole storage region blank and nothing else changed |
| Upload.Receiver.ReceiveAll | NucciF/portfreemodbus/src/porttcp.cpp:130-156 | receiving all records leaves storage as the image then blank, and main unchanged |
| Upload.UploadThenBoot | NucciF/boot.cpp:51-72 | an uploaded image that differs from what runs is, after one boot, byte for byte in main; the next boot changes nothing |
| Crc16.StepsXor | NucciF/utils/src/crc.c:27-32 | the bitwise CRC register is linear |
| Crc16.TableForm | NucciF/utils/src/crc.c:27-32 | eight steps shift the high byte down and pass only the low byte through the polynomial |
| Crc16.ResidueZero | NucciF/prmsystem/src/prmSystem.cpp:78 | a message followed by two bytes has CRC zero exactly when they are its own CRC, low byte first |
| Crc16.CheckValue | NucciF/utils/src/crc.c:21-35 | of the digits 1 to 9 it is 0x4B37, the published check value |
| Crc16Tables.TableEntry | NucciF/utils/src/crc.c:87-125 | all 256 entries of the word table, and of the two byte tables of the RTU backend, are the bitwise CRC of their index |
| CrcEngines.Crc16Calc | NucciF/utils/src/crc.c:21-35 | the table-driven loop computes the bitwise CRC of every non-empty message |
| CrcEngines.RtuCrc16 | NucciF/libmodbus/src/modbus-rtu.c:118-132 | the split-table loop computes the same CRC with its bytes exchanged |
| CrcErrors.CollisionIsDifference | NucciF/utils/src/crc.c:21-35 | two messages of one length have the same CRC exactly when their difference has CRC zero |
| CrcErrors.BurstDetected | NucciF/prmsystem/src/prmSystem.cpp:74-78 | any corruption within 16 consecutive bits changes the CRC, at any length |
| CrcErrors.OddErrorsDetected | NucciF/prmsystem/src/prmSystem.cpp:74-78 | any odd number of wrong bits changes the CRC |
| CrcErrors.OneByteDetected | NucciF/prmsystem/src/prmSystem.cpp:74-78 | any single wrong byte changes the CRC, wherever it is |
| Crc32.WriteMirror | NucciF/drivers/include/crc32.h:54-57 | a word written to the word-wide MSB-first unit is, bits mirrored, 32 steps of the reflected CRC |
| Crc32.Update4 | NucciF/drivers/include/crc32.h:68-72 | 32 steps on a little-endian word are four bytewise updates |
| Crc32.CheckValue | NucciF/drivers/include/crc32.h:59-96 | of the digits 1 to 9 the CRC-32 is 0xCBF43926, the published check value |
| CrcUnit.TailTrick | NucciF/drivers/include/crc32.h:78-94 | the one to three trailing bytes, pushed through a cleared unit and shifted, give the CRC register |
| CrcUnit.Unit.Crc32Posix | NucciF/drivers/include/crc32.h:63-96 | the function computes `Posix` of the register it finds, and leaves the unit in the running state after whole words |
| CrcUnit.PosixIsCrc32 | NucciF/drivers/include/crc32.h:59-96 | with `clear`, the result is CRC-32 exactly when the message has at least four bytes |
| CrcUnit.PosixChained | NucciF/boot.cpp:91-92 | a second call on at least four bytes after whole words gives the CRC-32 of the concatenation |
| CrcUnit.StateInjective | NucciF/drivers/include/crc32.h:63-96 | from different registers the same message never leads to the same register |
| ModbusData.RegistersRoundTrip | NucciF/libmodbus/src/modbus.c:1070-1074 | registers sent high byte first are read back |
| ModbusData.PackRoundTrip | NucciF/libmodbus/src/modbus.c:541-565 | any number of bits packed eight to a byte is unpacked to the same bits |
| ModbusProtocol.RefusedChangesNothing | NucciF/libmodbus/src/modbus.c:642-652 | a refused request changes no table; no request changes inputs or table sizes |
| ModbusMeaning.ReadBitsMeaning | NucciF/libmodbus/src/modbus.c:630-660 | as a direct operation: 1 to 2000 bits inside the table are delivered cell by cell, other counts are exception 3, other addresses exception 2 |
| ModbusMeaning.ReadRegistersMeaning | NucciF/libmodbus/src/modbus.c:661-694 | likewise for 1 to 125 registers |
| ModbusMeaning.WriteBitMeaning | NucciF/libmodbus/src/modbus.c:695-719 | exactly the addressed coil is set, or exception 2 |
| ModbusMeaning.WriteRegisterMeaning | NucciF/libmodbus/src/modbus.c:720-737 | exactly the addressed register is set, or exception 2 |
| ModbusMeaning.WriteBitsMeaning | NucciF/libmodbus/src/modbus.c:738-769 | 1 to 1968 coils are replaced cell by cell, all others stay, or exception 3 or 2 |
| ModbusMeaning.WriteRegistersMeaning | NucciF/libmodbus/src/modbus.c:770-800 | likewise for 1 to 123 registers |
| Digits.MaskByteBits | NucciF/libmodbus/src/modbus.c:838 | bit by bit, the masked byte has the old bit where the AND mask has a one and the OR mask's where it has a zero |
| ModbusMeaning.MaskWriteMeaning | NucciF/libmodbus/src/modbus.c:825-844 | binary digit by binary digit, the register keeps the old one where the AND mask has a one and takes the OR mask's where it has a zero; no other register changes |
| ModbusMeaning.WriteReadMeaning | NucciF/libmodbus/src/modbus.c:845-894 | up to 121 registers are replaced, and up to 125 read out of the result |
| ModbusMeaning.ShortRequest | NucciF/libmodbus/src/modbus-rtu.c:92-105 | the requests of fixed length as lists of numbers: slave, function code, words high byte first |
| ModbusMeaning.WriteBitsRequest | NucciF/libmodbus/src/modbus.c:1183-1240 | coil i is binary digit i % 8 of byte 7 + i / 8, behind address, count and byte count |
| ModbusMeaning.WriteRegistersRequest | NucciF/libmodbus/src/modbus.c:1243-1286 | register i is 256 times byte 7 + 2i plus the next, behind address, count and byte count |
| ModbusMeaning.WriteReadRequest | NucciF/libmodbus/src/modbus.c:1324-1397 | the read half, the write half and the registers of a write-and-read, as numbers |
| ModbusMeaning.BitsAnswer | NucciF/libmodbus/src/modbus.c:541-565 | bit i of an answer is binary digit i % 8 of byte 3 + i / 8 |
| ModbusMeaning.ValuesAnswer | NucciF/libmodbus/src/modbus.c:661-694 | register i of an answer is 256 times byte 3 + 2i plus the next |
| ModbusServe.ServerIsFaithful | NucciF/libmodbus/src/modbus.c:604-901 | for every mapping and request, the server's answer to the client's bytes is the direct operation, except exactly for a write-and-read whose write starts below the table |
| ModbusMeaning.ReadsRefused | NucciF/libmodbus/src/modbus.c:630-694 | any complete read body with a count outside its limit is answered with exception 3, with cells outside the table with exception 2, and no table changes |
| ModbusMeaning.WriteBitServed | NucciF/libmodbus/src/modbus.c:695-719 | of any complete body, exactly the data words 0xFF00 and 0 set the coil, on and off; others are exception 3, and an address outside the table exception 2 |
| ModbusMeaning.WriteRegisterServed | NucciF/libmodbus/src/modbus.c:720-737 | any complete body sets exactly its register to its data word, or exception 2 |
| ModbusMeaning.WriteBitsServed | NucciF/libmodbus/src/modbus.c:738-769 | count, byte count and address decide in this order; then exactly the addressed coils become the binary digits of the data bytes |
| ModbusMeaning.WriteRegistersServed | NucciF/libmodbus/src/modbus.c:770-800 | likewise for registers, whose byte count must be twice their number |
| ModbusMeaning.MaskWriteServed | NucciF/libmodbus/src/modbus.c:825-844 | any complete body masks exactly its register, digit by digit, and is echoed, or exception 2 |
| ModbusMeaning.WriteReadServed | NucciF/libmodbus/src/modbus.c:845-894 | counts, byte count and both addresses decide as in the source; the reply has the registers after the write |
| ModbusMeaning.OtherServed | NucciF/libmodbus/src/modbus.c:801-901 | unknown function codes are exception 1, code 7 is passed over in silence, and code 17 is answered with the identification |
| ModbusWire.RequestFits | NucciF/libmodbus/src/modbus-rtu.c:92-105 | every request the client sends fits a frame of 256 bytes |
| ModbusWire.AnswerIsComplete | NucciF/libmodbus/src/modbus.c:247-323 | every reply and exception has exactly the length its receiver computes from its own bytes, and fits a frame |
| ModbusWire.ReceiveTakesAccepted | NucciF/libmodbus/src/modbus.c:339-378 | the receiver takes a frame exactly when it is addressed to it or to all, complete, and closed by its CRC, whatever its buffer held before |
| FrameErrors.AcceptedIff | NucciF/libmodbus/src/modbus-rtu.c:217-252 | a frame is taken exactly when it has 4 to 256 bytes, is for this node or all, is complete, and has CRC zero over all its bytes |
| FrameErrors.CompleteIff | NucciF/libmodbus/src/modbus.c:247-323 | the length of a complete body by function code and count byte, in numbers, for requests and answers |
| FrameErrors.WrongBitsIgnored | NucciF/libmodbus/src/modbus-rtu.c:229-252 | a frame that is taken is not taken with up to 16 consecutive bits wrong, or an odd number of bits |
| FrameErrors.WrongByteIgnored | NucciF/libmodbus/src/modbus-rtu.c:229-252 | nor with any one byte wrong |
| ModbusWire.AnswerConfirms | NucciF/libmodbus/src/modbus.c:410-539 | the answer to a request passes the confirmation check with the right count; an exception gives -1 and the matching error |
| ModbusMeaning.ConfirmIff | NucciF/libmodbus/src/modbus.c:410-539 | any reply is taken exactly when slave and function code agree with the request and its length and count are those asked for; otherwise the error number, case by case |
| ModbusWire.AnswerValues | NucciF/libmodbus/src/modbus.c:957-972 | the values in an answer are those of the direct operation |
| ModbusServer.ResponseIoStatus | NucciF/libmodbus/src/modbus.c:541-565 | the packing loop appends exactly the packed bits of the addressed cells |
| ModbusServer.SetBitsFromBytes | NucciF/libmodbus/src/modbus-data.c:46-60 | exactly the addressed cells become the unpacked bits |
| ModbusServer.SendMsg | NucciF/libmodbus/src/modbus-rtu.c:142-149 | the sent frame is the message closed by its CRC |
| ModbusServer.CheckMsg | NucciF/libmodbus/src/modbus-rtu.c:217-252 | the integrity check filters on the slave and compares the CRC of all but the last two bytes with those |
| ModbusServer.ServeFits | NucciF/libmodbus/src/modbus.c:604-901 | every reply to any complete request, well-formed or not, fits a frame |
| ModbusServer.Server.ReplyReadBits | NucciF/libmodbus/src/modbus.c:630-660 | the case for coils and discrete inputs, in place, is its specification |
| ModbusServer.Server.ReplyReadRegisters | NucciF/libmodbus/src/modbus.c:661-694 | the case for holding and input registers |
| ModbusServer.Server.ReplyWriteBit | NucciF/libmodbus/src/modbus.c:695-719 | the case for one coil, with its refusal of other values than on and off |
| ModbusServer.Server.ReplyWriteRegister | NucciF/libmodbus/src/modbus.c:720-737 | the case for one register |
| ModbusServer.Server.ReplyWriteBits | NucciF/libmodbus/src/modbus.c:738-769 | the case for several coils, with its checks of count and byte count |
| ModbusServer.Server.ReplyWriteRegisters | NucciF/libmodbus/src/modbus.c:770-800 | the case for several registers |
| ModbusServer.Server.ReplyMaskWrite | NucciF/libmodbus/src/modbus.c:825-844 | the case for a masked write |
| ModbusServer.Server.ReplyWriteRead | NucciF/libmodbus/src/modbus.c:845-894 | the case for write-and-read: the write is done before the read |
| ModbusServer.Server.ModbusReply | NucciF/libmodbus/src/modbus.c:604-901 | the whole reply: tables and frame as specified, nothing sent to a broadcast, the request untouched |
| ModbusServer.Server.OnFrame | NucciF/libmodbus/src/modbus.c:339-378 | a frame for another slave or with a wrong CRC changes no table and is not answered; an accepted one is served, and a broadcast not answered |
| ModbusClient.Client.CheckConfirmation | NucciF/libmodbus/src/modbus.c:410-539 | the verdict on a reply and its error number |
| ModbusClient.Client.Transact | NucciF/libmodbus/src/modbus.c:1145-1154 | sending, serving and receiving leave the server's tables as the direct operation does, and the answer in the client's buffer |
| ModbusClient.Client.ReadBits | NucciF/libmodbus/src/modbus.c:938-1032 | the destination receives exactly the addressed bits, the tables stay, or -1 and the exception |
| ModbusClient.Client.ReadRegisters | NucciF/libmodbus/src/modbus.c:1037-1129 | the destination receives exactly the addressed registers, the tables stay, or -1 and the exception |
| ModbusClient.Client.WriteBit | NucciF/libmodbus/src/modbus.c:1160-1169 | the call is the direct operation on one coil |
| ModbusClient.Client.WriteRegister | NucciF/libmodbus/src/modbus.c:1172-1180 | the call is the direct operation on one register |
| ModbusClient.Client.WriteBits | NucciF/libmodbus/src/modbus.c:1183-1240 | the call is the direct operation on several coils; too many are refused before anything is sent |
| ModbusClient.Client.WriteRegisters | NucciF/libmodbus/src/modbus.c:1243-1286 | the call is the direct operation on several registers |
| ModbusClient.Client.MaskWrite | NucciF/libmodbus/src/modbus.c:1288-1320 | the call is the direct masked write: digit by digit the addressed register keeps the old one where the AND mask has a one and takes the OR mask's elsewhere, no other changes; or -1 and error 0x102 |
| ModbusClient.Client.WriteAndRead | NucciF/libmodbus/src/modbus.c:1324-1397 | the call writes, then reads into the destination, as the direct operation does (section 6.17 of MODBUS Application Protocol V1.1b) |
| ParamBytes.ValueRoundTrip | NucciF/prmsystem/include/prmSystem.h:163-180 | every value of an integer type survives the copy to bytes and back |
| ParamBytes.BytesRoundTrip | NucciF/prmsystem/include/prmSystem.h:163-180 | every byte pattern is a value of its type and survives too |
| ParamBytes.EncodeDigit | NucciF/prmsystem/include/prmSystem.h:163-165 | byte k of a value is its k-th base-256 digit, the lowest first |
| Params.BlobRoundTrip | NucciF/prmsystem/src/prmSystem.cpp:59-87 | an unmodified blob is accepted, and restores every saved value that is in range into any state of memory |
| Params.BlobLayout | NucciF/prmsystem/src/prmSystem.cpp:59-72 | a blob is 5, 40, every saved value behind those of the parameters before it, and the CRC of all that, low byte first |
| Params.AcceptsIff | NucciF/prmsystem/src/prmSystem.cpp:74-78 | a blob is accepted exactly when it begins with 5 and 40 and its last two bytes are the CRC of the others |
| Params.WrongByteRefused | NucciF/prmsystem/src/prmSystem.cpp:74-78 | a blob with one wrong byte, at any length and place, is refused and changes nothing |
| Params.WrongBitsRefused | NucciF/prmsystem/src/prmSystem.cpp:74-78 | so is one with a burst of 16 bits or an odd number of wrong bits |
| ParamSystem.Val.Deserialize | NucciF/prmsystem/include/prmSystem.h:167-180 | the decoded value is taken exactly when it is at least the minimum and at most the maximum |
| ParamSystem.Val.StepSize | NucciF/prmsystem/include/prmSystem.h:199-209 | stepping adds the signed product, and ends at the minimum or maximum exactly when that lies beyond it |
| ParamSystem.System.GetByAddress | NucciF/prmsystem/src/prmSystem.cpp:30-39 | the parameter found has the address and no one before it has; null exactly when no parameter has it |
| ParamSystem.LookupIsFirst | NucciF/prmsystem/src/prmSystem.cpp:30-39 | what is found has the address and no parameter before it has; nothing is found exactly when no parameter has it |
| ParamSystem.System.GetSerialSize | NucciF/prmsystem/src/prmSystem.cpp:49-57 | the size is the length of the blob |
| ParamSystem.System.Serialize | NucciF/prmsystem/src/prmSystem.cpp:59-72 | the buffer receives exactly the sealed blob |
| ParamSystem.System.Deserialize | NucciF/prmsystem/src/prmSystem.cpp:74-87 | accepted or refused, and the table afterwards, as specified; types and distinct objects are kept |
| Eeprom.WriteExactIff | NucciF/dev/src/24AAxx.cpp:59-104 | a write changes exactly its range, for all data and memories, exactly when it starts on a page, in the last page of a block, or stays in one page |
| Eeprom.WriteWrapsBack | NucciF/dev/src/24AAxx.cpp:73-102 | otherwise the first byte of its first page, which is not to be written, is overwritten |
| Eeprom.Driver.Write | NucciF/dev/src/24AAxx.cpp:59-104 | the driver's transfers leave what they are specified to; a failed write that stays in pages leaves a prefix of the data |
| Eeprom.Driver.Read | NucciF/dev/src/24AAxx.cpp:114-137 | a successful read delivers exactly the addressed bytes and changes nothing |
| ParamStore.Store.SaveParametersSystem | NucciF/task/src/systemTSK.cpp:354-365 | a successful save changes exactly the first bytes of the EEPROM, to the blob of the system parameters |
| ParamStore.Store.LoadParameters | NucciF/task/src/systemTSK.cpp:326-337 | a load deserialises those bytes; a refused blob sets the default flag and changes no parameter |
| ParamStore.SavedIsLoaded | NucciF/task/src/systemTSK.cpp:326-365 | after a save, a load into any state brings back every saved value in range and leaves all other parameters |
| RegisterWalk.WriteThenRead | NucciF/portfreemodbus/src/porttcp.cpp:25-128 | registers that were written successfully are read back, but for the unused bytes of 1-byte parameters |
| RegisterWalk.ShownUnchanged | NucciF/portfreemodbus/src/porttcp.cpp:25-128 | over 2- and 4-byte parameters they are read back exactly |
| RegisterWalk.WriteTouchesOnlyWalked | NucciF/portfreemodbus/src/porttcp.cpp:76-124 | successful or not, a write gives a run of parameters the values in the registers, as numbers and in range, and changes no others; the error says whether the registers, the parameters, or a 4-byte value ended it, or a value out of range |
| RegisterWalk.ReadShowsValues | NucciF/portfreemodbus/src/porttcp.cpp:29-74 | a read delivers, as numbers, the values of a run of parameters: low word first, a 1-byte value in the low byte; and the error says whether it ran out of registers, of parameters, or of room for half a value |
| RegisterWalk.GivesOneValue | NucciF/portfreemodbus/src/porttcp.cpp:45-66 | registers give at most one value of a type |
| RegisterWalk.ReadHolding | NucciF/portfreemodbus/src/porttcp.cpp:29-74 | the read loop changes no parameter and delivers the values from the first parameter at the address on, or none and an error without one |
| RegisterWalk.WriteHolding | NucciF/portfreemodbus/src/porttcp.cpp:76-124 | the write loop gives the values in the registers to the parameters from the first at the address on, and the error of the walk |
| Line.GrfLine | NucciF/dev/src/graphics.c:57-81 | the loop ends after exactly max(dx, dy) rounds, in 16-bit arithmetic, having drawn exactly the points from start to end, both included, none twice |
| Line.LineArrives | NucciF/dev/src/graphics.c:67 | the points begin at the start and the last one is the end, in both coordinates |
| Line.LinePixels | NucciF/dev/src/graphics.c:66-80 | max(dx, dy) + 1 pixels, exactly the points from start to end, both included, and none twice |
| Line.StepsOfPoint | NucciF/dev/src/graphics.c:70-79 | the k-th point has made k steps along the longer axis and the nearest number along the other, the smaller of two equally near |
| Line.LineIsConnected | NucciF/dev/src/graphics.c:67-80 | successive points are 8-neighbours and differ |
| Line.WithinHalfPixel | NucciF/dev/src/graphics.c:70-79 | along the minor axis every point is within half a pixel of the ideal segment |
| Line.RoundedUnique | NucciF/dev/src/graphics.c:70-79 | no other integer is that near |
| Line.LineReversed | NucciF/dev/src/graphics.c:57-81 | the line drawn backwards has the same k-th point exactly when the ideal point is not halfway |
| Line.SpanIsLargest | NucciF/dev/src/graphics.c:58-70 | with one pixel more than 10923 the doubled error leaves 16 bits |
| Circle.CircleStep | NucciF/dev/src/graphics.c:91-109 | at every loop head the pixel satisfies x(x-1)+y^2 < r^2 <= x(x+1)+y^2, and the error recurrence keeps this |
| Circle.GrfCircle | NucciF/dev/src/graphics.c:85-110 | the pixels drawn are exactly those with that property, in all eight octants |
| Circle.CirclePixels | NucciF/dev/src/graphics.c:85-110 | a pixel is drawn exactly when its squared distance from the centre differs from the squared radius by at least minus its larger offset and by less than it |
| Circle.GrfCircleHelper | NucciF/dev/src/graphics.c:114-147 | the other recurrence draws exactly the same pixels of the corners it is asked for |
| Circle.HelperCorners | NucciF/dev/src/graphics.c:128-145 | bit by bit: 1 for left above, 2 for right above, 4 for right below, 8 for left below; no axis pixels but at radius 1 |
| Circle.CircleIsCornersAndAxes | NucciF/dev/src/graphics.c:85-147 | the circle is exactly its four corners and the four axis points |
| Triangle.FillTriangle | NucciF/dev/src/graphics.c:242-318 | the running sums draw one run for each row from the smallest to the largest y, in order, between the two edges that meet the row |
| Triangle.CrossingOnEdge | NucciF/dev/src/graphics.c:287-315 | a crossing is less than a pixel from the exact edge, never beyond its ends, and exact at both |
| Triangle.EndsOnEdges | NucciF/dev/src/graphics.c:287-315 | the two ends of a row lie where the long edge and the short edge of that row meet it |
| Triangle.MeetsOnce | NucciF/dev/src/graphics.c:287-315 | an edge meets a row in exactly one pixel |
| Triangle.SpansWithin | NucciF/dev/src/graphics.c:282-317 | every span lies between the smallest and the largest vertex x |
| Triangle.VerticesDrawn | NucciF/dev/src/graphics.c:282-317 | every vertex is covered by the span of its scanline |
| Triangle.OrderDoesNotMatter | NucciF/dev/src/graphics.c:245-257 | the triangle is the same in whatever order the vertices are given |
| EthRing.SplitIsExact | NucciF/drivers/src/stm32f4x7_eth.c:981-1016 | a frame is split into full segments of 1524 bytes and a last one of 1 to 1524, which sum to its length |
| EthRing.PrepareQueues | NucciF/drivers/src/stm32f4x7_eth.c:970-1033 | with room for it a frame joins the end of the queue of owned descriptors; a full ring is refused unchanged |
| EthRing.PrepareExactIff | NucciF/drivers/src/stm32f4x7_eth.c:975-1020 | an accepted frame joins the queue exactly when as many descriptors are free as it needs |
| EthRing.MarkedIff | NucciF/drivers/src/stm32f4x7_eth.c:990-1010 | a one-segment frame is always marked right; a longer one exactly when its descriptors carry no flags left from before |
| EthDriver.Driver.constructor | NucciF/drivers/src/stm32f4x7_eth.c:1115-1143 | the chain is a ring of descriptors, none owned, in the order of the table |
| EthDriver.Driver.PrepareTransmitDescriptors | NucciF/drivers/src/stm32f4x7_eth.c:970-1033 | the loop over descriptor pointers leaves the specified ring |
| EthDriver.RingIsQueue | NucciF/drivers/src/stm32f4x7_eth.c:970-1033 | in every interleaving the owned descriptors form one arc, and what was sent and is owned is, in order, the segments of the accepted frames |
| EthDriver.WholeFramesInOrder | NucciF/drivers/src/stm32f4x7_eth.c:990-998 | frames up to 1524 bytes leave in order of submission, each in one descriptor with both marks |
| EthDriver.FreeMeansAccepted | NucciF/drivers/src/stm32f4x7_eth.c:975-978 | a frame is refused exactly when the engine owns every descriptor |
| LogRing.WriteKeeps | NucciF/systems/src/write.c:73-127 | with headroom, a write appends its bytes to what was sent, is being sent and waits |
| LogRing.InterruptKeeps | NucciF/systems/src/write.c:36-48 | the interrupt handler keeps it |
| LogRing.NothingLost | NucciF/systems/src/write.c:36-135 | in every interleaving of writes, transmitted bytes and interrupts, sent, in flight and waiting are exactly what was written, in order |
| LogRing.EverythingIsSent | NucciF/systems/src/write.c:36-48 | left alone, the UART sends all of it |
| LogRing.HeadroomIff | NucciF/systems/src/write.c:90-113 | a write that fits the ring is kept, whatever its bytes, exactly when it does not reach the bytes still to be sent |
| LogWriter.TwoPasses | NucciF/systems/src/write.c:90-116 | bytes that fit are taken in at most two passes |
| LogWriter.LoopEndsIff | NucciF/systems/src/write.c:90-116 | the loop ends exactly when the bytes fit or the reader is at the start of the buffer |
| LogWriter.AllWaitingIff | NucciF/systems/src/write.c:91-97 | it ends with all bytes waiting exactly when they fit |
| LogWriter.Logger.Write | NucciF/systems/src/write.c:73-135 | the loops over the buffer leave the specified ring, return the length, and take one or two passes |
| LogWriter.Logger.TxInterrupt | NucciF/systems/src/write.c:36-48 | the handler in place is its specification |
| Calendar.Normal | NucciF/utils/src/timegm.c:44-53 | month normalisation, on both sides, is Euclidean division by 12 |
| Calendar.MonthsWrap | NucciF/utils/src/timegm.c:43-63 | twelve months more or less are a year, for any number of years |
| Calendar.YearsClosed | NucciF/utils/src/timegm.c:25-33 | the closed form counts the days of all years from 1970 |
| Calendar.MonthsClosed | NucciF/utils/src/timegm.c:35-41 | the table counts the days of the months before |
| Calendar.TimeFollowsDates | NucciF/utils/src/timegm.c:43-63 | on valid dates from 1970 the time is strictly increasing in lexicographic order, and equal only for equal dates |
| Calendar.Epoch | NucciF/utils/src/timegm.c:43-63 | midnight of 1 January 1970 is 0 |
| Calendar.NextDay | NucciF/utils/src/timegm.c:43-63 | the next date of the Gregorian calendar is 86400 seconds later |
| Calendar.FieldsAreLinear | NucciF/utils/src/timegm.c:43-63 | seconds, minutes, hours and days count linearly, in whatever ranges |
| Rtc.TmToUnixTime | NucciF/drivers/src/rtc.c:63-93 | the summing loops compute the specified seconds |
| Rtc.UnixTimeIsTimegmIff | NucciF/drivers/src/rtc.c:63-93 | summing and closed form agree exactly while the seconds of the day count fit 32 bits |
| Rtc.ReadBackIff | NucciF/drivers/src/rtc.c:178-215 | what was accepted and encoded is decoded again exactly when no field lies below its range |
| Rtc.RegisterDigits | NucciF/drivers/src/rtc.c:178-215 | the registers hold the decimal digits of the fields, four bits each |
| Rtc.AcceptedYears | NucciF/drivers/src/rtc.c:186-188 | of the valid dates, exactly those of 2000 to 2100 are accepted |
| Rtc.SetThenTime | NucciF/drivers/src/rtc.c:151-215 | setting any valid date the clock accepts and asking for the time gives the seconds of that date |
| Rtc.Clock.SetTime | NucciF/drivers/src/rtc.c:178-215 | the registers are written exactly when the clock runs and the date is accepted; of valid dates those of 2000 to 2100 |
| Rtc.Clock.Time | NucciF/drivers/src/rtc.c:151-171 | the time is that of the decoded registers |
| SigmaDelta.Conserved | NucciF/task/src/adcTSK.cpp:37-49 | 64 times the sum of outputs is the sum of inputs less what the accumulator gained |
| SigmaDelta.ExactOnAverage | NucciF/task/src/adcTSK.cpp:31-53 | from reset, over allowed inputs of any length, the total error is at least 0 and below 7744, and every output lies in 0 to 120 |
| SigmaDelta.InputAllowedIff | NucciF/task/src/adcTSK.cpp:37-49 | the accumulator's bound survives an input exactly when the input lies in 0 to 7680 |
| SigmaDelta.OutputFollowsInput | NucciF/task/src/adcTSK.cpp:37-49 | the next output is the input divided by 64, or one more |
| SigmaDelta.GrowsAboveRange | NucciF/task/src/adcTSK.cpp:37-49 | a constant input above 7680 makes the accumulator grow without bound |
| SigmaDelta.Modulator.Run | NucciF/task/src/adcTSK.cpp:31-53 | the object, called over a whole input, puts out what is specified and keeps the balance |

## Left out

- Bootloader: both headers are taken to be readable, that is, an image that carries the magic and a size has 28 to the smaller region's size as its size; `checkProgram` follows the field without a check.
- Bootloader: a power failure inside an erase or a programmed byte may leave anything in the cells being changed, as long as both headers stay readable; the regions start on 128K pages.
- BootConvergence.UpgradeIsNotLost: power failures between steps only, because a torn erase may leave any content.
- Upload: the transport below a record (TCP, the stack's framing) is not modelled; images have an even length, as records carry registers.
- CrcEngines.Crc16Calc: the empty message is the caller's to exclude, because the source's loop runs once before it looks at the length, and then counts down from the largest length.
- Modbus: the line is lossless and delivers whole frames, so timeouts and error recovery do not occur; counts and addresses are 16-bit; broadcasts are served but the client does not send them; the debug output is left out.
- ModbusClient.Client.WriteAndRead: the write address is not below the server's table; `ModbusServe.ServerIsFaithful` says what happens there.
- ModbusServer.Server.ReplyWriteRead: likewise, since the source then stores outside its table.
- Modbus TCP, report-slave-id on the client side, and file records in the RTU library.
- Parameters: the integer types of 1, 2, 4 and 8 bytes; `float` parameters (with their test for NaN), text formatting and the generated parameter list are left out, and the parameters' callbacks are taken to do nothing.
- ParamSystem.Val.StepSize: the value lies in its range, and the product and the width of the range are taken to fit the type; outside that the source's own arithmetic overflows.
- ParamStore.Store.LoadParameters: the second half, user parameters from the RTC's backup registers, repeats the first over another memory.
- Eeprom: a transfer that the device refuses is taken to store nothing; write delays are left out.
- RegisterWalk: 8-byte parameters are excluded among those walked, as the source has no case for them.
- Line.GrfLine: segments span at most 10923 pixels each way, beyond which its 16-bit error overflows (`Line.SpanIsLargest`).
- Circle.GrfCircle: radii up to 16384, for which its error terms fit 16 bits, and centres that keep all pixels in 16-bit coordinates.
- Circle.GrfCircleHelper: likewise.
- Triangle.FillTriangle: coordinates whose differences fit 16 bits, and rows between which the 16-bit row counter can step; spans stand for the pixel loop of `grf_fastHLine`.
- Filled circles and rounded rectangles use the same recurrence; fonts, menus and windows are user interface.
- Ethernet: the payload copied into the buffers, the receive ring and the peripheral's registers are left out; the engine is taken to work its descriptors in order.
- LogWriter.Logger.Write: bytes that fit, because the loop may not end for others (`LogWriter.LoopEndsIff`).
- Calendar: years from 1970; the time type itself is taken to be wide enough.
- Rtc: the registers are taken to keep what was written until they are read; the counting of the clock is hardware.
- SigmaDelta: the accumulator is unbounded here; within the allowed inputs it is proved to stay far below 32 bits. The PI controller is left out.
- Network services, the HTTP server, NTP, the pulse statistics, key handling and peripheral set-up.
