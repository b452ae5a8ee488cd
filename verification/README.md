# Proofs about an FPGA SoC and its host software

This project models the parts of the SoC that have to agree with something else: a controller
with the device it drives, an encoder with its decoder, a transmitter with its receiver, a driver
with the flash it fills, a serial circuit with the byte loop that checks it, software arithmetic
with arithmetic.

Every RTL module appears three times: its registers as a datatype, one rising clock edge as a
function `Next` in which every register reads the old state, and a class whose fields are the
registers and whose `Clock` method, split by groups of `always` blocks where there are many, is
proved to do `Next`. What is then proved is proved about `Next`: invariants of one clock, and theorems about
runs of any length with any inputs the bus or the line may bring. C and C++ appear as methods with
the loops of the source, proved against the arithmetic or the data they are meant to produce.
Registers that shift are sequences of bits, most significant first.

| files | what they model |
|---|---|
| `Bits`, `MachineInts`, `Ring` | powers of two, bit strings, machine words, addresses that wrap |
| `FlashDevice`, `FlashRead`, `FlashProgram`, `FlashSim` | the serial flash simulator, bit by bit, byte by byte, command by command, and as an object updated in place |
| `SpiXpress`, `SpiSystem`, `SpiRuns`, `SpiTiming` | the flash controller, the controller wired to the flash, and what every run of the two delivers, to a flash that is ready and to one that may be busy |
| `SpiBurst`, `SpiWrap`, `SpiAccess` | a master that reads in bursts, the burst that wraps, and the single accesses of a host that waits for each answer |
| `DevBus`, `FlashDriver` | the host's flash driver; every access it makes is played out, clock by clock, on the controller and the flash |
| `RunLength`, `RunEncoder`, `ScopeMemory`, `WbScopC`, `ScopeDecoder` | the compressing scope, the encoder it is held to, and the host's decoder |
| `WbScope`, `ScopeControl` | the plain scope; the control word of both, and the host's reading and writing of it |
| `UartLine`, `TxUart`, `RxUart`, `UartLink` | transmitter, receiver, and the two on one line |
| `SoftDivide`, `SoftMultiply` | 64-bit division and 32 by 32 bit multiplication in software |
| `SdCrc`, `SdSim`, `SdPoly`, `SdEngine` | CRC theory, the simulator's byte loops, the polynomials they divide by, the RTL's serial circuits |
| `Fifo`, `GenUCtrl`, `LlSdSpi`, `Debouncer` | four small refinements |

Where the code does something its documentation or its reader may not expect:

- A sequential flash read that runs past the controller's top address takes the request for
  address zero as its continuation and answers it with the word past the end: an acknowledged
  read returns the word at its address if and only if its burst has not wrapped
  (`SpiRuns.ReadsReturnLine`), and `SpiWrap.WrappedRead` is a legal run from power-on in which it
  has.
- The assertion at `rtl/spixpress.v:638` expects zeros above the data byte; the code sets bit 12
  (lines 213 and 217). `SpiXpress.UserData` follows the code.
- The first word the compressing scope writes after a reset is a repeat of nothing, and before it
  a word that was already on its way when the reset came is still written
  (`WbScopC.ResetStarts`); whichever came first is gone from memory by the time the scope stops
  (`WbScopC.StoppedForgets`). The comment at `rtl/wbscopc.v:335` that the smallest repeat is 1 is
  not what the code does, the first repeat word after a sample is 0.
- A read of the compressing scope is answered with the control word if the bus no longer
  addresses the data register one clock after the strobe (`WbScopC.ReadNeedsAddressHeld`). The
  plain scope registers the address and has no such condition.
- A read on the first clock after either scope stops need not return the oldest word. The plain
  scope's reader is ready then if and only if the stopping clock brought both a sample and a read
  or neither (`WbScope.ReadyAtOnceIff`); after a sample alone the read gets the newest word, after
  a read alone the second oldest (`WbScope.FirstRead`). The compressing scope's reader is ready if
  and only if no read came on that clock (`WbScopC.ReadyAtOnceIff`).
- The plain scope keeps exactly `holdoff` samples after the trigger if and only if a sample comes
  on the clock that stops it; otherwise one fewer (`WbScope.StopsExactly`). With the greatest
  holdoff its register can hold, a sample on that clock wraps the counter, and the scope starts
  again (`WbScope.StaysStoppedIff`).
- The compressing scope keeps one sample more than that after the trigger, always
  (`WbScopC.StopsExactly`), so that the place where the host's decoder looks for the trigger, and
  starts its time, is one sample late, and two if the first word is a repeat
  (`ScopeDecoder.TriggerIsEarlier`).
- The host's decoder counts one sample too many when the first word is a repeat
  (`ScopeDecoder.LengthIs`). It marks the sample numbered `2 * alen - holdoff - 1`, modulo 2^32,
  if there is one, where it takes the trigger's sample to be number `alen - holdoff - 1`
  (`ScopeDecoder.MarksIff`): with that in the trace no sample is marked
  (`ScopeDecoder.NeverMarked`), and with it before the trace a wrong one may be
  (`ScopeDecoder.MarkIsFalse`, `ScopeDecoder.MarkAppears`).
- The startup hold of the byte-wide SPI engine reloads its clock divider on every clock. At a
  constant speed it ends if and only if that speed is zero (`LlSdSpi.StartupEndsIff`), which the
  initial speed of `rtl/sdspi.v:91` is not.
- A FIFO item written on the clock of a read from an empty FIFO is never given to the reader
  (`Fifo.ConservedStep`).
- Signed division of the most negative number by -1 returns the most negative number
  (`SoftDivide.Div`); counting the leading zeros of zero gives 63 (`SoftDivide.Cltz`).
- The debouncer settles within one timer period and three clocks, not two periods
  (`Debouncer.Settles`).

## Model

| member | source | states |
|---|---|---|
| FlashDevice.EightShifts | sim/flashsim.cpp:248-263 | eight falling edges decode exactly what shifting the eight bits in at once decodes |
| FlashDevice.ByteArrives | sim/flashsim.cpp:248-299 | eight falling edges carrying a byte, top bit first, do what receiving that byte does, in any mode |
| FlashDevice.OutputAt | sim/flashsim.cpp:236-262 | the k-th output bit is MISO as of the k-th falling edge, whatever follows |
| FlashDevice.EdgeKeeps | sim/flashsim.cpp:290-603 | a falling edge changes neither the array nor the write timer nor the busy flag |
| FlashDevice.QuietTick | sim/flashsim.cpp:621-648 | a tick of a selected idle device is one falling edge if its clock is enabled and nothing otherwise |
| FlashDevice.Settles | sim/flashsim.cpp:153-235 | deselection takes effect once, however long it lasts |
| FlashDevice.DeselectedIsStandby | sim/flashsim.cpp:153-156 | any tick with chip select high leaves the input register and the bit count cleared |
| FlashDevice.RepliesLowByte | sim/flashsim.cpp:260-263 | while a byte goes in, the byte that was in the low end of the output register comes out |
| FlashSim.FlashSim.Call | sim/flashsim.cpp:141-612 | one call of the simulator object, updating its arrays in place, is one step of the device |
| FlashSim.FlashSim.OnClock | sim/flashsim.cpp:621-705 | a tick is two calls with the delayed clock enable, and the object keeps the enable for the next tick |
| FlashSim.FlashSim.ProgramPage | sim/flashsim.cpp:167-175 | the loop ANDs the page buffer into the page of the address and changes nothing else |
| FlashSim.FlashSim.EraseSector | sim/flashsim.cpp:183-185 | the loop sets the 64 kB sector to 0xff and changes nothing else |
| FlashSim.FlashSim.Deselected | sim/flashsim.cpp:153-235 | chip select high carries out the armed program or erase |
| FlashSim.FlashSim.CommandIn | sim/flashsim.cpp:290-431 | the command byte is decoded, with the write-enable and busy checks |
| FlashSim.FlashSim.ByteIn | sim/flashsim.cpp:432-603 | a later byte is handled according to the command |
| FlashSim.FlashSim.constructor | sim/flashsim.cpp:74-91 | the device starts idle and blank |
| FlashRead.AfterCommand | sim/flashsim.cpp:316-321 | 32 bits of a read command, from a standby device, leave it about to send the addressed byte |
| FlashRead.KeepsReading | sim/flashsim.cpp:482-495 | however many bits follow, the device stays in the read and counts on through memory |
| FlashRead.AnswersWord | sim/flashsim.cpp:482-495 | the last 32 bits of a read of any length are the big-endian word it has reached |
| FlashProgram.AddressSpelled | sim/flashsim.cpp:563-567 | the three address bytes, joined, are the 24-bit address |
| FlashProgram.OverlayHolds | sim/flashsim.cpp:571-575 | each offset of the page buffer holds the last byte sent to it, wrapping within the page |
| FlashProgram.OverlayBlank | sim/flashsim.cpp:569-570 | offsets never sent to stay 0xff |
| FlashProgram.ProgramEffect | sim/flashsim.cpp:158-176 | write-enabled and idle, a page-program string ANDs exactly the bytes sent into one page, wrapping inside it, touches nothing else, and leaves the device busy with the latch cleared |
| FlashProgram.ProgramByte | sim/flashsim.cpp:167-175 | each byte of the string meets its own address, ANDed with what was there |
| FlashProgram.EraseEffect | sim/flashsim.cpp:177-186 | a sector-erase string turns exactly the addressed sector to 0xff |
| FlashProgram.EnableEffect | sim/flashsim.cpp:331-335 | write enable sets the latch and nothing else |
| FlashProgram.DisableEffect | sim/flashsim.cpp:322-325 | write disable clears it and nothing else |
| FlashProgram.RefusedEffect | sim/flashsim.cpp:310-375 | without the write-enable latch, or while a write is in progress, neither a page program nor a sector erase does anything |
| FlashProgram.StatusReply | sim/flashsim.cpp:326-330 | a status read gives the busy flag in bit 0, the latch in bit 1 and 0x1c above |
| FlashProgram.NothingEffect | sim/flashsim.cpp:265-431 | the two commands 0x00 and 0xff do nothing |
| FlashProgram.CommandReply | sim/flashsim.cpp:265-299 | every command but a status read is answered with 0xa5 |
| FlashProgram.BusyRead | sim/flashsim.cpp:482-495 | during a write a read gives nothing but zeros from its second byte on |
| SpiXpress.Controller.Clock | rtl/spixpress.v:114-280 | the always blocks, evaluated on the registers, take them all to their next values |
| SpiXpress.Controller.constructor | rtl/spixpress.v:135-256 | the power-on values |
| SpiSystem.ControlStep | rtl/spixpress.v:388-411 | every clock keeps the file's own assertions on chip select, clock, stall and counter, and the facts they need |
| SpiSystem.PendingStep | rtl/spixpress.v:257-265 | when the stall drops one clock early, the next word's request is waiting |
| SpiSystem.OwedStep | rtl/spixpress.v:347-383 | the requests owed an acknowledgement are exactly those in flight or being acknowledged, at most two, in order |
| SpiSystem.OnWireStep | rtl/spixpress.v:196-248 | the flash is where the bits on the wire took it, and what came back is its output |
| SpiSystem.CommandingStep | rtl/spixpress.v:149-167 | during a fresh command, what has been sent and what is in the pipe are together the read command |
| SpiSystem.FetchingStep | rtl/spixpress.v:209-217 | the data register holds the bits that came in for the word being read, also across a continuation |
| SpiSystem.FetchedStep | rtl/spixpress.v:172-177 | an acknowledged read has received all 32 bits of its word |
| SpiSystem.SendingStep | rtl/spixpress.v:158-164 | in configuration mode the wire carries exactly the bytes written, top bit first |
| SpiSystem.RepliedStep | rtl/spixpress.v:209-217 | an acknowledged configuration byte holds the last eight bits that came in |
| SpiRuns.InvariantStep | rtl/spixpress.v:347-411 | one clock keeps the whole invariant of controller, wire and flash |
| SpiRuns.RunInvariant | rtl/spixpress.v:347-411 | so does every run of a bus that follows pipelined Wishbone (Wishbone B4, section 3.1.3) |
| SpiRuns.FetchDelivers | rtl/spixpress.v:135-280 | an acknowledged read of a ready flash returns the word it has reached |
| SpiRuns.ReadsReturnFlash | rtl/spixpress.v:135-280 | in every run, a read is acknowledged with the big-endian flash word at its address, whether a command was sent for it or it continues the read before it |
| SpiRuns.ReadsReturnLine | rtl/spixpress.v:135-280 | in every run, a read is acknowledged with the word its burst has reached, which is the word at its address if and only if the burst has not wrapped |
| SpiRuns.WrapIsTaken | rtl/spixpress.v:267-274 | in a burst at the top address, the request for address zero is accepted as its continuation |
| SpiWrap.WrappedRead | rtl/spixpress.v:123-127 | a legal run from power-on at whose end a read of address zero is acknowledged with the word past the top address |
| SpiRuns.AckOnTime | rtl/spixpress.v:135-144 | with the cycle held, a request is acknowledged exactly 65, 32 or 9 clocks on |
| SpiRuns.OneAckEach | rtl/spixpress.v:169-183 | each clock settles the oldest request if it acknowledges and adds the accepted one: one acknowledgement each, in order |
| SpiRuns.ConfigDelivers | rtl/spixpress.v:185-193 | between configuration bytes the flash has received exactly the bytes written |
| SpiRuns.ReplyDelivers | rtl/spixpress.v:209-217 | the acknowledged byte returns what the flash had ready, under the constant upper bits |
| SpiRuns.ReleaseDelivers | rtl/spixpress.v:222-235 | writing 0x100 makes the flash act on exactly those bytes |
| SpiRuns.PageProgramDelivers | rtl/spixpress.v:128-265 | through the port, end to end, a page-program string ANDs exactly its bytes into one page |
| SpiTiming.OnTimeStep | rtl/spixpress.v:196-248 | busy or not, the flash is where the bits and the time between them took it |
| SpiTiming.ByteTimeline | sim/flashsim.cpp:145-263 | eight falling edges push their byte as of the last of them, whatever time passes between them |
| SpiTiming.RunOnTime | rtl/spixpress.v:196-248 | in every run |
| SpiTiming.ConfigDeliversTimed | rtl/spixpress.v:185-193 | a flash that may be busy receives exactly the bytes written, each at its own time |
| SpiTiming.ReplyDeliversTimed | rtl/spixpress.v:209-217 | and an acknowledged byte returns what it had ready, as polling needs |
| SpiTiming.ReleaseDeliversTimed | rtl/spixpress.v:222-235 | writing 0x100 lets go of the command, busy or not |
| SpiBurst.Opens | rtl/spixpress.v:128-167 | a read request to a controller at rest begins a fresh command with 65 clocks to go |
| SpiBurst.TakesWord | rtl/spixpress.v:172-274 | a next request held ready as a word comes in continues the burst, with the word acknowledged on time and 32 clocks to the next |
| SpiAccess.WritesByte | rtl/spixpress.v:128-235 | a byte written to a controller between accesses is acknowledged ten clocks later, has reached a flash that may be busy with time before it and after, and leaves in the port what the flash had ready |
| SpiAccess.Releases | rtl/spixpress.v:185-235 | from the same states, writing 0x100 takes two clocks, in which the flash acts on what it has and is let go |
| SpiAccess.Reads | rtl/spixpress.v:169-217 | reading the port gives bit 12 and the byte, and changes nothing |
| SpiAccess.CloseWord | rtl/spixpress.v:222-235 | the last word of a burst is acknowledged on time and the flash is let go |
| DevBus.TicksOnly | sim/flashsim.cpp:145-151 | time moves only the timer and the two flags it clears, both of them as it runs out |
| DevBus.ProgramTakes | sim/flashsim.cpp:58-69 | a page program keeps the flash busy for exactly 600 calls, twelve microseconds at 50 MHz |
| DevBus.EraseTakes | sim/flashsim.cpp:58-69 | a sector erase for exactly 750000, fifteen milliseconds |
| DevBus.DevBus.WriteConfig | rtl/spixpress.v:128-235 | a write to the configuration port, as a run of controller and flash between any idle clocks, delivers a byte or ends the command, and outside a read command leaves the reply in the port |
| DevBus.DevBus.ReadConfig | rtl/spixpress.v:216-217 | so run, the port reads back the last byte received, with bit 12 set, while time passes for the flash |
| DevBus.DevBus.ReadWords | rtl/spixpress.v:135-280 | so run, a burst of sequential reads returns the words of the flash and leaves it at rest |
| FlashDriver.EraseMeansRisingBit | sw/host/flashdrvr.cpp:214-221 | a sector is erased exactly when some needed bit is 0 in the flash and 1 in the data |
| FlashDriver.BurnIsAndPage | sw/host/flashdrvr.cpp:132-165 | within one page, the wrapped page buffer is a straight AND of the data |
| FlashDriver.FlashDrvr.Wait | sw/host/flashdrvr.cpp:65-76 | polling ends, with the device idle and the array untouched, whatever its timing |
| FlashDriver.FlashDrvr.EraseSector | sw/host/flashdrvr.cpp:78-123 | exactly the sector is erased and the read-back finds it so |
| FlashDriver.FlashDrvr.VerifyErase | sw/host/flashdrvr.cpp:101-120 | the read-back of an erased sector never fails |
| FlashDriver.FlashDrvr.PageProgram | sw/host/flashdrvr.cpp:125-189 | the data is ANDed into the array, the all-ones shortcut included, and the read-back reports whether it took |
| FlashDriver.FlashDrvr.ProgramFrom | sw/host/flashdrvr.cpp:243-254 | the page loop puts the data in place from its start to the end of the sector and moves nothing else |
| FlashDriver.FlashDrvr.ProgramPiece | sw/host/flashdrvr.cpp:244-253 | one page of it, clipped to the page |
| FlashDriver.Scan | sw/host/flashdrvr.cpp:213-224 | the comparison finds the first byte that needs an erase, or the first word that differs |
| FlashDriver.FlashDrvr.Survey | sw/host/flashdrvr.cpp:200-225 | reading and comparing a sector decides exactly whether it needs an erase, and where programming starts |
| FlashDriver.FlashDrvr.WriteSector | sw/host/flashdrvr.cpp:197-256 | one sector is left as a write leaves it and every other is untouched |
| FlashDriver.FlashDrvr.Write | sw/host/flashdrvr.cpp:191-262 | afterwards the range equals the data; around it, bytes are unchanged in sectors that needed no bit to rise and 0xff in those that did; and writes are disabled; for a flash at a nonzero multiple of 2^24, on the clocked controller |
| FlashDriver.MaskOffsetIff | sw/host/flashdrvr.cpp:79-128 | the driver's mask takes a bus address to its offset in the flash if and only if the base is a multiple of 2^24 |
| FlashDriver.SwapBytes | sw/host/flashdrvr.cpp:209-210 | the byte-swapped buffer is the flash's bytes in order |
| FlashDriver.CompareWords | sw/host/flashdrvr.cpp:178-186 | comparing words is comparing bytes |
| RunLength.ExpandSuffix | sw/host/scopecls.cpp:352-401 | losing the oldest words loses the oldest samples and no others |
| RunLength.ExpandGrows | sw/host/scopecls.cpp:352-401 | more words only add samples |
| RunEncoder.ForcedApart | rtl/wbscopc.v:252-286 | in the reference encoder, samples written for nothing but a time-out are more than MAX_STEP + 1 apart |
| RunEncoder.Compresses | rtl/wbscopc.v:252-354 | and up to MAX_STEP + 2 equal samples in a row add one repeat, or, if one of them is written, at most three words |
| ScopeMemory.HoldsOneMore | rtl/wbscopc.v:366-382 | one more word keeps the circular memory in step with the log of words written |
| ScopeMemory.FullMemory | rtl/wbscopc.v:366-382 | a full memory, read from the write address on, is the last words written |
| ScopeMemory.WalkingStep | rtl/wbscopc.v:437-460 | stopped, the pipelined reader gives the words back oldest first, under any spacing of reads |
| WbScopC.CountingStep | rtl/wbscopc.v:252-286 | the run counter never passes MAX_STEP unforced, so its wrap is never recorded |
| WbScopC.SampleTaken | rtl/wbscopc.v:306-340 | the newest word takes in exactly the newest sample of the encoder's register, as a new sample or one more repeat |
| WbScopC.AlternatingLive | rtl/wbscopc.v:342-354 | of two repeats in a row only the second is kept |
| WbScopC.FaithfulStep | rtl/wbscopc.v:236-354 | every clock keeps recorded and pending words equal to the samples the encoder took |
| WbScopC.LaggingStep | rtl/wbscopc.v:294-296 | and those equal to the data on i_data at the enabled clocks, one behind |
| WbScopC.ResetStarts | rtl/wbscopc.v:252-325 | a reset starts a new recording whatever came before |
| WbScopC.FreezeStep | rtl/wbscopc.v:349-350 | once the stop has gone down its pipe, nothing more is written |
| WbScopC.RunInvariant | rtl/wbscopc.v:236-382 | from any reset, in every run, for any data and any i_ce pattern |
| WbScopC.SamplesComeIn | rtl/wbscopc.v:294-296 | the samples counted since the last reset are the latest data of the enabled inputs of the run |
| WbScopC.RecordsFaithfully | rtl/wbscopc.v:236-382 | in every run the recorded and pending words expand to exactly the data on i_data at the enabled clocks since the reset, but the newest, and what is recorded always to a prefix of it |
| WbScopC.FlaggedStep | rtl/wbscopc.v:252-292 | every clock keeps the encoder's flags and run counter saying what the reference encoder says of the next sample |
| WbScopC.EncodesInput | rtl/wbscopc.v:236-354 | in every run, until the stop, the words are those of the reference encoder for the data on i_data at the enabled clocks: a sample becomes a word of its own only if it differs, if memory is not full, at the trigger or the stop, or at a time-out |
| WbScopC.RunCompresses | rtl/wbscopc.v:252-354 | so while the data holds, with memory full and no trigger or stop, MAX_STEP + 2 samples cost at most three words |
| WbScopC.TriggersExactly | rtl/wbscopc.v:176-184 | in every run the scope has triggered exactly if some enabled clock came, after memory had filled, with i_trigger and the trigger not disabled, or with the manual trigger set; and the first such clock brought the sample it counts from |
| WbScopC.MemoryIsWindow | rtl/wbscopc.v:366-382 | memory, once full and past a word left over from before the reset, expands to consecutive samples of the input |
| WbScopC.MemoryAlternates | rtl/wbscopc.v:349-354 | such a memory never holds two repeats in a row |
| WbScopC.ArmedStep | rtl/wbscopc.v:252-292 | every clock keeps the trigger's forced word: with memory full at the trigger, one word more is written, on its way or still to be encoded |
| WbScopC.StoppedForgets | rtl/wbscopc.v:252-382 | when the stop has gone down its pipe, memory has wrapped past its first word |
| WbScopC.StoppedIsWindow | rtl/wbscopc.v:343-382 | so the memory of a stopped scope always expands to consecutive samples of i_data and never holds two repeats in a row |
| WbScopC.PlacedStep | rtl/wbscopc.v:186-225 | every clock keeps the count of samples from the trigger through the holdoff and down the stop pipe |
| WbScopC.StopsExactly | rtl/wbscopc.v:186-382 | in every run from a reset, a scope that has triggered has stopped exactly from the sixth sample after the holdoff on, and the newest sample it keeps is the one `holdoff` + 1 after the sample that came with the trigger |
| WbScopC.ReadoutStep | rtl/wbscopc.v:437-480 | stopped, one clock of a reader under way keeps the recording in place and the walk oldest first |
| WbScopC.ReadsOldestFirst | rtl/wbscopc.v:437-480 | from a reader that is ready, any spacing of reads with the address held returns the words oldest first |
| WbScopC.ReadyAtOnceIff | rtl/wbscopc.v:437-460 | on the clock the stop comes out of its pipe the reader is ready if and only if that clock brought no read |
| WbScopC.ReadsBack | rtl/wbscopc.v:236-480 | from a reset through the stop to the bus: the port returns, oldest first, words that expand to consecutive data of the enabled inputs, up to `holdoff` + 1 after the trigger if the control register was left alone |
| WbScopC.ReadNeedsAddressHeld | rtl/wbscopc.v:470-480 | a read returns its word exactly if the address is held one clock longer |
| WbScopC.Core.Clock | rtl/wbscopc.v:105-480 | the always blocks, evaluated on the registers, take them to their next values |
| WbScopC.Core.StoreBlock | rtl/wbscopc.v:366-382 | the circular memory, in place |
| ScopeDecoder.LengthIs | sw/host/scopecls.cpp:293-310 | the decoder's length is the number of samples, and one more exactly when the first word is a repeat |
| ScopeDecoder.AddressLength | sw/host/scopecls.cpp:293-310 | the loop computes it, in 32 bits |
| ScopeDecoder.WriteTrace | sw/host/scopecls.cpp:343-402 | the value changes written show exactly the samples the words stand for, and a mark is set exactly if some sample word meets the comparison |
| ScopeDecoder.MarkIsMissed | sw/host/scopecls.cpp:383-387 | while the place computed for the trigger is in the trace the comparison holds of no sample |
| ScopeDecoder.MarksIff | sw/host/scopecls.cpp:336-383 | the comparison, in 32 bits, holds of a sample if and only if it is number 2 alen - holdoff - 1 modulo 2^32 |
| ScopeDecoder.MarkIsFalse | sw/host/scopecls.cpp:336-383 | in a trace and with a holdoff below 2^30, a sample that is marked means that the place computed for the trigger comes before the trace |
| ScopeDecoder.MarkAppears | sw/host/scopecls.cpp:336-383 | ten sample words and a holdoff of twelve mark the eighth |
| ScopeDecoder.TriggerIsEarlier | sw/host/scopecls.cpp:336 | in such a trace the trigger's own sample comes one before the place the decoder computes, two if the first word is a repeat |
| ScopeDecoder.NeverMarked | sw/host/scopecls.cpp:336-383 | nor of any word of such a trace |
| ScopeDecoder.WriteVcd | sw/host/scopecls.cpp:319-403 | encoder, port and decoder together: a trace written from the words the port returned after any capture shows consecutive data of the enabled inputs, up to `holdoff` + 1 after the trigger if the control register was left alone |
| ScopeDecoder.WaveformLength | sw/host/scopecls.cpp:343-402 | a trace lasts from its first event to its end |
| WbScope.RecordedStep | rtl/wbscope.v:282-330 | the words written are the samples, one behind |
| WbScope.HeldStep | rtl/wbscope.v:241-270 | the holdoff counts samples after the trigger, and stops one past it or on it |
| WbScope.RunInvariant | rtl/wbscope.v:241-330 | in every run from a reset |
| WbScope.TriggersExactly | rtl/wbscope.v:236-246 | in every run the scope has triggered exactly if some enabled clock came, after as many samples as fill memory, with i_trigger and the trigger not disabled, or with the manual trigger set; and the first such clock brought the sample it counts from |
| WbScope.StopCounts | rtl/wbscope.v:258-270 | on the clock that stops the scope the counter passes the holdoff if and only if a sample comes |
| WbScope.StopsBy | rtl/wbscope.v:241-270 | a scope that has triggered has stopped once more than `holdoff` + 1 samples have come with the trigger and after |
| WbScope.StaysStoppedIff | rtl/wbscope.v:258-270 | for every holdoff the register can hold, a scope that stops stays stopped unless that is the greatest and a sample comes on the stopping clock, which starts the count again |
| WbScope.StopsOnce | rtl/wbscope.v:248-270 | in every run a stopped scope stopped once, on a clock whose sample its counter still tells |
| WbScope.StoppedHolds | rtl/wbscope.v:248-296 | stopped, memory is consecutive samples, the newest of them number trigger + counter - 1 |
| WbScope.StopsExactly | rtl/wbscope.v:248-296 | in every run from a reset, the newest sample in memory is `holdoff` after the trigger if and only if a sample came on the stopping clock, and one short of it otherwise |
| WbScope.TriggerIsKept | rtl/wbscope.v:242-296 | the trigger's own sample is then in memory, so far before the newest, whenever the memory is deep enough |
| WbScope.EnabledKeepsTrigger | rtl/wbscope.v:242-296 | with i_ce high on every clock the trigger's sample is exactly `holdoff` before the newest |
| WbScope.ReadingStep | rtl/wbscope.v:374-420 | a clock of the readout |
| WbScope.ReadsOldestFirst | rtl/wbscope.v:374-420 | from a reader that is ready, under any spacing, the n-th read of the data register returns the n-th oldest word |
| WbScope.ReadyAtOnceIff | rtl/wbscope.v:376-395 | as the scope stops the reader is ready if and only if that clock brought both a sample and a read, or neither |
| WbScope.FirstRead | rtl/wbscope.v:376-420 | a read on the first stopped clock returns the oldest, the newest or the second oldest word, by those four cases |
| WbScope.ReadsBack | rtl/wbscope.v:242-420 | from a reset through the stop to the bus: the n-th word the port returns is the n-th of the last samples, counted from the trigger |
| WbScope.Core.Clock | rtl/wbscope.v:133-420 | the always blocks, evaluated on the registers, take them to their next values |
| ScopeControl.HostReads | sw/host/scopecls.cpp:53-62 | the host takes the control word apart as the scope puts it together: ready, length and holdoff |
| ScopeControl.PlainReadyIff | rtl/wbscope.v:401-415 | so the host finds the plain scope ready exactly when it has stopped |
| ScopeControl.CompressedReadyIff | rtl/wbscopc.v:469-480 | and the compressing scope exactly when the stop is down its pipe |
| ScopeControl.PlainSettings | rtl/wbscope.v:155-178 | a write to the control register reads back: the switches always, the holdoff if the write asks for a reset |
| ScopeControl.CompressedSettings | rtl/wbscopc.v:109-121 | and in the compressing scope switches and holdoff always; it resets unless bit 31 is set |
| ScopeControl.SettingsKept | rtl/wbscope.v:155-178 | nothing else on the bus changes the settings of either |
| ScopeControl.OnlyReadsMove | rtl/wbscope.v:374-380 | once the plain scope has stopped, exactly the reads of its data register move on to the next word |
| TxUart.TransmitsStep | rtl/txuartlite.v:85-212 | for any period and any writes, a byte is accepted only after ten full bit periods, and the line then carries its frame |
| TxUart.BecomesFree | rtl/txuartlite.v:85-130 | and after ten bit periods without a new byte o_busy is low |
| TxUart.LineIs | rtl/txuartlite.v:142-147 | the output is the start bit, the data bits least significant first, and the stop bit |
| TxUart.Transmitter.Clock | rtl/txuartlite.v:85-212 | the always blocks on the registers |
| RxUart.CompatibleIff | rtl/rxuartlite.v:103-193 | the two inequalities between the periods hold exactly when every sampling point lies within its own bit |
| RxUart.ReceivesStep | rtl/rxuartlite.v:84-193 | the receiver's state is determined by the byte and age of the frame at its input, from start bit to delivery |
| RxUart.SampleIs | rtl/rxuartlite.v:140-143 | the bit shifted in is the data bit it should be |
| RxUart.NoStopBit | rtl/rxuartlite.v:113-159 | a byte whose stop bit is low is not delivered |
| RxUart.BreakIsIgnored | rtl/rxuartlite.v:113-159 | and nothing is for as long as the line stays low |
| RxUart.Receiver.Clock | rtl/rxuartlite.v:84-193 | the always blocks on the registers |
| UartLink.SendsStep | rtl/txuartlite.v:85-212 | accepted bytes stay ten bit periods apart |
| UartLink.HeldIsAccepted | rtl/txuartlite.v:85-212 | from every state a run reaches, a write that is held is accepted within ten bit periods and a clock |
| UartLink.SynchronizedStep | rtl/rxuartlite.v:80-89 | the synchronizer holds the line of the last three clocks |
| UartLink.DeliveredStep | rtl/rxuartlite.v:145-159 | a delivery is always the oldest byte still due, on the clock it is due |
| UartLink.DeliversAll | rtl/rxuartlite.v:84-193 | for any timing of writes, the bytes delivered are those accepted, in order, none lost, repeated or altered, each after a fixed delay |
| UartLink.EqualClocksDeliver | rtl/rxuartlite.v:84-193 | in particular for every CLOCKS_PER_BAUD of at least 4 shared by both ends |
| UartLink.DeliversSpaced | rtl/rxuartlite.v:84-193 | with unequal clocks within the limits, every single frame, and frames far enough apart, still arrive |
| SoftDivide.BitRev | sw/zlib/udiv.c:48-55 | the loop reverses the 32 bits |
| SoftDivide.Cltz | sw/zlib/udiv.c:90-121 | the result is the number of leading zeros, and 63 for zero |
| SoftDivide.CountTrailing | sw/zlib/udiv.c:101-121 | the five halvings count the trailing zeros |
| SoftDivide.ShiftSubtract | sw/zlib/udiv.c:154-169 | the loop divides a normalized dividend by a normalized divisor |
| SoftDivide.UDiv | sw/zlib/udiv.c:124-170 | floor(a / b) for all 64-bit a and nonzero b, on every path |
| SoftDivide.HighWords | sw/zlib/udiv.c:142-153 | dividing the high words is enough when the divisor's low word is zero |
| SoftDivide.UMod | sw/zlib/umod.c:53-62 | a mod b |
| SoftDivide.Div | sw/zlib/udiv.c:211-227 | the truncated quotient, exactly except for the most negative number by -1 |
| SoftMultiply.SoftMpyUhi | sw/board/cputest.c:652-705 | the high word of the unsigned product, for all operands |
| SoftMultiply.Spread | sw/board/cputest.c:665-672 | the shifted halves, split into limbs, lose nothing |
| SoftMultiply.AddLow | sw/board/cputest.c:673-681 | the carries of the first loop keep the sum |
| SoftMultiply.AddHigh | sw/board/cputest.c:695-700 | the carries of the second loop keep the sum |
| SoftMultiply.SoftMpyShi | sw/board/cputest.c:707-726 | the high word of the signed product, for all operands, the most negative and products with a zero low word included |
| SoftMultiply.HighOfNegative | sw/board/cputest.c:717-725 | complementing the high word negates the product but for the carry out of a zero low word |
| SdCrc.CrcLinear | sim/sdspisim.cpp:491-509 | the checksum of a difference is the difference of the checksums |
| SdCrc.SelfCheck | sim/sdspisim.cpp:491-516 | a block followed by its own checksum has checksum zero |
| SdCrc.CrcIsSerial | sim/sdspisim.cpp:495-504 | the byte loop and the bit-serial form agree |
| SdCrc.BurstDetected | sim/sdspisim.cpp:491-516 | in a block of any length, an error within sixteen consecutive bits of message and checksum leaves a nonzero residue |
| SdCrc.StepsInjective | sim/sdspisim.cpp:498-503 | nothing but zero steps to zero |
| SdSim.CmdCrc | sim/sdspisim.cpp:468-483 | the unmasked, sign-extended accumulator yields the CRC7 of the bytes and the end bit |
| SdSim.CheckCmdCrc | sim/sdspisim.cpp:485-489 | a command is good exactly when its sixth byte is that checksum |
| SdSim.BlockCrc | sim/sdspisim.cpp:491-509 | the unmasked accumulator yields the CRC16 of the bytes |
| SdSim.AddBlockCrc | sim/sdspisim.cpp:511-516 | the checksum is appended, nothing else changes, and the block then checks |
| SdSim.EightSteps | sim/sdspisim.cpp:473-478 | the inner loop is eight steps of the register |
| SdPoly.CrcDivides | sim/sdspisim.cpp:491-509 | for any taps and any message, the register ends with the remainder of the message on division by the polynomial |
| SdPoly.RemainderUnique | sim/sdspisim.cpp:491-509 | there is only one remainder |
| SdPoly.BlockRemainder | sim/sdspisim.cpp:491-509 | blockcrc() is the remainder of the message times x^16 modulo x^16 + x^12 + x^5 + 1 |
| SdPoly.CommandRemainder | sim/sdspisim.cpp:468-483 | cmdcrc(), above its end bit, is the remainder of the message times x^7 modulo x^7 + x^3 + 1 |
| SdEngine.SerialBlockCrc | rtl/sdspi.v:884-922 | fed bytes at least nine clocks apart, the serial CRC16 circuits hold blockcrc() of the bytes eight clocks after the last |
| SdEngine.SerialCmdCrc | rtl/sdspi.v:927-950 | likewise the command circuit holds cmdcrc() |
| SdEngine.BlocksStartClear | rtl/sdspi.v:884-922 | from any state and through any idle spells, the block circuits hold the checksum of the bytes fed since they were last inactive |
| SdEngine.CommandsStartClear | rtl/sdspi.v:927-950 | and so does the command circuit |
| SdEngine.BlockStep | rtl/sdspi.v:884-901 | a clock of a block circuit |
| SdEngine.CommandStep | rtl/sdspi.v:927-949 | a clock of the command circuit |
| SdEngine.Engines.ClockWrite | rtl/sdspi.v:884-901 | the write side's registers |
| SdEngine.Engines.ClockRead | rtl/sdspi.v:903-922 | the read side's registers |
| SdEngine.Engines.ClockCommand | rtl/sdspi.v:927-949 | the command registers |
| Fifo.RefinesStep | rtl/ufifo.v:71-191 | every clock does what a bounded queue of 2^LGFLEN - 1 items does, with every flag exact and the output the oldest item |
| Fifo.MemoryStep | rtl/ufifo.v:83-153 | the items stay where the pointers say, also when reading and writing at once while full |
| Fifo.OutputStep | rtl/ufifo.v:155-174 | the look-ahead output is the oldest item whenever there is one |
| Fifo.FlagsStep | rtl/ufifo.v:71-191 | overflow, underflow and not-empty flags, and the record of a dropped write |
| Fifo.ResetRepresents | rtl/ufifo.v:135-141 | a reset brings any state to the empty queue |
| Fifo.RunRefines | rtl/ufifo.v:71-191 | from a reset on, in every run |
| Fifo.FillExact | rtl/ufifo.v:203-230 | the fill count is exact after a clock if and only if that clock is not one of the four listed |
| Fifo.ConservedStep | rtl/ufifo.v:115-153 | what goes in comes out in order, exactly unless a read meets a write in an empty FIFO |
| Fifo.RunConserves | rtl/ufifo.v:71-191 | readers who look first get every accepted item once, in order |
| Fifo.UFifo.Clock | rtl/ufifo.v:71-230 | the always blocks on the registers and the memory |
| GenUCtrl.PlaysStep | rtl/genuctrl.v:83-144 | the fetch pipeline does, clock by clock, what a direct interpreter of the script does |
| GenUCtrl.ResetPlays | rtl/genuctrl.v:86-142 | a reset from any state starts the script |
| GenUCtrl.NthIs | rtl/genuctrl.v:125-130 | words become active in order, round and round or stuck at the last |
| GenUCtrl.ShowsScript | rtl/genuctrl.v:83-144 | at every clock after a reset o_cmd is the latest command; a delay lasts one clock more than its count, and the first word two more |
| GenUCtrl.Core.Clock | rtl/genuctrl.v:83-156 | the always blocks on the registers |
| LlSdSpi.FollowsStep | rtl/llsdspi.v:173-289 | the registers are determined by the byte, the bits received and the level of SCK |
| LlSdSpi.HeldIsTaken | rtl/llsdspi.v:213-262 | a byte held out to a selected engine at rest is taken on that clock if o_idle is high, else on the next |
| LlSdSpi.OrderlyStep | rtl/llsdspi.v:213-280 | every clock keeps the pins' history to whole exchanges and the one under way |
| LlSdSpi.RunOrderly | rtl/llsdspi.v:173-289 | at any speed, the history of the pins is whole exchanges, eight rising edges of SCK with chip select low and the bits of the byte on MOSI and one answer with the eight values of MISO, and the one under way |
| LlSdSpi.EventsLow | rtl/llsdspi.v:277-280 | MOSI holds its bit across the rising edge |
| LlSdSpi.TakeTime | rtl/llsdspi.v:175-201 | how long a byte takes, from the cold and from the hot idle state, with its first bit on MOSI from the start |
| LlSdSpi.Countdown | rtl/llsdspi.v:175-201 | every clock brings the answer one clock nearer |
| LlSdSpi.RunAlong | rtl/llsdspi.v:173-280 | at a constant speed the answer to a byte under way comes after exactly the clocks that remain |
| LlSdSpi.ByteCompletes | rtl/llsdspi.v:173-280 | every byte taken is finished: 15 or 16 half bits and a clock after it is taken comes its answer, the pins have seen the whole exchange, and the engine is idle |
| LlSdSpi.NotEarlier | rtl/llsdspi.v:173-280 | and no answer comes before |
| LlSdSpi.StartupEndsIff | rtl/llsdspi.v:132-189 | from power-on at a constant speed, the hold has ended if and only if the speed is zero and 2 STARTUP_CLOCKS + 3 clocks have passed |
| LlSdSpi.StartupRests | rtl/llsdspi.v:132-289 | and then the engine is at rest, and idle if it is selected |
| LlSdSpi.DeselectRests | rtl/llsdspi.v:217-224 | after startup, deselecting brings the engine to rest, and idle at once unless a half bit was running |
| LlSdSpi.SelectFollows | rtl/llsdspi.v:209-288 | from power-on, in every run, o_cs_n is high throughout the startup hold and from then on low exactly if i_cs was high on the clock before |
| LlSdSpi.Core.Clock | rtl/llsdspi.v:132-289 | the always blocks on the registers |
| Debouncer.SpacedStep | rtl/debouncer.v:108-139 | a change of the output starts the timer, and no other comes before it has run out |
| Debouncer.ChangesApart | rtl/debouncer.v:108-139 | in every run, two changes are at least 2^LGWAIT clocks apart |
| Debouncer.Settles | rtl/debouncer.v:84-139 | a steady input is on the output within one period and three clocks, and stays |
| Debouncer.ShowsInputs | rtl/debouncer.v:84-139 | the output never shows anything but what was on the input |
| Debouncer.ChangesAtOnce | rtl/debouncer.v:84-139 | after a quiet spell a new value is on the output exactly four clocks later |
| Debouncer.Core.Clock | rtl/debouncer.v:84-139 | the always blocks on the registers |

## Left out

- FlashDevice: commands the controller and driver do not use (write status register,
  identification, fast, dual and quad reads, bulk erase, deep power-down) lead to a state `Lost`
  about which nothing is claimed.
- FlashSim.FlashSim.Call: follows the same eight commands; every other one leads to `Lost`.
- FlashSim.FlashSim.Deselected: carries out page program and sector erase; the other commands that act
  on deselection are not followed.
- FlashSim.FlashSim.CommandIn: the same eight commands.
- FlashSim.FlashSim.ByteIn: the bytes that follow those commands.
- FlashDevice.ReadByte: reads past the last byte of the array have an arbitrary value that no theorem uses.
- FlashDevice.SIZE: the flash has 2^24 bytes, the simulator's default; the deployed one has 2^19.
- SpiXpress: OPT_PIPE and OPT_CFG are both set, as in this design.
- SpiRuns.Init: the simulator never initialises its bit counter, so runs start from a deselected flash.
- SpiRuns.ReadsReturnFlash: says nothing of a read from a flash that was busy when selected, nor of a
  burst that has wrapped, for which `SpiRuns.ReadsReturnLine` gives the word.
- FlashDriver.FlashDrvr.Write: needs the flash's bus base to be a nonzero multiple of 2^24, without which
  the driver's masks miss every address of it (`FlashDriver.MaskOffsetIff`) and which the deployed
  register map does not provide, 4-aligned address and length, and every sector that needs an erase
  below 4 MB, where the simulator's assertion stops it.
- FlashDriver.FlashDrvr.ProgramFrom: the length at line 244 of the source is initialised from itself; the outer
  length is what is modelled.
- DevBus: the host waits for each answer, with any number of idle clocks between accesses; its
  transport to the bus is not modelled.
- DevBus.DevBus.WriteConfig: says nothing of the reply in the middle of a read command, whose last bit
  the flash may blank.
- WbScopC: SYNCHRONOUS = 0, with its clock crossing, is not modelled; nor is it in WbScope.
- WbScopC.MemoryIsWindow: before the stop, needs a word left over from before the reset to have been
  overwritten; a stopped scope needs nothing of the kind (`WbScopC.StoppedIsWindow`).
- WbScopC.MemoryAlternates: the same.
- WbScopC.ReadsBack: the host leaves the control register alone, holds the address for a clock after
  each read and reads no more words than there are.
- ScopeDecoder: times in nanoseconds, user-defined traces and the text of the trace file are not
  modelled; nor is print(), which, unlike writevcd(), counts a leading repeat and compares the
  trigger's offset after counting the sample.
- WbScope.StopsOnce: a holdoff of 2^HOLDOFFBITS - 1, with which the scope may start again, exactly as
  `WbScope.StaysStoppedIff` says.
- WbScope.StopsExactly: the same.
- WbScope.RunInvariant: the same holdoff; the control register is left alone from the reset on.
- WbScope and WbScopC: acknowledgements and the interrupt are not modelled.
- WbScopC.EncodesInput: a time-out may come one sample after the data has changed, which then costs a
  second word; the reference encoder says exactly when.
- TxUart and RxUart: one clock for both ends of the line, no metastability, and TIMER_BITS wide
  enough for CLOCKS_PER_BAUD.
- SoftDivide.UDiv: a divisor of zero is left to the hardware divide it reaches.
- SoftDivide.Div: negating the most negative number is taken to wrap.
- SoftMultiply.SoftMpyShi: signed overflow is taken to wrap.
- SdSim: the debug output; SdEngine: the states around the three circuits that decide when they
  are active and when a byte is strobed.
- SdEngine.SerialCmdCrc: bytes closer than nine clocks apart, for which the command circuit has a pending flag
  that is modelled but about which nothing is proved.
- Fifo: the layout of the status word.
- GenUCtrl: LGDELAY = 0; a script whose first word is a delay, which the source's own assertion excludes.
- LlSdSpi: bus arbitration (OPT_SPI_ARBITRATION = 0); STARTUP_CLOCKS a power of two, which the startup
  counter is too narrow to hold; a startup whose speed changes on the way.
- Debouncer: a register without a power-on value (r_last) starts at zero.
- Sockets, terminals, the debugger, the disassembler, the SDRAM model, the SD card's command
  machine and the top-level wiring: no pair to prove against, or no property that is not plumbing.
