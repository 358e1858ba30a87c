# Verified models of three Linux drivers

This project models, in Dafny 4.11, the three drivers of the repository that hold real logic, and
proves properties of the models for all inputs, all runs and all interleavings:

- **I2C** (`linux_driver/i2c/i2c-s3c2410.c`): the interrupt-driven transfer engine of the S3C2410
  controller, the transfer and retry loops around it, and its clock divider.
- **SPI** (`linux_driver/spi/spi_s3c64xx.c`): the message queue between clients, the worker and power
  management; the handling of a message with its settings cache, chip selects and DMA mappings; and
  the clock negotiation of setup.
- **RAM disk** (`my_linux_driver_codes/写一个块设备驱动.c`): a sparse store of four-page segments in a
  radix tree, the splitting of requests, concurrent requests, and teardown.

`dafny verify dfyconfig.toml` checks everything.

## How the project is laid out

| file | contents |
|---|---|
| `Base.dfy`, `Division.dfy` | bytes, options, error numbers; division by variables |
| `I2cMessages.dfy` | messages, bus events, the trace that a message list stands for |
| `I2cEngine.dfy` | one interrupt as a function on the driver's fields, and runs of interrupts |
| `I2cRun.dfy` | what every run puts on the bus, when it ends and with which code |
| `I2cDriver.dfy` | the driver as a class: interrupt handler, transfer, bus wait and retry loop |
| `I2cClock.dfy` | divider and clock rate |
| `SpiQueue.dfy` | queue, worker and suspend as a state machine, and the class of its steps |
| `SpiClock.dfy` | the speed negotiation of setup against the divider of config |
| `SpiConfig.dfy` | registers as sets of bits, and configuring lazily against configuring always |
| `SpiReading.dfy` | what the registers mean to the hardware, bit by bit |
| `SpiTransfers.dfy` | transfers of a message: tallies, mappings, runs of settings |
| `SpiSelect.dfy` | chip selects over the transfers of a message and over messages |
| `SpiController.dfy` | the controller as a class: handling of a message, setup, mappings, chip select |
| `DiskStore.dfy` | page groups, the tree, and the flat byte array they stand for |
| `DiskDriver.dfy` | the driver as a class: requests and teardown |
| `DiskThreads.dfy` | interleaved requests that do not conflict |
| `DiskPasses.dfy` | passes of any requests: the last one over a byte decides; building runs |
| `DiskSerial.dfy` | two writes at the same time: when they are serializable |
| `DiskReads.dfy` | a read while a write goes on: when it is atomic |

Code that updates state is a class with the driver's fields. Where a property is about whole runs, the
class methods are proved equal to a function on the state (`I2cEngine.Step`, `SpiQueue.Apply`), and
the property is proved about that function.

## What turned out to hold only under a condition

Each is stated with its exact condition; most have a lemma with an input on which they fail.

- The I2C engine puts the message list on the bus, byte for byte, if and only if the list is
  *supported*: after a read it only goes on reading, into buffers that are not empty, and from a write
  it changes direction only by a new START (`I2cRun.DeliversExactly`). A read that follows a read gets
  no START of its own, with or without the NOSTART flag.
- doxfer and xfer return the full count exactly for supported lists and for lists with a *silent turn*,
  whose first unsupported message is a write after a read with no empty buffer from there on: that
  write is never sent, and its buffer is overwritten (`I2cRun.DeliversExactly`,
  `I2cRun.FullCountUndelivered`). For all other lists the engine ends up using a stray pointer or
  storing outside a buffer.
- A count of k below the total says that messages 0 to k-1 were transferred exactly if the list is
  supported up to message k-1, and that message k is under way exactly if it is supported up to k
  (`I2cRun.ReturnCode`); a read, a write and a read give a count of two with the write not sent
  (`I2cRun.CountUndelivered`).
- The last byte of a list is left unacknowledged, as section 3.1.6 of UM10204 asks, unless the list
  ends in a read of one byte that goes on from another read (`I2cMessages.AcknowledgeDiscipline`,
  `I2cMessages.LateNakOnBus`).
- The rounding up in calcdivisor wraps around for quotients within 511 of the word size
  (`I2cClock.DividerIsLeast`, `I2cClock.DividerWraps`); a clock rate whose divider divides exactly can
  come out above its target (`I2cClock.ClockRate`, `I2cClock.ExactAboveTarget`).
- SPI setup refuses some attainable speeds, exactly when the clock quotient is above 256
  (`SpiClock.NegotiateExact`, `SpiClock.AttainableRefused`); with a clock of 130050 Hz or more it never
  does (`SpiClock.FastClockRefusal`).
- config takes the divider that setup took exactly if no larger one gives the same speed; it delivers that
  speed in any case (`SpiClock.ConfigRecoversDivider`, `SpiClock.OtherDivider`). A transfer with a speed
  of its own, which setup never sees, gets exactly that speed if and only if some divider gives it and the
  quotient is from 1 to 256; otherwise it runs faster, or, above the clock, at the slowest speed
  (`SpiClock.OwnSpeedExact`, `SpiClock.OwnSpeedTooFast`).
- DMA mappings are always given back, but one unmap of an address that was never mapped is made,
  exactly when the first mapping to fail is that of a receive-only transfer
  (`SpiController.Controller.HandleMsg`, `SpiController.Controller.RxOnlyGoesAstray`).
- Every transfer has its device selected alone exactly if each device left selected by a hint has the
  polarity of the next one to start (`SpiSelect.AloneExactly`, `SpiSelect.OtherPolarityStays`).
- The high-speed bit of a transfer is also set if it was left over (`SpiConfig.DatapathExact`), which
  happens after a failed fast read (`SpiConfig.StaleHighSpeed`), and to the first transfer of a message
  only. The packet counter is right up to 65535 words (`SpiConfig.PacketsExact`, `SpiConfig.PacketsWrap`).
- With the SPI worker at rest, messages are left in the queue exactly if messages were waiting at its
  last look, that look came under SUSPND, and none was accepted since (`SpiQueue.StrandedExactly`); this
  can last beyond resume
  (`SpiQueue.SuspendStrands`); without suspend no wake-up is lost (`SpiQueue.NoLostWakeup`).
- The range check of the disk can be passed by a request outside the device, exactly when the 64-bit sum
  wraps around to a small value (`DiskDriver.RangeCheckExact`, `DiskDriver.OutsideAccepted`).
- A failed mapping of a bio's page is noticed only for offset 0; otherwise the driver uses the sum of a
  null pointer and the offset (`DiskDriver.RamDisk.MakeRequest`, `DiskDriver.MissedMapping`). A page stays
  mapped exactly if the transfer of its piece fails.
- Requests on the disk are atomic per segment only. Two writes leave the disk of one after the other,
  under every complete schedule, if and only if the bytes on which they disagree lie in one segment
  (`DiskSerial.SerialExactly`, `DiskSerial.OverlappingWritesTear`). A read during a write returns what was
  there before or what is there afterwards if and only if the bytes that the write changes in its range
  lie in one segment (`DiskReads.AtomicExactly`). Requests that share bytes only for reading never
  interfere (`DiskThreads.SchedulesAgree`).

Where comments and code disagree the models follow the code: `s3c64xx_spi_setup` leaves the device
deselected only past its first three checks (the comment at its end says always), and the master
interface in `my_linux_driver_codes/spi/head.h` lets transfers use the mode set up before, which the
driver takes from the device at the head of each message.

## Model

| member | source | states |
|---|---|---|
| I2cRun.DeliversExactly | linux_driver/i2c/i2c-s3c2410.c:270-428 | main result: for every message list and every long enough run in which all bytes are acknowledged, the engine delivers the flattened list, with read buffers filled in order and one STOP, if and only if the list is supported; it ends without a fault and with the full count if and only if the list is supported or has a silent turn; it faults for all other lists |
| I2cRun.AcceptedRun | linux_driver/i2c/i2c-s3c2410.c:270-428 | for every list, after each acknowledged interrupt either the transfer is over (delivered, silently wrong, or crashed) or less work is left, so the number of interrupts is bounded |
| I2cRun.RunPhase | linux_driver/i2c/i2c-s3c2410.c:270-428 | every run on every list, acknowledged or not, is under way or about to go wrong, over, or refused at a message; only unsupported lists go wrong |
| I2cRun.StepTracks | linux_driver/i2c/i2c-s3c2410.c:270-428 | one interrupt of a transfer under way: it goes on with less work left, ends well, is refused with STOP after the unacknowledged byte, is about to read into a message it cannot read into, or crashes on a list of that kind |
| I2cRun.LiveStep | linux_driver/i2c/i2c-s3c2410.c:270-428 | one interrupt of any transfer that is not over, also of one that has gone wrong: it ends, is refused, or goes on with less work left |
| I2cRun.StrayedStep | linux_driver/i2c/i2c-s3c2410.c:382-417 | past a write after a read the engine reads on, until the end of the list or into an empty buffer |
| I2cRun.StrayedIsNotDelivered | linux_driver/i2c/i2c-s3c2410.c:382-417 | such a transfer is not delivered: where a START should be the bus has seen a received byte |
| I2cRun.StrayedCount | linux_driver/i2c/i2c-s3c2410.c:382-417 | past the turn the messages counted were not all transferred, unless the message of the turn is the current one, and the current one is never as it should be |
| I2cRun.FullCountUndelivered | linux_driver/i2c/i2c-s3c2410.c:391-415 | a read and a write of one byte each: three interrupts end the transfer with the full count, the write not sent and its buffer overwritten |
| I2cRun.CountUndelivered | linux_driver/i2c/i2c-s3c2410.c:391-415 | a read, a write and a read of one byte each: after three interrupts the count is two, the write not sent |
| I2cRun.NextTracks | linux_driver/i2c/i2c-s3c2410.c:348-373 | going on to the next message of a write, with or without START, keeps the trace exact and reduces the work, so each jump back to retry_write makes progress |
| I2cRun.WriteTracks | linux_driver/i2c/i2c-s3c2410.c:334-380 | the write path over any number of jumps: one more byte or a START with less work left, the final STOP, or a fault on a list that is bound to end in one |
| I2cRun.ReadTracks | linux_driver/i2c/i2c-s3c2410.c:382-417 | a received byte lands in its place in its buffer and on the trace with the right acknowledge bit |
| I2cRun.StartTracks | linux_driver/i2c/i2c-s3c2410.c:287-315 | after a START: refusal, an empty last message, the first byte out, or the first read |
| I2cRun.StartByte | linux_driver/i2c/i2c-s3c2410.c:176-214 | the address byte written is the one of section 3.1.10 of UM10204, seven address bits and then the direction, reversed on request |
| I2cRun.StepGrows | linux_driver/i2c/i2c-s3c2410.c:270-428 | no interrupt takes anything back from the bus or changes a message other than buffer bytes |
| I2cRun.ReturnCode | linux_driver/i2c/i2c-s3c2410.c:539-570 | for every list on which the driver does not crash, whenever the wait ends: a code k from 0 up says that messages 0 to k-1 were transferred if and only if the list is supported up to message k-1, and that message k is under way if and only if it is supported up to k; the number of messages says that the list was delivered or, if it is not supported, had a silent turn; a negative code is one of the two refusals |
| I2cRun.NegativeExactly | linux_driver/i2c/i2c-s3c2410.c:292-332 | for every list, unless the driver crashes, the code is negative if and only if some byte was refused by the slave and its message cares |
| I2cRun.NeverTryAgain | linux_driver/i2c/i2c-s3c2410.c:122-134 | no run of interrupts on any list leaves the code that would make xfer try again |
| I2cMessages.AcknowledgeDiscipline | linux_driver/i2c/i2c-s3c2410.c:391-396 | exactly the last byte of the whole list is left unacknowledged, if and only if the list does not end in a one-byte read going on from another read |
| I2cMessages.LateNakOnBus | linux_driver/i2c/i2c-s3c2410.c:391-396 | two reads of one byte each: both bytes are acknowledged |
| I2cDriver.S3c24xxI2c.IrqNextByte | linux_driver/i2c/i2c-s3c2410.c:270-428 | the interrupt handler on the fields and buffers in memory is one step of the engine, also if messages share buffers; if they do not, memory holds what was read; outside a transfer nothing changes, after its STOP only the interrupt is disabled |
| I2cDriver.S3c24xxI2c.AddressSent | linux_driver/i2c/i2c-s3c2410.c:287-315 | the handling of STATE_START, with its fall through to the write path, is that of the engine |
| I2cDriver.S3c24xxI2c.WriteNext | linux_driver/i2c/i2c-s3c2410.c:334-380 | the loop of the goto retry_write computes the write step |
| I2cDriver.S3c24xxI2c.ReadNext | linux_driver/i2c/i2c-s3c2410.c:391-415 | the code from prepare_read on computes the read step |
| I2cDriver.S3c24xxI2c.StopTransfer | linux_driver/i2c/i2c-s3c2410.c:216-230 | STOP, completion with the code, interrupts off |
| I2cDriver.S3c24xxI2c.SetMaster | linux_driver/i2c/i2c-s3c2410.c:472-503 | succeeds exactly if one of the 400 (or 10) polls finds the bus free, or the controller can be reset, which it is exactly if all 10 polls find it busy |
| I2cDriver.S3c24xxI2c.DoXfer | linux_driver/i2c/i2c-s3c2410.c:510-571 | starts a transfer exactly if not suspended and the bus is free, touches nothing otherwise, and returns what the run of the interrupts left, never -EAGAIN, for every list |
| I2cDriver.S3c24xxI2c.Xfer | linux_driver/i2c/i2c-s3c2410.c:579-604 | for any list and retry limit at most one transfer is started, exactly if some attempt finds the bus free; otherwise nothing changes, and the code tells a suspended adapter from a bus that stays busy; the clock count is restored on every exit; and the code of a transfer means what CodeMeaning says |
| I2cDriver.CodeMeaning | linux_driver/i2c/i2c-s3c2410.c:539-604 | unless the driver crashed: the code is negative exactly if a byte was refused; a count from 0 up is true of the messages counted, and of the current one, exactly if the list is supported up to there; the full count says delivered or silent turn, and delivery gives the full count |
| I2cClock.DividerIsLeast | linux_driver/i2c/i2c-s3c2410.c:627-644 | the divider is the least one that, with its prescaler, reaches the quotient, exactly if that is within 17 prescalers; beyond, it is 17 unless the rounding wraps around |
| I2cClock.SettingIsBest | linux_driver/i2c/i2c-s3c2410.c:627-644 | prescaler and divider together: of all settings of the hardware that reach the quotient none divides by less |
| I2cClock.DividerWraps | linux_driver/i2c/i2c-s3c2410.c:627-644 | the largest quotient gets the smallest divider |
| I2cClock.CalcDivisor | linux_driver/i2c/i2c-s3c2410.c:624-647 | prescaler, divider and the resulting frequency: of all settings of the hardware that reach the quotient none divides by less, so none comes closer to the wanted frequency; at most the wanted frequency, or above it by the remainder's share when the division is exact |
| I2cClock.ClockRate | linux_driver/i2c/i2c-s3c2410.c:656-692 | success means a frequency no higher than the target, the closest of all settings that reach the quotient, and comes exactly under the stated condition on quotient and remainder |
| I2cClock.ExactAboveTarget | linux_driver/i2c/i2c-s3c2410.c:624-692 | a clock and a target whose exact division comes out above the target |
| SpiQueue.EveryRun | linux_driver/spi/spi_s3c64xx.c:767-832 | main result over all interleavings of clients, worker and suspend: accepted messages are the completed ones, then the one in flight, then the queue; SPIBUSY is exactly being handled; past suspend's wait nothing is in flight |
| SpiQueue.CompletionOrder | linux_driver/spi/spi_s3c64xx.c:779-798 | messages complete in the order of acceptance and stay completed |
| SpiQueue.ExactlyOnePlace | linux_driver/spi/spi_s3c64xx.c:779-798 | an accepted message is queued, in flight or completed, counted once in all |
| SpiQueue.HandledWithClocks | linux_driver/spi/spi_s3c64xx.c:1181-1214 | no message is handled or completed with the clocks off, and from the end of suspend's wait until resume clears the flag none is in flight and none starts |
| SpiQueue.NoLostWakeup | linux_driver/spi/spi_s3c64xx.c:779-827 | in runs without suspend, a waiting message implies that the work item is pending or the worker still before its last look |
| SpiQueue.NothingAccepted | linux_driver/spi/spi_s3c64xx.c:817-820 | over every interleaving, from SUSPND on until it is cleared nothing is accepted, and what was accepted before is conserved |
| SpiQueue.StrandedExactly | linux_driver/spi/spi_s3c64xx.c:779-800 | main result: with the worker at rest, messages wait if and only if its last look at the queue came under SUSPND with messages waiting, and none was accepted since |
| SpiQueue.DrainCompletes | linux_driver/spi/spi_s3c64xx.c:767-805 | from any such state the worker alone completes all accepted messages |
| SpiQueue.SuspendStrands | linux_driver/spi/spi_s3c64xx.c:1175-1217 | a run with a suspend after which a message waits and nobody will look at it |
| SpiQueue.Driver.TransferMsg | linux_driver/spi/spi_s3c64xx.c:807-832 | accepted: the message joins the end of the queue and the work is pending; refused under SUSPND: nothing changes; both are the step of the state machine and keep its invariant |
| SpiQueue.Driver.NextMessage | linux_driver/spi/spi_s3c64xx.c:777-800 | the worker's stretch under the lock is the step of the state machine; the message handed out is the first accepted one not yet completed, and the clocks run |
| SpiQueue.Driver.CompleteMessage | linux_driver/spi/spi_s3c64xx.c:737-740 | completion is the step of the state machine and keeps its invariant |
| SpiQueue.Driver.SuspendPolls | linux_driver/spi/spi_s3c64xx.c:1185-1186 | suspend waits exactly while the worker is busy, and keeps the invariant |
| SpiQueue.Driver.SuspendSetsFlag | linux_driver/spi/spi_s3c64xx.c:1181-1183 | setting SUSPND under the lock is the step of the state machine |
| SpiQueue.Driver.SuspendStopsClocks | linux_driver/spi/spi_s3c64xx.c:1188-1190 | stopping the clocks is the step that comes after the wait; no message is being handled |
| SpiQueue.Driver.ResumeStartsClocks | linux_driver/spi/spi_s3c64xx.c:1206-1210 | the clocks run again before the flag is cleared |
| SpiQueue.Driver.ResumeClearsFlag | linux_driver/spi/spi_s3c64xx.c:1212-1214 | clearing SUSPND is the last step of resume |
| SpiClock.NegotiateExact | linux_driver/spi/spi_s3c64xx.c:887-917 | main result: an accepted speed is the best that a divider from 1 to 255 attains below the request; acceptance comes exactly if one attains it and the quotient is at most 256; a refused speed is left at the limit |
| SpiClock.FastClockRefusal | linux_driver/spi/spi_s3c64xx.c:887-917 | with half the clock at 65025 Hz or more, refusal is exactly that no divider attains the request |
| SpiClock.AttainableRefused | linux_driver/spi/spi_s3c64xx.c:887-917 | a clock and a speed that a divider attains and setup refuses |
| SpiClock.SecondSetup | linux_driver/spi/spi_s3c64xx.c:887-917 | a second setup accepts an accepted speed again and leaves it unchanged, for every clock |
| SpiClock.ConfigRecoversDivider | linux_driver/spi/spi_s3c64xx.c:472-477 | for every clock and accepted speed, the differently rounded division of config gives a divider that delivers exactly that speed; it is the one setup took exactly if no larger one gives the speed, and always with half the clock at 65025 Hz or more |
| SpiClock.OtherDivider | linux_driver/spi/spi_s3c64xx.c:472-477 | a clock and a speed for which setup and config take different dividers |
| SpiClock.OwnSpeedExact | linux_driver/spi/spi_s3c64xx.c:472-477 | for every speed that a transfer may ask for, the speed that config gives it, and exactly when that is the one asked for |
| SpiClock.OwnSpeedTooFast | linux_driver/spi/spi_s3c64xx.c:472-477 | a clock and a speed for which a transfer runs faster than it asks |
| SpiClock.SettleSpeed | linux_driver/spi/spi_s3c64xx.c:887-917 | the speed block of setup computes the negotiated speed with the properties above |
| SpiConfig.ConfigExact | linux_driver/spi/spi_s3c64xx.c:414-484 | config is idle exactly if the registers already hold what it writes, and leaves them so |
| SpiReading.ConfigReads | linux_driver/spi/spi_s3c64xx.c:414-484 | main result: after config the hardware runs, whatever the registers held, as master with the polarity and phase, bus and channel word size and clock divider of the settings, read bit by bit |
| SpiReading.ReadsDelivers | linux_driver/spi/spi_s3c64xx.c:472-477 | for a speed that setup has accepted the low byte of the clock register divides the clock to exactly that speed |
| SpiReading.ConfigLeaves | linux_driver/spi/spi_s3c64xx.c:414-484 | config touches no other bit |
| SpiConfig.DecodesUnique | linux_driver/spi/spi_s3c64xx.c:414-484 | registers read back as one polarity and phase, one word size and one clock only |
| SpiConfig.DatapathKeeps | linux_driver/spi/spi_s3c64xx.c:230-306 | enabling the data path neither breaks nor repairs the settings in the registers |
| SpiConfig.FlushKeeps | linux_driver/spi/spi_s3c64xx.c:181-228 | nor does flushing the FIFOs |
| SpiConfig.DatapathExact | linux_driver/spi/spi_s3c64xx.c:238-305 | channel and DMA bits follow the transfer's buffers; the high-speed bit is set for a fast read or if left over |
| SpiReading.DatapathReads | linux_driver/spi/spi_s3c64xx.c:230-306 | all that enabling the data path does, bit by bit: channels and DMA for the buffers, high speed for a read at 30 MHz or more without phase shift, and nothing else |
| SpiConfig.PacketsExact | linux_driver/spi/spi_s3c64xx.c:252-254 | the packet counter holds the transfer's words exactly up to 65535 |
| SpiConfig.PacketsWrap | linux_driver/spi/spi_s3c64xx.c:252-254 | 65536 bytes are counted as none |
| SpiConfig.FlushClears | linux_driver/spi/spi_s3c64xx.c:188-227 | flushing leaves channels, DMA and high speed off |
| SpiReading.FlushReads | linux_driver/spi/spi_s3c64xx.c:181-228 | all that flushing does to the registers, bit by bit |
| SpiReading.HwInitReads | linux_driver/spi/spi_s3c64xx.c:927-959 | after hardware setup no channel, DMA or high speed is on, words are bytes, the trailing count is the longest, and the clock source is the board's |
| SpiConfig.StaleHighSpeed | linux_driver/spi/spi_s3c64xx.c:684-726 | after a fast read without flush the next transfer, which is no fast read, starts with the high-speed bit set, for all settings |
| SpiConfig.LazyIsEager | linux_driver/spi/spi_s3c64xx.c:616-660 | main result: on every run of messages, transfers, flushes, suspends and hardware resets, writing the settings only when the cache differs gives the same registers as writing them always |
| SpiController.Controller.HandleMsg | linux_driver/spi/spi_s3c64xx.c:605-741 | one message: which transfers start and complete, status and counted length; each started one runs with its own word size and speed where it has them and the device's where not, read bit by bit from the registers, at exactly its speed if setup accepts it, with whole words, packet count, channels, and the high-speed bit for a fast read or if left over from before the message; its DMA buffers are mapped while it runs; no mapping stays behind and stray unmaps are counted exactly; registers as if always configured; and, whatever was selected before, which devices are selected during each transfer, between transfers and afterwards |
| SpiController.Controller.RunTransfers | linux_driver/spi/spi_s3c64xx.c:637-727 | the loop ends at the first transfer that cannot complete, with the sum of the lengths before it |
| SpiController.Controller.OneTransfer | linux_driver/spi/spi_s3c64xx.c:644-726 | one pass of the loop |
| SpiController.Controller.StartTransfer | linux_driver/spi/spi_s3c64xx.c:656-679 | a started transfer's own settings, read bit by bit from the registers, packet count, DMA choice, high-speed bit and selected device |
| SpiController.Controller.HandleAll | linux_driver/spi/spi_s3c64xx.c:779-798 | over any sequence of messages, of devices of any polarity: which devices are selected during every transfer of every message; all of them alone exactly if hints never meet the other polarity; each message has the status and length of HandleMsg and one completion; the cache is right, no mapping is live that was not before, and stray unmaps are counted exactly |
| SpiController.Controller.EnableCs | linux_driver/spi/spi_s3c64xx.c:308-325 | what is selected afterwards, whatever was before; with only the hinted device selected before, exactly the device, if and only if polarities agree |
| SpiController.Controller.DisableCs | linux_driver/spi/spi_s3c64xx.c:403-412 | only the device is deselected, and forgotten if it was the hinted one |
| SpiSelect.AloneExactly | linux_driver/spi/spi_s3c64xx.c:308-325 | main result: over any sequence of messages, every transfer has its device selected alone if and only if each device left selected by a hint has the polarity of the next one to start a transfer |
| SpiSelect.EndedSelection | linux_driver/spi/spi_s3c64xx.c:728-733 | how a message, with or without a hint at its end, leaves the devices selected before it |
| SpiSelect.OtherPolarityStays | linux_driver/spi/spi_s3c64xx.c:308-325 | a device of the other polarity left selected stays selected beside the next one |
| SpiController.Controller.MapMsg | linux_driver/spi/spi_s3c64xx.c:528-576 | the live mappings grow by exactly those recorded in the message; success is exactly that all are mapped; one stray unmap exactly if a receive-only transfer fails first |
| SpiController.Controller.UnmapMsg | linux_driver/spi/spi_s3c64xx.c:578-603 | each recorded mapping is undone once with its own address and length |
| SpiController.Controller.RxOnlyGoesAstray | linux_driver/spi/spi_s3c64xx.c:558-571 | a message with one long receive-only transfer whose mapping fails makes a stray unmap |
| SpiTransfers.RunningNext | linux_driver/spi/spi_s3c64xx.c:637-727 | how one pass extends or ends the tally of transfers |
| SpiTransfers.ShotRuns | linux_driver/spi/spi_s3c64xx.c:656-679 | what a started transfer asks of the hardware is what the registers say, bit by bit |
| SpiTransfers.OneMapped | linux_driver/spi/spi_s3c64xx.c:545-573 | how one pass of the mapping loop extends or ends it |
| SpiTransfers.MappedBacks | linux_driver/spi/spi_s3c64xx.c:545-573 | if all mappings succeed, every DMA buffer is mapped at its address, with its length and direction |
| SpiController.Controller.Setup | linux_driver/spi/spi_s3c64xx.c:840-925 | error cases in their order, the negotiated speed, and the device deselected |
| SpiController.Controller.Halted | linux_driver/spi/spi_s3c64xx.c:1192 | suspend makes the cache claim nothing |
| SpiController.Controller.HwInitialize | linux_driver/spi/spi_s3c64xx.c:927-959 | hardware setup brings the registers to their initial state and keeps the cache honest |
| DiskStore.SegmentMoved | my_linux_driver_codes/写一个块设备驱动.c:57-87 | exchanging bytes with a segment's pages moves exactly those bytes of the flat disk |
| DiskStore.NewSegment | my_linux_driver_codes/写一个块设备驱动.c:109-131 | a new zeroed segment keeps the store well formed and the flat disk unchanged |
| DiskStore.HoleReadsZero | my_linux_driver_codes/写一个块设备驱动.c:104-108 | a segment never written reads as zeros |
| DiskStore.MovedOn | my_linux_driver_codes/写一个块设备驱动.c:96-140 | requests on consecutive stretches are one request |
| DiskStore.AroundJoin | my_linux_driver_codes/写一个块设备驱动.c:96-140 | the same on 64-bit positions, where a request goes on at 0 after the last one |
| DiskStore.AroundRead | my_linux_driver_codes/写一个块设备驱动.c:96-140 | what a read on 64-bit positions leaves in its buffer |
| DiskStore.ConcatMoved | my_linux_driver_codes/写一个块设备驱动.c:171-183 | a request on one piece of a bio is a request on the bio's memory as a whole |
| DiskStore.ConcatAround | my_linux_driver_codes/写一个块设备驱动.c:171-183 | the same on 64-bit positions |
| DiskDriver.RamDisk.TransOneSeg | my_linux_driver_codes/写一个块设备驱动.c:57-87 | page by page, a prefix of the bytes is exchanged, all of them exactly on success, and otherwise up to the end of a page; every page mapped is unmapped |
| DiskDriver.RamDisk.AddSegment | my_linux_driver_codes/写一个块设备驱动.c:109-131 | allocation and insertion succeed together or leave the store as it was, with the code of the one that failed |
| DiskDriver.RamDisk.TransSegment | my_linux_driver_codes/写一个块设备驱动.c:98-139 | one pass under the lock, with every failure and its code: a prefix moved, nothing leaked, groups kept |
| DiskDriver.RamDisk.Trans | my_linux_driver_codes/写一个块设备驱动.c:88-142 | main result: a write changes exactly the bytes moved, a read returns exactly them and changes nothing; all bytes exactly on success, a prefix that ends with a page after any failure; the code is 0 exactly if no service failed, and tells a failed allocation from the others; no group leaked, no page left mapped; positions are 64-bit words |
| DiskDriver.RamDisk.TransPiece | my_linux_driver_codes/写一个块设备驱动.c:171-183 | one piece of the bio: an error if its page cannot be mapped at offset 0, a stray pointer if it cannot be mapped at another offset, and otherwise a request on the page, and on the bio's memory as a whole unless a read goes into shared memory; the page stays mapped exactly if the transfer fails |
| DiskDriver.PieceShows | my_linux_driver_codes/写一个块设备驱动.c:171-183 | pieces that share memory: each byte read shows the last piece that covers it |
| DiskDriver.RamDisk.MakeRequest | my_linux_driver_codes/写一个块设备驱动.c:143-197 | any bio for any sector: refused exactly by its direction or the range check, with nothing touched; otherwise it ends at a piece, before which all pages were mapped, and whose page stays mapped exactly if it could be; the bytes are one contiguous access on its whole memory, or a prefix of it with an error, inside the device unless the 64-bit end wraps around; a read into memory that pieces share leaves the last of them; a stray pointer is used exactly for a page that cannot be mapped, at another offset than 0 |
| DiskDriver.MissedMapping | my_linux_driver_codes/写一个块设备驱动.c:171-177 | a page that cannot be mapped and whose failure is missed |
| DiskDriver.RangeCheckExact | my_linux_driver_codes/写一个块设备驱动.c:163-169 | the check agrees with being inside the device unless the sum wraps around to a small value |
| DiskDriver.OutsideAccepted | my_linux_driver_codes/写一个块设备驱动.c:163-169 | sector 2^55 lies outside every device and passes the check of each |
| DiskDriver.SectorsInARow | my_linux_driver_codes/写一个块设备驱动.c:163-170 | sectors are 512 bytes apart: requests for two in a row are one request |
| DiskDriver.RamDisk.FreeDiskmem | my_linux_driver_codes/写一个块设备驱动.c:229-246 | teardown ends for every set of segments, leaves nothing, and frees each group once |
| DiskDriver.RamDisk.RadixTreeGangLookup | my_linux_driver_codes/写一个块设备驱动.c:237-238 | the lookup returns the smallest keys in order and skips none |
| DiskThreads.OneGroupPerSegment | my_linux_driver_codes/写一个块设备驱动.c:88-142 | corollary of LockedPass: for any requests, overlapping ones included, under every schedule and every failure, at every moment there is one group for each segment, none is leaked, and groups stay |
| DiskThreads.EveryInterleaving | my_linux_driver_codes/写一个块设备驱动.c:88-142 | main result: for requests that share bytes only for reading, under every schedule and every failure, disk and buffers are what each request's own progress explains |
| DiskThreads.SchedulesAgree | my_linux_driver_codes/写一个块设备驱动.c:88-142 | two complete schedules of requests that share bytes only for reading leave the same disk and the same results |
| DiskThreads.WriteStep | my_linux_driver_codes/写一个块设备驱动.c:98-139 | one pass of a write among others |
| DiskThreads.ReadStep | my_linux_driver_codes/写一个块设备驱动.c:98-139 | one pass of a read among others fetches bytes of the initial disk |
| DiskThreads.LockedPass | my_linux_driver_codes/写一个块设备驱动.c:101-138 | the driver's pass under the lock is the step of the interleaving model |
| DiskPasses.ByteOfLastPass | my_linux_driver_codes/写一个块设备驱动.c:96-140 | main result: for any number of requests, under every schedule and every failure, each byte of the disk is that of the last pass that wrote it, or the initial one |
| DiskPasses.RequestsKept | my_linux_driver_codes/写一个块设备驱动.c:88-142 | no pass changes what a request asks for or what a write writes; a request that has not failed stands at a boundary |
| DiskPasses.Advance | my_linux_driver_codes/写一个块设备驱动.c:98-139 | if no kernel service fails, a request takes a whole pass, whatever the store |
| DiskPasses.Completes | my_linux_driver_codes/写一个块设备驱动.c:88-142 | and so any requests can be run to their ends, one after the other |
| DiskSerial.SerialExactly | my_linux_driver_codes/写一个块设备驱动.c:96-140 | main result: two writes leave the disk of one followed by the other, under every complete schedule, if and only if the bytes on which they disagree all lie in one segment |
| DiskSerial.LastPassWins | my_linux_driver_codes/写一个块设备驱动.c:96-140 | if they do, the order in which every complete run leaves the disk is decided by the last pass in that segment |
| DiskSerial.BlendStep | my_linux_driver_codes/写一个块设备驱动.c:98-139 | the disk shows the progress of both writes with one of them on top: a pass in the segment of the disagreement puts its request on top, any other keeps the order |
| DiskSerial.TornRun | my_linux_driver_codes/写一个块设备驱动.c:96-140 | for any two bytes in different segments that both write there is a complete run which leaves each as a different write wrote it |
| DiskSerial.EitherOrder | my_linux_driver_codes/写一个块设备驱动.c:96-140 | both serial orders are reached by complete runs |
| DiskSerial.OverlappingWritesTear | my_linux_driver_codes/写一个块设备驱动.c:96-140 | a complete run of two writes of two bytes across a segment boundary that leaves half of each |
| DiskReads.AtomicExactly | my_linux_driver_codes/写一个块设备驱动.c:96-140 | main result: a read returns, under every complete schedule with a write, what was there before or what is there afterwards, if and only if the bytes that the write changes in its range lie in one segment |
| DiskReads.ReadPass | my_linux_driver_codes/写一个块设备驱动.c:98-139 | one pass of the read: what has been fetched is all from before the write or all from after it |
| DiskReads.TornBetween | my_linux_driver_codes/写一个块设备驱动.c:96-140 | for any two bytes of the read in different segments there is a complete run that returns the first from before the write and the second from after it |

## Left out

- I2cDriver.S3c24xxI2c.DoXfer: if messages share a buffer, the bus and the code are as stated, but not what the buffer holds afterwards. Interrupts arriving after a timeout are not modelled, nor is what follows a stray pointer.
- I2cDriver.S3c24xxI2c.SetMaster: of the reset of a hung HDMIPHY bus only its effect on the control register is modelled.
- I2cClock.ClockRate: desired frequencies from 1 to 999 Hz, for which the driver divides by zero, are excluded; the control register write and the SDA delay are not modelled, as their masks are in a header that is not part of this model.
- SpiConfig.Config: the clock framework is taken to deliver the rate it is asked for.
- SpiController.Controller.HandleMsg: word sizes below eight bits and speeds of zero, for which the driver divides by zero, are excluded; feedback delay, the slave-select signal register, DMA flush after an error, and delays are not modelled; a message is counted as completed whether or not it has a callback.
- SpiController.Controller.Setup: runs between messages; setup of a device whose message is in flight is not modelled, nor are clocks below 2 Hz and a requested speed of zero, for which the driver divides by zero.
- SpiQueue.EveryRun: each stretch under the lock and each flag update is one step; messages are told apart by acceptance, so a client that queues a message twice at the same time is not modelled.
- DiskDriver.RamDisk.Trans: tree indexes are unbounded numbers, so truncation of the index to 32 bits is not modelled.
- DiskDriver.RamDisk.MakeRequest: what follows the use of a stray pointer is not modelled.
- DiskThreads.SchedulesAgree: says nothing about whether a complete schedule exists when allocations fail (without failures one does, see Completes); positions of interleaved requests do not wrap around.
- DiskSerial.SerialExactly: is about two writes; for more conflicting requests only ByteOfLastPass is stated.
- The values of error numbers and of the message flags come from kernel headers that are not part of this model; error numbers are constants with their usual values, flags are booleans.
- Waiting, timing and FIFO polling: a wait is an outcome given from outside; the kernel services of the disk fail without a stated reason.
- Liveness of SPI messages across suspend: resume does not queue the work item again.
- Arbitration loss, cpufreq, probe and remove, platform data, module parameters, disk geometry and all other drivers of the repository, which would only add easy members.
