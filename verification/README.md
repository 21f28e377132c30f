# spif: a verified model of its pipelines, driver and listeners

spif connects event cameras and other peripherals to SpiNNaker. This project models the clocked
logic of the FPGA interface, the kernel driver and the listener daemon, and proves what they keep
over whole runs. `dafny verify dfyconfig.toml` checks everything.

| files | what they model |
|---|---|
| `EvtDispatcher`, `EvtConservation`, `EvtFrames`, `EvtTicks` | the output event dispatcher: conservation and order, framing by credit and tick |
| `Mapper`, `PktAssembler` | the input pipe: filter, field mapper, skid buffer, handshake gate |
| `LossOfSync`, `HandshakeWatchdog` | supervision of the serial link |
| `PktRouter` | routing table, priority encoder, drop timing |
| `RegBank` | the register bank with its two write ports |
| `SpifDriver`, `MemoryPartition`, `DmaProtocol` | the kernel driver |
| `UsbPipes`, `MetaListener` | device surveys, pipe assignment and event batching in the listener daemon |
| `Words`, `Bits`, `Sequences`, `Subsequences`, `Arithmetic` | operations on 32-bit words and their bits, joined sequences, subsequences, counters that go round |

A hardware module is a step function on its registers (`Step`), a run over an arbitrary trace of
inputs (`Run`), and a class with the registers as fields whose `Clock` method, written block by
block like the source, is proved to take that step and to follow the run. Traces are arbitrary:
every theorem about a run holds for all arrivals, all back pressure and, unless it says
otherwise, a configuration that changes at any clock. Registers that reset leaves alone start
with any value. What the data functions compute is stated apart from them, bit by bit or in numbers:
the distiller, the mapper and the filters, the addresses of the register bank, the order of serials.

## Where the code differs from what it promises

These are properties one would expect of the code that do not hold of all inputs. Each is stated
with the exact condition under which it does hold.

- With an output frame size of 1 the dispatcher sends beats that no packet caused; packets are
  conserved, and kept in order, in every run exactly when the size is not 1.
- The frame size bounds a frame only when it is not 0: with size 0 credit closes no frame, and the
  tick alone does. The longest frame of size N and tick period T is the smaller of N and 75T beats,
  or 75T when N is 0, and that bound is reached.
- A tick frame overwrites a beat that back pressure holds on the output. The drop counter misses
  such a loss exactly when one, and only one, of an arriving packet and a held event is there; for
  every tick period and every size but 1 some run has such a loss.
- A mapper shift of -32 is documented as a left shift and shifts nothing.
- The register bank's comment says an APB write is delayed when a packet write comes in the same
  clock. The conflict wire tests APB reads, so that clock of the write is lost and the APB is told
  ready. As the bank never looks at the APB enable, an APB write is made in its setup clock and
  again in its access clock: it takes effect exactly when no packet write comes in the access
  clock, or none in the setup clock and the one in the access clock leaves the register alone.
  A counter keeps an APB write exactly when the access clock brings no packet write to it.
- Sync takes five clean clocks after the comma clock, one more than the constant 4 suggests.
- A version register that reports no pipes makes the driver divide by zero with everything else it
  asked for held; if the kernel stops the driver there, nothing of it is released.
- The map operation passes a page frame number to the kernel. When a pipe's buffers do not start
  on a page boundary the mapping starts below them: below the reserved memory for pipe 0, in the
  output buffer of the pipe before for any other.
- The UDP listener passes on whatever `recv` returns. With a controller that ignores a length of
  zero, an empty datagram leaves the pipe busy for ever exactly when it is the first transfer of a
  session and the controller has not yet reported idle. A failed `recv` asks for the largest length,
  so the controller reads bytes that nobody sent.
- The Prophesee listener gives the driver the number of events, and the driver reads it as bytes:
  of every batch the first quarter is moved. All of what is handed over is moved exactly when there
  was no event.
- Pipes are given to all cameras found, however many input pipes the board has. A survey leaves
  every input pipe with one listener, and no listener elsewhere, exactly when there are no more
  cameras than input pipes; with two cameras and one pipe, one listens on a pipe without a buffer.

## Model

| member | source | states |
|---|---|---|
| EvtDispatcher.Dispatcher.Clock | spif_common/src/evt_dispatcher.sv:110-244 | one clock edge: the blocks together take the step of the run, so the object's registers are always those of the run over its inputs |
| EvtDispatcher.Dispatcher.NextReadyToGo | spif_common/src/evt_dispatcher.sv:138-152 | the ready-to-go block computes its part of the step |
| EvtDispatcher.Dispatcher.NextOutput | spif_common/src/evt_dispatcher.sv:204-230 | data, last and valid of the output interface, three separate blocks, compute their part of the step |
| EvtConservation.ConservationIffSizeNotOne | spif_common/src/evt_dispatcher.sv:138-243 | in every run packets taken in = beats delivered + pending + held + counted drops + unseen overwrites by ticks, exactly when the frame size is not 1 |
| EvtConservation.ConservationInvariant | spif_common/src/evt_dispatcher.sv:138-243 | the same for a frame size that changes at any clock but is never 1, with the invariant that the last credit is reached only with an event held |
| EvtConservation.SizeOneInventsABeat | spif_common/src/evt_dispatcher.sv:164-166 | with size 1 a beat is on the output two clocks after reset although no packet came |
| EvtConservation.DropCounterExactIff | spif_common/src/evt_dispatcher.sv:236-243 | the drop counter never overcounts, and accounts for every lost packet exactly when no tick overwrote a busy output with one of packet and held event missing |
| EvtTicks.SilentLossReachable | spif_common/src/evt_dispatcher.sv:165-243 | such a loss happens in some run for every tick period and every frame size but 1 |
| EvtConservation.OrderIffSizeNotOne | spif_common/src/evt_dispatcher.sv:120-212 | delivered beats, pending beat and held event are, bit by bit, the distilled events of distinct packets in arrival order, in every run exactly when the size is not 1 |
| EvtConservation.OrderPositions | spif_common/src/evt_dispatcher.sv:120-212 | position by position, for a size that may change but is never 1: every output is the event of the packet at its position, at strictly increasing positions of the arrivals |
| EvtDispatcher.EveryPacketTaken | spif_common/src/evt_dispatcher.sv:110-130 | every valid packet from the second clock on is taken in, and distilled by the register that its own index names |
| EvtDispatcher.DistilledBits | spif_common/src/evt_dispatcher.sv:123-130 | a bit of the event is set exactly when it is set in that register's key, or the bit moved right onto it is set in both its mask and the packet's key |
| EvtConservation.OrderStep | spif_common/src/evt_dispatcher.sv:138-212 | every clock keeps that order, ticks that overwrite a busy output included |
| EvtTicks.LongestFrame | spif_common/src/evt_dispatcher.sv:158-233 | the least bound on the frames of all runs with size N and tick T is the smaller of N and 75T beats, or 75T when N is 0; a tick at every clock counts as 1 |
| EvtTicks.MaxFrameReached | spif_common/src/evt_dispatcher.sv:158-233 | under full traffic a frame of that many beats is delivered |
| EvtTicks.TickInvariantHolds | spif_common/src/evt_dispatcher.sv:138-233 | whatever the frame size does, an open frame has an event held and at most a beat for every clock since the last tick |
| EvtFrames.FrameInvariantHolds | spif_common/src/evt_dispatcher.sv:158-233 | for N of at least 1 every frame delivered has at most N beats, and exactly N if credit closed it; beats delivered, the pending beat and the credit left add up to one frame; an event is held whenever credit has been spent |
| EvtFrames.FramesWithinLargestSize | spif_common/src/evt_dispatcher.sv:169-233 | with sizes that change at any clock, all from 1 to N, no frame has more than N beats |
| EvtFrames.SizeZeroSpendsNoCredit | spif_common/src/evt_dispatcher.sv:169-178 | with size 0 the credit stays 0 and closes no frame in any run |
| EvtTicks.TickClosedForm | spif_common/src/evt_dispatcher.sv:180-201 | n clocks after reset the microsecond counter is 74 - n mod 75, the tick counter has a closed form, and it is 0 exactly when n mod 75T is 0, whatever the traffic |
| EvtTicks.TickZero | spif_common/src/evt_dispatcher.sv:194-201 | with a tick period of 0 every clock is a tick |
| EvtTicks.OpenFrameClosesByNextTick | spif_common/src/evt_dispatcher.sv:138-201 | whatever the frame size does, the last beat of an open frame is put on the output no later than any tick that follows, with no further traffic needed |
| Mapper.ShiftMeaningIff | spif_common/src/pkt_assembler.sv:94-104 | the 5-bit two's complement shifter computes the documented signed shift for every mask and event exactly when the count is not -32 |
| Mapper.KeyBits | spif_common/src/pkt_assembler.sv:110-118 | for every configuration, a bit of the mapped key is set exactly when it is set in the fixed key or in one of the four fields |
| Mapper.FieldBits | spif_common/src/pkt_assembler.sv:97-104 | a bit of a field is the bit of the event that the documented shift brings there, if the mask has it |
| Mapper.PassesIff | spif_common/src/pkt_assembler.sv:73-107 | an event gets through exactly when no filter's value agrees with it in every bit under the mask and no field exceeds its limit |
| Mapper.FieldRecoverable | spif_common/src/pkt_assembler.sv:94-118 | a field whose mask loses no bits can be read back from the mapped key of every event, when neither the fixed key nor another field reaches its bits |
| Mapper.KeyShowsField | spif_common/src/pkt_assembler.sv:110-118 | under an image's bits the mapped key shows that field and nothing of the others |
| Mapper.FieldComesBack | spif_common/src/pkt_assembler.sv:97-104 | undoing the shift of a field gives the masked event, when the mask loses no bits |
| Mapper.DistillerUndoesMapper | spif_common/src/evt_dispatcher.sv:123-130 | the distiller set up with a left-shifted field's image, shift and a zero key returns that field of the event from its mapped key |
| PktAssembler.AssemblerRefinesMapFilter | spif_common/src/pkt_assembler.sv:72-177 | for every schedule, delivered packets, then the output register, then the parked key, are the mapper mapped over the filtered events taken, in order |
| PktAssembler.PacketOfEvent | spif_common/src/pkt_assembler.sv:73-165 | what is expected of one event taken: one packet with key bits, zero payload and odd parity when no filter matches and no limit is exceeded, otherwise none |
| PktAssembler.ExpectedPointwise | spif_common/src/pkt_assembler.sv:72-118 | the stream expected is that of its events, one by one |
| PktAssembler.DefaultsKeepAll | spif_common/src/pkt_assembler.sv:84-107 | with the default filters and limits every event makes exactly one packet |
| PktAssembler.FilterRemoves | spif_common/src/pkt_assembler.sv:84-89 | setting one filter takes away exactly the events that agree with its value under its mask, none if the value has a bit outside |
| PktAssembler.LimitRemoves | spif_common/src/pkt_assembler.sv:106-107 | lowering one limit takes away exactly the events whose field exceeds it |
| PktAssembler.ReadyIff | spif_common/src/pkt_assembler.sv:134-147 | after the first clock the event input is closed exactly while a key is parked |
| PktAssembler.NoDataLoss | spif_common/src/pkt_assembler.sv:139-165 | the two states marked as data loss are unreachable, and a packet not taken stays on the output unchanged |
| PktAssembler.OutageDrains | spif_common/src/dvs_on_hssl_top.sv:428-437 | while the handshake is not complete every event offered is taken and none becomes a packet |
| PktAssembler.OddParity | spif_common/src/pkt_assembler.sv:149-165 | a packet carries its key, no payload, and an odd number of ones over header, key and payload |
| PktAssembler.Assembler.Clock | spif_common/src/pkt_assembler.sv:120-177 | one clock edge takes the step of the run |
| LossOfSync.SyncGainedIff | spif_common/src/hssl_interface.sv:213-264 | sync is gained exactly when a comma came in loss of sync six clocks ago and the five clocks since were clean |
| LossOfSync.CounterIsLargestWindow | spif_common/src/hssl_interface.sv:228-246 | within a period of sync the error counter is the maximum over all windows ending now of 4 for invalid data less 1 for valid data |
| LossOfSync.SyncKeptIff | spif_common/src/hssl_interface.sv:228-268 | a period of sync outlives a clock exactly when no window inside it has reached 8 |
| LossOfSync.CountersFit | spif_common/src/hssl_interface.sv:214-246 | both counters stay within their 4 and 5 bits in every run |
| LossOfSync.SyncMonitor.Clock | spif_common/src/hssl_interface.sv:216-272 | one clock edge takes the step of the run |
| HandshakeWatchdog.PulseStartsIff | spif_common/src/hssl_transceiver.v:94-116 | a reset pulse starts exactly after N clocks in a row with neither handshake nor reset |
| HandshakeWatchdog.PulseLength | spif_common/src/hssl_transceiver.v:105-116 | every pulse lasts exactly L = 128 clocks whatever the handshake does |
| HandshakeWatchdog.NeverHandshake | spif_common/src/hssl_transceiver.v:86-116 | with no handshake both registers have a closed form, and reset is asserted at clock n exactly when n mod (N+1+L) is at least N+1 |
| HandshakeWatchdog.CounterMeaning | spif_common/src/hssl_transceiver.v:94-103 | the counter holds the waiting clocks since the last other one; the registers stay within N+1 and L |
| HandshakeWatchdog.Watchdog.Clock | spif_common/src/hssl_transceiver.v:94-116 | one clock edge takes the step of the run |
| PktRouter.FirstMatchRoutes | spif_common/src/pkt_router.sv:85-146 | the switch select has exactly the bit of the first row that agrees with the key in every bit of its mask, and no bit when none does |
| PktRouter.NextDrop | spif_common/src/pkt_router.sv:122-132 | whatever the wait value does: after a clock that is free or drops, while the output stays blocked, the next drop comes after exactly as many clocks as the wait value said in that clock |
| PktRouter.DropTiming | spif_common/src/pkt_router.sv:122-132 | with a constant wait W, after a free clock a packet is dropped exactly on blocked clocks whose blocked run is a multiple of W+1 long; in a run blocked since reset the first drop is at once |
| PktRouter.WaitClosedForm | spif_common/src/pkt_router.sv:123-130 | closed form of the wait counter for any blocked signal and a constant wait |
| PktRouter.Router.Clock | spif_common/src/pkt_router.sv:123-132 | one clock edge takes the step of the run, and reports the drop wire |
| RegBank.BankRefinesFlatMap | spif_common/src/hssl_reg_bank.sv:205-320 | after any interleaving of writes and soft resets every register holds the last winning write to it since the last soft reset, narrowed to its width, or its default |
| RegBank.ReadReturnsLastValue | spif_common/src/hssl_reg_bank.sv:324-402 | every APB read: a register shows that value, a mapper shift sign-extended, a counter its closed form, status and version their signals, the soft-reset address what it held at power-up, any other address the bad-register word |
| RegBank.WholeRead | spif_common/src/hssl_reg_bank.sv:191-402 | a whole APB read, over any number of clocks: it waits exactly while packet writes keep coming, and shows the register as it stands when it completes; a counter as it was one clock before |
| RegBank.WriteThenRead | spif_common/src/hssl_reg_bank.sv:137-402 | what either port writes at a word address, the APB reads at any of the word's byte addresses after any clocks without a write, cut to the register's width and sign-extended for a mapper shift |
| RegBank.AddressesDecode | spif_common/src/hssl_reg_bank.sv:137-200 | section and register are the word address of a packet, and the byte address of an APB access over 4 |
| RegBank.SpecialReads | spif_common/src/hssl_reg_bank.sv:327-402 | words 14 and 15 read as status and version, 64 to 68 as the counters, words without a register as 0xdeadbeef |
| RegBank.SpecialAddresses | spif_common/src/hssl_reg_bank.sv:206-227 | the soft reset is at word 1 and the counters are at words 64 to 68, for both ports |
| RegBank.RegisterMap | spif_common/src/hssl_reg_bank.h:43-90 | the words that are configuration registers, in numbers |
| RegBank.DefaultMap | spif_common/src/hssl_reg_bank.sv:154-176 | their defaults, in numbers |
| RegBank.ApbWriteTakesIff | spif_common/src/hssl_reg_bank.sv:191-320 | an APB write over its two clocks takes effect exactly when no packet write comes in the access clock, or none in the setup clock and the one in the access clock neither resets nor writes this register |
| RegBank.ApbClockTakesIff | spif_common/src/hssl_reg_bank.sv:202-320 | one clock of an APB write takes effect exactly when no packet write comes with it, and the APB is told ready either way |
| RegBank.CounterWriteTakesIff | spif_common/src/hssl_reg_bank.sv:219-240 | a counter takes an APB write exactly when no packet write to the same counter comes in the access clock |
| RegBank.CounterMeaning | spif_common/src/hssl_reg_bank.sv:219-238 | a counter is its last write plus the enabled clocks since, modulo 2^32, untouched by soft resets and other writes |
| RegBank.SoftResetRestores | spif_common/src/hssl_reg_bank.sv:268-288 | the clock of a soft reset, from either port, leaves every register at its documented default, and the counters counting |
| RegBank.HsslRegBank.Clock | spif_common/src/hssl_reg_bank.sv:209-402 | one clock edge takes the step of the run |
| RegBank.HsslRegBank.NextCounters | spif_common/src/hssl_reg_bank.sv:219-240 | the counter blocks, one by one, compute their part of the step |
| SpifDriver.Probe | spif-driver/spif-driver.c:874-928 | refused anything, probing releases everything it acquired and leaves the kernel as before; refused nothing it holds exactly the full set, loaded if the board reports a pipe and stopped at the division by zero if it reports none |
| SpifDriver.Remove | spif-driver/spif-driver.c:934-952 | removal after a successful probe releases the full set and nothing else |
| SpifDriver.PipesInit | spif-driver/spif-driver.c:724-864 | the loop over pipes with its four-level ladder: all pipes set up on a linked list, or nothing held, or, with no pipes, a division by zero |
| SpifDriver.CreatePipes | spif-driver/spif-driver.c:769-825 | the loop stops at the first refused pipe with exactly the earlier pipes held and listed |
| SpifDriver.PipeInit | spif-driver/spif-driver.c:773-839 | one iteration acquires all of a pipe's resources or none |
| SpifDriver.DmacInit | spif-driver/spif-driver.c:599-670 | interrupt and register mapping are both held, or neither |
| SpifDriver.CdevInit | spif-driver/spif-driver.c:676-718 | device and character device are both held, or neither |
| SpifDriver.ApbrInit | spif-driver/spif-driver.c:501-565 | the register mapping is held exactly when the board's signature is found |
| SpifDriver.ReleasePipes | spif-driver/spif-driver.c:843-855 | walking the list releases what the listed pipes hold, each resource once |
| SpifDriver.FullSetMembers | spif-driver/spif-driver.c:724-864 | the full set, resource by resource: an interrupt only for an output pipe that has one |
| MemoryPartition.BuffersPartitionMemory | spif-driver/spif-driver.c:764-817 | for any number of pipes and any size all buffers lie in the reserved memory and no two overlap |
| MemoryPartition.MappingInsideIff | spif-driver/spif-driver.c:388-410 | every accepted mapping stays in the pipe's own two buffers exactly when they start on a page boundary, or are too small for a page |
| MemoryPartition.AcceptedIffInside | spif-driver/spif-driver.c:396-400 | from a page boundary the mappings accepted are exactly those of whole pages that stay in the pipe's own two buffers |
| MemoryPartition.AllAlignedIff | spif-driver/spif-driver.c:764-817 | all pipes start on a page boundary exactly when the reserved memory does and, with several pipes, two buffers make up whole pages |
| MemoryPartition.MisalignedMapping | spif-driver/spif-driver.c:388-410 | a mapping of buffers that do not start on a page boundary starts below the reserved memory for pipe 0, and in the output buffer of the pipe before for any other |
| MemoryPartition.MisalignedExample | spif-driver/spif-driver.c:396-409 | three pipes in one mebibyte: the second pipe's mapping starts in the first pipe's output buffer |
| DmaProtocol.BufferProtocol | spif-driver/spif-driver.c:313-343 | in every interleaving of listener, driver and DMA controller, with transfers of any length, the buffer is written only with nothing in flight, no request is refused, and the bytes read from it are the bytes handed over, in order |
| DmaProtocol.StrayIff | spif-driver/spif-driver.c:326-343 | the controller reads nothing beyond the buffer exactly when no length given to it was larger |
| DmaProtocol.StuckIff | spif-driver/spif-driver.c:313-343 | a pipe is busy with nothing in flight exactly when the first transfer of the session had length zero and the controller did not report idle |
| DmaProtocol.PollingProgress | spiffer/spiffer.cpp:392-406 | while a listener polls, either the controller can read on, with less left, or the next poll ends the wait, or the pipe is stuck and nothing anyone does changes that |
| DmaProtocol.RunKeepsInvariant | spif-driver/spif-driver.c:313-343 | in every reachable state busy means exactly that a transfer is in flight, and what is still to be read is still in the buffer |
| DmaProtocol.UdpListener | spiffer/spiffer.cpp:387-407 | whatever `recv` brings: when polling never ends, and otherwise that the controller moves the datagrams byte for byte and in order, and nothing else, exactly when no `recv` failed; how many bytes it reads for every failure; no request is refused and nothing is written during a transfer |
| DmaProtocol.WaitWhileBusy | spiffer/spiffer.cpp:395-406 | unless the pipe is stuck, polling ends at whatever pace the controller reads, with the protocol's invariant kept and nothing more handed over |
| DmaProtocol.Pipe.Open | spif-driver/spif-driver.c:175-233 | a second open is refused; opening a pipe with nothing in flight starts a session of the protocol |
| DmaProtocol.Pipe.Release | spif-driver/spif-driver.c:239-267 | releasing frees the device and stops the controller; an interrupted release changes nothing |
| DmaProtocol.Pipe.StatusRead | spif-driver/spif-driver.c:313-324 | a status request is the protocol's poll step |
| DmaProtocol.Pipe.Transfer | spif-driver/spif-driver.c:326-343 | a transfer request of any length is the protocol's hand-over step: a busy pipe refuses and leaves the controller alone, otherwise the length is written and the init state ends |
| UsbPipes.UsbSortPipes | spiffer/spiffer.cpp:484-509 | pipes are a bijection onto 0 to count - 1 that goes up with the serials in dictionary order, equal serials by discovery; each is the number of devices that sort before |
| UsbPipes.StrCmpIsLexLess | spiffer/spiffer.cpp:496 | the comparison is dictionary order: a proper prefix first, else the smaller character at the first difference |
| UsbPipes.BeforeIsSmallerSerial | spiffer/spiffer.cpp:486-503 | the order of the sorted list, in those terms |
| UsbPipes.SortDevices | spiffer/spiffer.cpp:486-503 | the in-place bubble sort gives a sorted permutation of the devices |
| UsbPipes.BubblePass | spiffer/spiffer.cpp:495-502 | one pass moves the largest remaining device to the end and keeps equal serials in order |
| UsbPipes.RankIgnoresDiscoveryOrder | spiffer/spiffer.cpp:496-508 | with distinct serials a device's pipe depends only on its serial and the set of serials |
| UsbPipes.SamePipeHoweverDiscovered | spiffer/spiffer.cpp:496-508 | two discoveries of the same devices, in any orders, give a camera the same pipe |
| UsbPipes.StartListeners | spiffer/spiffer.cpp:576-599 | how many listeners every pipe gets, and which: its own for a supported device, a UDP one beyond the devices, else none |
| UsbPipes.SurveyDevices | spiffer/spiffer.cpp:519-603 | after a survey of whatever is connected every device has its listener on the pipe of its serial, and each input pipe has exactly one listener, and no other pipe any, exactly when no more devices are discovered than there are input pipes |
| UsbPipes.EveryPipeServedIff | spiffer/spiffer.cpp:576-599 | the same for any supported devices with their pipes |
| UsbPipes.TwoCamerasOnePipe | spiffer/spiffer.cpp:576-599 | two cameras on a board with one input pipe: a listener is started on pipe 1 |
| UsbPipes.DiscoverType | spiffer/spiffer_caer_support.cpp:79-139 | devices found of a supported type are taken up to the limit of two, unless there are devices of the other type |
| MetaListener.Listener.Listen | spiffer/spiffer_meta_support.cpp:196-249 | over any run of the main loop, at whatever pace the controller reads, the events handed over are the encoded event stream, in order; no request is refused, nothing is written during a transfer, and the bytes moved are the stream's exactly when it is empty |
| MetaListener.Listener.ProcessRawBuffer | spiffer/spiffer_meta_support.cpp:226-248 | a raw buffer, decoded by any number of callbacks, hands over exactly its own events, batched, and leaves nothing behind |
| MetaListener.Listener.Callback | spiffer/spiffer_meta_support.cpp:157-184 | the callback adds its events to the full batches handed over and the events waiting, which stay fewer than 256; every full batch has been waited for |
| MetaListener.Listener.HandOverBuffer | spiffer/spiffer_meta_support.cpp:165-182 | a hand-over of k events is accepted, moves the first k bytes of the 4k in the buffer, and returns with nothing in flight |
| MetaListener.AllMovedIffNoEvents | spif-driver/spif-driver.c:336-338 | the bytes moved of any batches are as many as their events, so all of their bytes exactly when there are no events |
| MetaListener.LittleEndian | spiffer/spiffer_meta_support.cpp:164 | an event is stored as a word with its least significant byte first |
| MetaListener.BatchingShape | spiffer/spiffer_meta_support.cpp:165-182 | k events make k div 256 full batches and a tail of k mod 256 when that is not zero |
| MetaListener.BatchingUnique | spiffer/spiffer_meta_support.cpp:226-248 | events, order and batch sizes determine the batches |
| MetaListener.EncodeRoundTripIff | spiffer/spiffer_meta_support.cpp:104-164 | coordinates and polarity can be read back from an encoded event exactly when each fits its field |

## Left out

- The packet switch, the arbiters and the spiNNlink multiplexer are not part of this model: `blocked`, received data and the ready signals are free input traces.
- `pkt_receiver`, the transceiver wrapper, clock buffers, bit synchronisers and board designs are not modelled.
- Reset is the state a run starts from; asynchronous reset in mid-run, unknown values and clock domain crossings are not modelled. Reading the distiller table beyond its six entries gives an arbitrary word.
- `evt_keep_out`, always all ones, and the packet counter enables of the router are left out.
- EvtTicks.LongestFrame: the frame size and the tick period are constant. With sizes that change the two bounds are stated apart, by EvtFrames.FramesWithinLargestSize and EvtTicks.TickInvariantHolds; a tick period that changes has no closed form here.
- The register bank takes its status and version words as inputs, and does not model the outputs wired straight to registers.
- SpifDriver.Probe: error pointers and device-tree reference counts are not modelled, every refusal is one result rather than an error number, and the kernel is taken to stop the driver at a division by zero.
- MemoryPartition.MappingInsideIff: pages of 4096 bytes, whole pages requested, and a page frame number that drops the offset in the page are assumptions about the kernel.
- DmaProtocol.BufferProtocol: one open session, begun with nothing in flight. The controller is the vendor's and not part of this repository: it is taken to leave its idle state when a length other than zero is written, to return to it after the last byte, to ignore a length of zero, and to count lengths modulo the size of its register, which can count a batch.
- DmaProtocol.UdpListener: the number of values of the length register divides 2^32. Polling that never ends is a result rather than a loop.
- The output transfer request and the interrupt handler of the driver are left out, as are signals, sockets, logging, thread cancellation and camera library calls; the listener model takes the events they produce.
- UsbPipes.SurveyDevices: the devices are those that open and can be configured, and their serials fit the 8 characters of the device table. Surveys are one at a time, and shutting down the listeners of an earlier one is not modelled.
- MetaListener.Listener.Listen: a lost camera ends the loop; the survey it triggers is UsbPipes.SurveyDevices.
- The Inivation listener, which hands over one batch for each packet, and the SpiNNaker-side and host test programs are not modelled.
