# Verified models of the bus, the flash and the debug link

The repository builds a small FPGA system: a Wishbone interconnect, a flash memory that is programmed
from a host over a serial debug link, the simulators that stand in for the parts around the FPGA, and
the run-time arithmetic of its CPU. This project models the pieces of it whose correctness depends on
state kept in several places at once, and proves what they are for.

| files | what they model |
|---|---|
| `Crossbar`, `Interconnect` | the Wishbone crossbar: one clock as a function of its registers and inputs, for any number of masters and slaves, and the registers as an object updated by loops over index vectors |
| `AddrDecode`, `SkidBuffer` | the address decoder with its registered output, and the two forms of the skid buffer |
| `CrossbarPorts` | the crossbar with a skid buffer and a decoder at each of its masters |
| `FlashSim`, `FlashSimulator` | the NOR flash simulator: one call as a function, and the simulator as the object it is, with its arrays |
| `FlashReads` | the reads of that device, by one, two and four lines, each sent clock by clock |
| `FlashBus`, `FlashOffline`, `FlashPort`, `FlashWrite`, `ByteSwap`, `FlashDriver` | the driver over that device, from clocked bits through commands up to `write` |
| `TtyCodec`, `TtyAddress`, `TtyWrite`, `TtyRead`, `TtyPlan`, `TtyLink`, `TtyBus` | the host end of the debug bus: its symbols, its compressed address, write and read commands, its dictionaries, its pipelined reader, and the class that does all this on a buffer |
| `TtyPeer`, `TtyExec` | the FPGA end of the debug bus: what its commands mean (`rtl/wbubus/wbureadcw.v`, `wbudecompress.v`), and the executor that works them off on a Wishbone bus, clock by clock (`wbuexec.v`) |
| `TtyChars`, `TtyWords` | the same end's character tables (`wbutohex.v`, `wbusixchar.v`), and its 36-bit codewords field by field, both ways (`wbudecompress.v`, `wbuexec.v`, `wbucompress.v`, `wbudeword.v`, `wbuidleint.v`) |
| `Uart` | the bit-serial UART simulator, both halves |
| `Udiv`, `SoftMultiply`, `SdCrc` | 64-bit division, 32 by 32 bit multiplication, and the two SD card checksums |
| `Memory`, `MemDev`, `MemSim` | the block RAM with its extra clock, and the simulated memory with its delay ring |
| `Words` | bits, shifts and masks of unsigned words |

Where the source works by updating things, so does the model: a class or a method with loops, each
proved equal to a function of the old state; the theorems are about those functions.

## What is assumed

- **Crossbar.** The parameters the repository instantiates it with (`rtl/main.v:571-597`, `752-768`):
  a double-buffered return path, registered slave grants, no timeout, low-power outputs. The decoder's
  output is taken as an index, `NS` standing for no slave; that it is one-hot is `AddrDecode.OneHot`.
  Slaves answer only what they have been asked, in the sense of pipelined Wishbone (section 3.1.3 of
  the Wishbone B4 specification), and a master drops its cycle in the clock after an error. The index
  registers have no reset value; they may start at any master and any slave there is.
- **Flash.** The device is online and idle when the driver starts, and addresses and lengths are
  multiples of four: `sw/host/flashdrvr.cpp:457` reads whole words. The controller between the driver
  and the device is not part of this model; reads of the flash as memory are address, mode byte 0xa0,
  dummy clocks and data, as the device continues a quad read. The data lines the controller does not
  drive may carry anything.
- **Debug bus.** The FPGA end forms commands from symbols (`rtl/wbubus/wbureadcw.v:86-131`), gives
  them their meaning with an address and a dictionary of the last 256 words written in full
  (`rtl/wbubus/wbudecompress.v:62-165`), and obeys them. `TtyPeer` keeps 30 bits of the word address,
  as the host's commands carry no more, and refuses a slot it has not filled. What comes back for a read
  is any sequence of raw, repeated, short-index or long-index words that `rtl/wbubus/wbucompress.v:306-383`
  may choose, with idle, acknowledgement, interrupt and correct address codes between them; an address
  comes in front of a read exactly if one was set since the bus was last used
  (`rtl/wbubus/wbuexec.v:266-287`), and restarts the table of words
  (`rtl/wbubus/wbucompress.v:186-203`). The peer carries out a write; that the executor does not get
  to the next command after it, as it is wired, is said below.
- **UART.** Both ends are at rest with the line high at the start. `m_last_tx` and `m_rx_changectr`
  are not initialised by the source.

## Where the code and its intent differ

- `sw/host/flashdrvr.cpp:493` initialises an inner `len` from itself. The model takes the intent: the
  end of the data less `start`.
- `sim/verilated/flashsim.cpp:619` asserts that an erase address has no bit of 0xfc00000, which stops
  the simulator on every erase at or above offset 0x400000 of a 16 MB device. So `write` does not
  return exactly when a byte there needs a bit set (`FlashDriver.FlashDriver.Write`,
  `FlashDriver.ResetAddressStops`); in every other case it succeeds.
- The shift at `sw/host/ttybus.cpp:406` is unsigned, so an address behind the last one is never sent
  as a difference. The encoding is the shortest one exactly when no backward difference would be
  shorter (`TtyAddress.ShortestUnlessBackward`).
- `writev` with no words records an address that it does not send. The two ends then agree only
  if the peer was at that address already (`TtyWrite.CallArrives`), and the next call lands elsewhere
  exactly if it is sent as a difference, or not at all, from the address that was recorded
  (`TtyWrite.EmptyCallMisplacesNext`).
- A read of eight words without increment is asked for by the symbol that ends a burst of writes
  (`sw/host/ttybus.cpp:485-486`, `rtl/wbubus/wbudecompress.v:145`), and nothing is read. So `readv`
  asks for all its words exactly if it increments or its length modulo 512 is not eight
  (`TtyLink.ReadIsDone`); else it waits for eight words that never come (`TtyLink.ReadHangs`).
- `writev` to a new address restarts the host's table of words read (`sw/host/ttybus.cpp:473`), but the
  FPGA end restarts its own only when it reports an address in front of a read, and the write uses up
  the report. A read that follows at the address reached then refers to words that the host looks up in
  the wrong place (`TtyLink.MovedWriteMisreads`), unless the host's table was at its start
  (`TtyLink.MovingWriteKeepsWords`). A read that sends its address, or one not preceded by such a write,
  comes back right (`TtyLink.ReadReturns`).
- The executor leaves a write only when the next command is offered to it, which
  `rtl/wbubus/wbuconsole.v:132` does only when it is not busy: a write keeps it busy until the
  watchdog resets it (`TtyExec.WriteNeverEnds`). Held out to it regardless, the command ends the write
  (`TtyExec.OfferEndsWrite`).
- The check at the end of `readv` passes exactly when the peer reported its address during the read
  or the host had it right before it (`TtyLink.LastCheckPasses`).
- `__divdi3` gives the truncated quotient for all operands but the most negative dividend over -1.
- A UART word of seven data bits without parity is delivered with the stop bit in its top bit:
  the mask at `sim/verilated/dbluartsim.cpp:370` is eight bits wide for every setting.
- The parity of a UART word is folded from eight bits of its frame, stop bits included
  (`sim/verilated/dbluartsim.cpp:405-412`). With six data bits that weighs one stop bit, so the parity,
  unless it is fixed, is the opposite of the one asked for; with five, seven and eight it is right
  (`Uart.ParityOfWord`).
- A crossbar master that keeps its cycle in the clock after an error can have a request reach the slave
  that its own counter forgets (`Crossbar.ErrorClockIssuesRequest`); it happens in a run from reset
  (`Crossbar.RequestStrays`).
- With a double-buffered return path the crossbar does not stall a master's decoder when the master's
  counter is full and the request is for another slave than the one granted: `m_stall` is then `m_stb`
  (`rtl/wbxbar.v:856`), which a full counter holds low (`rtl/wbxbar.v:297-298`). The request leaves the decoder
  and goes nowhere. It happens after 2^LGMAXBURST - 1 requests without an answer
  (`CrossbarPorts.RequestSlips`, for the repository's smaller crossbar `CrossbarPorts.WbuRequestSlips`);
  in every other clock what leaves the decoder is taken (`CrossbarPorts.Leaves`).
- `MEMSIM` built with a delay of 0 acts as if the delay were 1 (`MemSim.Latency`).

## Model

| member | source | states |
|---|---|---|
| Crossbar.GrantsAgree | rtl/wbxbar.v:1160-1198 | in every state reached from reset, for any numbers of masters and slaves and any inputs: a slave is marked granted exactly when some master holds it, that master is unique and is the one its index names, the master's index names the slave, and a master is marked granted exactly when it holds one channel |
| Crossbar.AlwaysRouted | rtl/wbxbar.v:1120-1158 | the routing invariant (one channel a master, one master a slave, all the copies of that fact agreeing) survives every run |
| Crossbar.ClockKeepsRouted | rtl/wbxbar.v:503-523 | one clock keeps the routing invariant, whatever the inputs |
| Crossbar.SlaveGrantHasOwner | rtl/wbxbar.v:357-383 | the registered slave grant is set only for a slave that some master holds after the same clock |
| Crossbar.SlaveGrantFollows | rtl/wbxbar.v:374-383 | and it is set for every slave that a master holds |
| Crossbar.MasterIndexFollows | rtl/wbxbar.v:538-579 | OR-ing the candidate slave numbers gives the number of the slave the master comes to hold |
| Crossbar.SlaveIndexFollows | rtl/wbxbar.v:638-671 | OR-ing the candidate master numbers gives the master that comes to hold the slave, so there is one candidate |
| Crossbar.OneClaimant | rtl/wbxbar.v:641-654 | a slave that a master holds or is gaining has no other claimant |
| Crossbar.RequestedBy | rtl/wbxbar.v:323-346 | the running flag is set for a master exactly when an earlier master asks for the slave and could act on it |
| Crossbar.EveryRunConserves | rtl/wbxbar.v:1333-1343 | over every run with slaves that answer what they were asked and masters that leave after an error: every acknowledgement at a master is the answer to its own oldest request, with that answer's data; the pending count is the slave's outstanding requests plus its strobe plus the registered acknowledgement; and what a slave is strobed for, or a master waits for, is a request that was held out for it during the run, with its write flag, address and byte selects, its data if it writes and 0 if it reads |
| Crossbar.AlwaysAsked | rtl/wbxbar.v:808-832 | what slaves are strobed for, what they have outstanding and what masters wait for was held out by some master for that slave, literally but for the data of a read, over every run |
| Crossbar.AlwaysConserved | rtl/wbxbar.v:1309-1343 | the conservation invariant survives every run |
| Crossbar.ClockConserves | rtl/wbxbar.v:839-898 | what a master sent and has not had answered is what is registered on its return path, at its slave, and in the slave's strobe, in order; one clock keeps this |
| Crossbar.PendingHoldsSlave | rtl/wbxbar.v:477-485 | a master with requests unanswered that keeps its cycle keeps its slave |
| Crossbar.PushGoesToGrant | rtl/wbxbar.v:849-860 | a request is accepted from a master only for the one slave it holds |
| Crossbar.CountedFollows | rtl/wbxbar.v:990-1011 | the pending counter follows the number of unanswered requests, and the empty, nearly full and full flags equal their definitions from it; it never wraps |
| Crossbar.CountAfterDescribes | rtl/wbxbar.v:1200-1212 | one step of the counter and its three flags keeps them equal to their definitions, given no acknowledgement of nothing and no request when full |
| Crossbar.FullIsGranted | rtl/wbxbar.v:294-300 | a full counter belongs to a master that is granted and not empty |
| Crossbar.ErrorClockIssuesRequest | rtl/wbxbar.v:716-748 | if a master keeps its cycle in the clock after an error, its count is cleared while its slave is given a request exactly when it asks and was not full |
| Crossbar.RequestStrays | rtl/wbxbar.v:716-748 | there is such a run from reset with one master and one slave, by the rules up to that clock: it ends with the slave's strobe set for a request of the master's choice, its write flag, address, byte selects and write data unchanged, nothing counted and nothing sent |
| Crossbar.FirstGetsFreeSlave | rtl/wbxbar.v:323-346 | a free slave goes in one clock to the first master, in the order of their numbers, that asks for it and has nothing unanswered elsewhere, and to no other |
| Crossbar.PushMeansLoad | rtl/wbxbar.v:849-860 | a request of the master that holds a slave is taken exactly when the counter is not full and the slave is not stalling a request already in its register |
| Crossbar.EndFreesSlave | rtl/wbxbar.v:501-523 | a master that ends its cycle gives up its slave at once, and the slave sees no cycle and is free after that clock |
| Crossbar.AnswerIsShown | rtl/wbxbar.v:862-888 | a master is shown an acknowledgement or an error exactly when the slave it holds answered so on an open cycle in the clock before, and none after an error |
| Crossbar.NowhereGetsError | rtl/wbxbar.v:880-884 | a master with nothing unanswered that asks for no slave's address, and keeps its cycle, is shown an error within two clocks |
| Crossbar.ErrorWhenNowhere | rtl/wbxbar.v:880-884 | and then on every other clock, and never an acknowledgement |
| Interconnect.PriorRequests | rtl/wbxbar.v:323-346 | the index loops compute the flags of the whole matrix |
| Interconnect.MasterReindex | rtl/wbxbar.v:538-579 | the bit loops of a master's new index compute the specified index |
| Interconnect.SlaveReindex | rtl/wbxbar.v:638-671 | the bit loops of a slave's new index compute the specified index |
| Interconnect.SlaveGrant | rtl/wbxbar.v:375-383 | the loop over masters and the drop condition compute the next slave grant |
| Interconnect.MasterGrant | rtl/wbxbar.v:477-523 | the branches over staying, an available channel and a strobe compute the next grant and its flag |
| Interconnect.MasterStalls | rtl/wbxbar.v:849-860 | the stall of a master's decoder |
| Interconnect.CountPending | rtl/wbxbar.v:983-1013 | the case over request and acknowledgement computes the counter and its three flags |
| Interconnect.ReturnPath | rtl/wbxbar.v:862-898 | the registered acknowledgement, error and data of a master |
| Interconnect.SlaveStrobe | rtl/wbxbar.v:718-748 | the registered cycle and strobe of a slave |
| Interconnect.SlaveRequest | rtl/wbxbar.v:808-832 | the registered request of a slave, zero when it is not granted |
| Interconnect.Switch.constructor | rtl/wbxbar.v:986-989 | the registers start as the initial state of every run above, the indices at any values given |
| Interconnect.Switch.Tick | rtl/wbxbar.v:716-748 | one clock edge on the registers, each computed by the branches and loops of these methods, is one step of the specified machine |
| AddrDecode.OneHot | rtl/addrdecode.v:104-162 | with disjoint regions, exactly one request bit is set when the input is valid, the bit of the region of the address or of no region, and none otherwise |
| AddrDecode.MatchesInBits | rtl/addrdecode.v:104-112 | an address is in a region exactly if they agree in every bit of the region's mask |
| AddrDecode.BoardIsDisjoint | rtl/main.v:572-596 | the regions of the board's map are disjoint and leave addresses for no slave |
| AddrDecode.Request | rtl/addrdecode.v:104-162 | the loops compute every request bit, the one for no slave included |
| AddrDecode.Conserves | rtl/addrdecode.v:164-203 | over any run without reset through buffer and decoder, what was waiting and what was accepted is what was delivered and what waits now, in order, at most two of it, and the output is decoded one-hot exactly when valid |
| AddrDecode.ClockConserves | rtl/addrdecode.v:164-203 | the same conservation for one clock |
| AddrDecode.StallHolds | rtl/addrdecode.v:176-203 | a stalled output keeps its decode, address and data |
| CrossbarPorts.EveryAnswerIsInOrder | rtl/wbxbar.v:238-302 | in every run from reset of the crossbar with its ports, by the rules, for every master not being shown out after an error: the requests accepted at its port since it opened its cycle are, in order, those answered, those in the crossbar or at the slave, and those waiting in the port, exactly if none has slipped, and as many are missing as have slipped; if none has, every acknowledgement is for its oldest unanswered request, with the data the slave gave for it. The k-th request answered has the write flag, address and byte selects of the k-th accepted, its data if it writes and 0 if it reads |
| CrossbarPorts.RequestsWereAccepted | rtl/wbxbar.v:808-832 | in every run from reset, the request a slave is strobed for is one accepted at some port during the run, with the same write flag, address and byte selects, its data if it writes and 0 if it reads |
| CrossbarPorts.AlwaysKept | rtl/wbxbar.v:238-302 | the books behind this survive every run |
| CrossbarPorts.ClockKeepsBooks | rtl/wbxbar.v:238-302 | one clock of ports and crossbar together keeps them |
| CrossbarPorts.Leaves | rtl/wbxbar.v:849-860 | on an open cycle, a request leaves the decoder exactly when the crossbar takes it or the counter is full and the request is for another slave than the one granted, and never both |
| CrossbarPorts.RoomKeepsRequests | rtl/wbxbar.v:294-300 | no request slips from a master with less than 2^LGMAXBURST - 1 requests accepted and not answered |
| CrossbarPorts.RequestSlips | rtl/wbxbar.v:849-860 | for every counter width of at least three bits, a run from reset with one master and two slaves in which the last request accepted is in neither port, crossbar nor slave, and is not answered |
| CrossbarPorts.WbuRequestSlips | rtl/main.v:752-768 | for the repository's smaller crossbar it is the 64th request, the 63 before it being counted |
| CrossbarPorts.RequestsReachTheirSlave | rtl/wbxbar.v:251-292 | in every run from reset, a slave is given, and has outstanding, only requests for addresses in its region |
| CrossbarPorts.AnswerFromHome | rtl/wbxbar.v:862-898 | the acknowledgement registered for a master comes from the slave in whose region the request answered lies |
| CrossbarPorts.DecodeIsTarget | rtl/wbxbar.v:274-292 | with disjoint regions the decoder's bits are those of the index the crossbar's model goes by |
| CrossbarPorts.PortConserves | rtl/wbxbar.v:251-285 | one clock of skid buffer and decoder together, on an open cycle, neither loses, repeats nor reorders a request |
| SkidBuffer.Conserves | rtl/skidbuffer.v:120-157 | the unregistered buffer neither loses, repeats nor reorders anything over any run |
| SkidBuffer.StallHolds | rtl/skidbuffer.v:145-157 | its output stays valid and the same while stalled, whatever comes in |
| SkidBuffer.KeepsUp | rtl/skidbuffer.v:120-157 | with nothing stalled, everything offered is taken and delivered, in order |
| SkidBuffer.ConservesRegistered | rtl/skidbuffer.v:158-181 | the registered form conserves too, and holds at most two |
| SkidBuffer.StallHoldsRegistered | rtl/skidbuffer.v:160-180 | its output register holds while stalled |
| SkidBuffer.KeepsUpRegistered | rtl/skidbuffer.v:158-181 | with nothing stalled, everything offered is taken, and at most one item waits |
| SkidBuffer.Buffer.Tick | rtl/skidbuffer.v:120-157 | one clock of the unregistered form's registers, and its outputs |
| SkidBuffer.RegisteredBuffer.Tick | rtl/skidbuffer.v:120-181 | one clock of the registered form's registers, and its outputs |
| FlashDriver.FlashDriver.Write | sw/host/flashdrvr.cpp:426-518 | `write` fails to return exactly when some byte of data at flash offset 0x400000 or beyond sets a bit that the flash has clear, as an erase there stops the simulator; otherwise it returns true, whatever the flash held, and every byte of the flash is then the byte of data that belongs there, or 0xff if its 64 kB sector had some byte of data set a bit that was clear, or what it was; the device is readable again and write-protected |
| FlashDriver.WrittenIsData | sw/host/flashdrvr.cpp:441-505 | the specified contents hold the data where it belongs, are unchanged outside the touched sectors, and elsewhere in those are unchanged or 0xff |
| FlashDriver.ProgramSetsNoBit | sw/host/flashdrvr.cpp:462-470 | a byte can be had without an erase exactly if it has no bit set that the flash has clear |
| FlashDriver.WrittenInBits | sw/host/flashdrvr.cpp:441-505 | the specified contents and the stop condition in terms of single bits: which sectors are erased, what every byte becomes, and when the simulator stops |
| FlashDriver.ResetAddressStops | sim/verilated/flashsim.cpp:615-620 | four bytes over zeros at the reset address 0x1400000 need an erase that stops the simulator |
| FlashDriver.FlashDriver.WriteSectors | sw/host/flashdrvr.cpp:445-505 | the loop over sectors writes all of the data, and stops exactly at the first sector that cannot be erased |
| FlashDriver.FlashDriver.WriteSector | sw/host/flashdrvr.cpp:445-505 | one turn of the loop changes its own sector only, to what it must hold, and stops exactly when that sector needs an erase it cannot have |
| FlashDriver.FlashDriver.Examine | sw/host/flashdrvr.cpp:449-488 | what is read of the sector shows exactly whether it must be erased, and if not, a place up to which it is right and from which clearing bits is enough |
| FlashDriver.FlashDriver.FillSector | sw/host/flashdrvr.cpp:476-503 | erasing if so decided, and programming from the place decided, brings the sector to what it must hold |
| FlashDriver.FlashDriver.Compare | sw/host/flashdrvr.cpp:449-474 | the comparison asks for an erase exactly when some byte needs a bit set, finds nothing to do exactly where all is equal, and otherwise starts at a word before which nothing differs |
| FlashDriver.PlanIsRight | sw/host/flashdrvr.cpp:476-488 | what the comparison of the sector's share says is right of the flash: whether the sector must be erased, that a match needs nothing, that clearing bits is enough from the start on |
| FlashDriver.SectorNeeds | sw/host/flashdrvr.cpp:455-470 | a sector must be erased exactly when the compared slices show it |
| FlashDriver.SectorFilled | sw/host/flashdrvr.cpp:479-503 | filling from the first difference, or from the share's start after an erase, gives what the sector must hold |
| FlashDriver.FlashDriver.ProgramPages | sw/host/flashdrvr.cpp:490-503 | the page loop puts in all the data of the sector, each page clipped, where clearing bits is enough |
| FlashDriver.FlashDriver.PageShare | sw/host/flashdrvr.cpp:492-498 | a page's share ends at the page or the data's end, stays in the sector, and the next page begins where it ends unless the data ends |
| FlashDriver.FillsMore | sw/host/flashdrvr.cpp:499-502 | programming the next stretch extends what is filled, and the stretch then reads back as the data |
| FlashDriver.FlashDriver.PageProgram | sw/host/flashdrvr.cpp:287-389 | the addressed bytes are ANDed with the data and nothing else changes; with the check on, it succeeds exactly when the data was blank and skipped, or reads back |
| FlashDriver.FlashDriver.EraseSector | sw/host/flashdrvr.cpp:231-285 | the sector and nothing else becomes 0xff, the check passes, and beyond the first 4 MB the simulator stops instead |
| FlashDriver.FlashDriver.VerifyErase | sw/host/flashdrvr.cpp:260-279 | the check of an erase passes exactly when every byte of the sector is 0xff |
| FlashDriver.FlashDriver.ReadBack | sw/host/flashdrvr.cpp:455-458 | read and byte-swapped, a stretch of flash is in the host's buffer as the bytes it holds |
| FlashOffline.TakesOffline | sw/host/flashdrvr.cpp:137-148 | from every sound state, in command mode or any continued read, six bytes of ones on the lowest line, anything on the others, leave the device in single-bit mode, idle, its contents and write timer undisturbed |
| FlashOffline.StepsLeave | sim/verilated/flashsim.cpp:264-302 | any number of such pulses keeps the device on its way out, and none starts a write |
| FlashOffline.OddNibbleLeaves | sim/verilated/flashsim.cpp:223-242 | a mode byte whose upper digit is odd is no 0xa, so the device does not continue the read |
| FlashOffline.QuadStep | sim/verilated/flashsim.cpp:575-587 | a pulse in quad mode with the lowest line high |
| FlashOffline.DualStep | sim/verilated/flashsim.cpp:567-574 | the same in dual mode |
| FlashPort.TakeOffline | sw/host/flashdrvr.cpp:137-148 | the method: a readable or idle device comes to command mode with its contents and flags |
| FlashPort.PlaceOnline | sw/host/flashdrvr.cpp:175-214 | the quad read command with mode byte 0xa0 leaves the device waiting to continue the read, contents and flags kept |
| FlashPort.ReadBytes | sim/verilated/flashsim.cpp:575-587 | a continued quad read of any length gives exactly the bytes stored there and leaves the device ready for the next |
| FlashReads.Read | sim/verilated/flashsim.cpp:501-566 | the slow, the fast, the dual and the quad read command, for every address and length: after the command, the address and what follows it, each byte fetched is the one stored at the next place from the address on; nothing else changes |
| FlashReads.ReadOn | sim/verilated/flashsim.cpp:567-574 | so does a dual read that continues without a command |
| FlashReads.DualGoesOn | sim/verilated/flashsim.cpp:228-242 | a dual read whose mode byte is 0xa0 leaves the device waiting for such an address |
| FlashReads.ReadIdentification | sim/verilated/flashsim.cpp:479-492 | the device names itself 0x01, 0x15, 0x23, 0x40 |
| FlashReads.ReadStatusRegister | sim/verilated/flashsim.cpp:493-496 | the status register is given as often as it is asked for, with the write enable latch in bit 1 |
| FlashReads.ReadConfiguration | sim/verilated/flashsim.cpp:497-500 | the configuration register is given as often as it is asked for |
| FlashWrite.Program | sw/host/flashdrvr.cpp:330-342 | the page program command sent byte by byte ANDs the data into its place in the page and starts a write |
| FlashWrite.PageProgramsData | sim/verilated/flashsim.cpp:180-188 | ANDing a 256-byte page buffer, blank but for the data, into the page is ANDing the data into its place |
| FlashWrite.Erase | sw/host/flashdrvr.cpp:247-251 | the erase command erases its sector, or stops the simulator from offset 0x400000 on |
| FlashWrite.Wait | sw/host/flashdrvr.cpp:216-229 | polling the status ends, with the device idle and its contents kept |
| FlashWrite.Poll | sw/host/flashdrvr.cpp:223-226 | one poll brings the end of the write nearer, and shows it once it has come |
| FlashBus.ByteArrives | sim/verilated/flashsim.cpp:249-277 | eight clock pulses deliver a byte, whatever is on the other lines: the device acts on it once, at the last falling edge, sixteen clocks of its timer having passed |
| FlashBus.PulseCompletes | sim/verilated/flashsim.cpp:303-307 | the pulse that completes a byte shifts, acts on the byte, and lets the rising edge pass |
| FlashBus.PulseResumes | sim/verilated/flashsim.cpp:279-302 | a pulse of a device waiting to continue a read shifts, and at 24 bits takes the address |
| FlashSim.ContentsChangeOnlyWhenAccepted | sim/verilated/flashsim.cpp:166-216 | over every run without command 0x81 the contents change only at a deselection, after a program or erase command that was accepted with the write latch set and no write in progress, and the deselection clears the latch and starts the timer |
| FlashSim.WritingWasAccepted | sim/verilated/flashsim.cpp:320-328 | a device programming or erasing had such a command accepted, at a call this lemma returns, and was not deselected since |
| FlashSim.CallChanges | sim/verilated/flashsim.cpp:171-216 | a call that changes the contents is a deselection, and leaves the device idle, busy and write-protected |
| FlashSim.CallEnters | sim/verilated/flashsim.cpp:419-434 | a device starts to program or erase only on the call that completes such a command |
| FlashSim.OnlyErasesSetBits | sim/verilated/flashsim.cpp:180-188 | unless an erase ends, no bit of the contents becomes set |
| FlashSim.ProgrammingOnlyClears | sim/verilated/flashsim.cpp:187 | a program sets no bit |
| FlashSim.RunKeepsSound | sim/verilated/flashsim.cpp:158-165 | every run without command 0x81 keeps the device sound: bytes are bytes, mode and state agree, and a write in progress has time left to run |
| FlashSim.CallKeepsSound | sim/verilated/flashsim.cpp:158-302 | every single call does |
| FlashSim.EdgeKeepsSound | sim/verilated/flashsim.cpp:279-302 | a falling edge does, and the simulator's assertions on continued reads hold |
| FlashSim.DecodeKeepsSound | sim/verilated/flashsim.cpp:303-450 | so does every command but 0x81 |
| FlashSim.DataKeepsSound | sim/verilated/flashsim.cpp:451-628 | so does every byte after a command |
| FlashSimulator.FlashSimulator.constructor | sim/verilated/flashsim.cpp:78-97 | a new device is blank, idle and sound |
| FlashSimulator.FlashSimulator.Operate | sim/verilated/flashsim.cpp:158-637 | one call of the simulator on its fields and arrays is one step of the specified device |
| FlashSimulator.FlashSimulator.EndSelection | sim/verilated/flashsim.cpp:166-248 | deselection, with the loops over the contents |
| FlashSimulator.FlashSimulator.TakeCommand | sim/verilated/flashsim.cpp:303-450 | the command decoder's branches |
| FlashSimulator.FlashSimulator.TakeByte | sim/verilated/flashsim.cpp:451-628 | the branches for bytes after a command |
| FlashSimulator.FlashSimulator.ClearBits | sim/verilated/flashsim.cpp:180-188 | the loop over the page buffer ANDs it into the page and changes nothing else |
| FlashSimulator.FlashSimulator.SetBits | sim/verilated/flashsim.cpp:196-198 | the loop over a sector sets it and nothing else |
| ByteSwap.SwappedWordHoldsBytes | sw/host/byteswap.cpp:49-93 | a swapped big-endian word lies in the host's memory as the bytes it was built from |
| ByteSwap.SwapTwice | sw/host/byteswap.cpp:49-62 | swapping twice gives the word back |
| ByteSwap.SwapBuffer | sw/host/byteswap.cpp:70-74 | the loop swaps every word |
| ByteSwap.SwappedBufferHoldsBytes | sw/host/byteswap.cpp:70-93 | a buffer of words read and swapped is the bytes that were read |
| ByteSwap.WordsDetermineBytes | sw/host/byteswap.cpp:83-93 | comparing words is comparing bytes |
| TtyCodec.CodeIsBijective | sw/host/ttybus.cpp:106-136 | the two symbol tables invert each other, and what decodes to no symbol is the code of none |
| TtyChars.HostIsHeard | rtl/wbubus/wbutohex.v:70-91 | the FPGA's table of characters gives for the host's symbol of every code that code |
| TtyChars.FpgaIsHeard | rtl/wbubus/wbusixchar.v:71-95 | the host decodes the character the FPGA sends for every code as that code, it being the host's own symbol, and a line end as none |
| TtyChars.HeardAlike | rtl/wbubus/wbutohex.v:70-91 | of every character, of any kind, both ends make the same |
| TtyChars.TextIsHeard | rtl/wbubus/wbutohex.v:70-91 | a line of the host's symbols is heard as its codes |
| TtyWords.LengthIsCodesIn | rtl/wbubus/wbureadcw.v:86-131 | a command takes as many codes as the FPGA gathers for its first |
| TtyWords.DecodeIsMeant | rtl/wbubus/wbudecompress.v:62-165 | what the model takes a command to mean is what the fields of the 36-bit word gathered from its codes come to |
| TtyWords.AnswerIsEmitted | rtl/wbubus/wbudeword.v:54-98 | the codes that the model allows for an answer are those of the executor's word for it, as it is or with its data replaced by a reference into the table of words |
| TtyWords.ReportIsEmitted | rtl/wbubus/wbucompress.v:95-114 | those for an address are of the executor's report of it, shortened by its zero digits |
| TtyWords.NoiseIsEmitted | rtl/wbubus/wbuidleint.v:101-127 | the codes for write acknowledgement, idle, busy and interrupt |
| TtyWords.FaultIsEmitted | rtl/wbubus/wbuexec.v:277-296 | a bus reset is sent as 3, a bus error as 5 |
| TtyCodec.CodesOfText | sw/host/ttybus.cpp:106-136 | a line of symbols is read back as its codes |
| TtyCodec.ValueOfDigits | sw/host/ttybus.cpp:170-190 | base-64 digits give back the number, as far as they reach |
| TtyCodec.DigitsOfValue | sw/host/ttybus.cpp:179-190 | and every digit string is the digits of its value |
| TtyAddress.AddressArrives | sw/host/ttybus.cpp:392-476 | for every aligned address and last address, the encoded command brings the peer to that address |
| TtyAddress.NoShorterForward | sw/host/ttybus.cpp:434-469 | no absolute form and no forward difference that brings the peer there is shorter, and an absolute form of the same length is preferred |
| TtyAddress.ShortestUnlessBackward | sw/host/ttybus.cpp:404-432 | no form at all is shorter exactly when the peer is there already or no backward difference is shorter |
| TtyAddress.OneWordBackIsSentInFull | sw/host/ttybus.cpp:406 | one word back from 0x10000000 costs six symbols where a backward difference would cost two |
| TtyWrite.BackIsNearest | sw/host/ttybus.cpp:261-272 | the dictionary search finds the nearest filled slot that holds the word, and gives up only if none does |
| TtyWrite.WordArrives | sw/host/ttybus.cpp:258-302 | a word, however it is sent, is written by the peer at its address, uses no slot the peer has not filled, and leaves both tables and both addresses equal |
| TtyWrite.WordsArrive | sw/host/ttybus.cpp:252-314 | so is any number of words |
| TtyWrite.CallArrives | sw/host/ttybus.cpp:231-328 | any call is carried out as requested; the two ends then agree exactly when the address was refused, or there were words, or the peer was there already, which a host that knows an address can tell before the call |
| TtyWrite.EverySessionArrives | sw/host/ttybus.cpp:231-328 | from a new host and peer, any sequence of calls of which none without words moves the address, sent as text and heard through the FPGA's own table of characters, makes the peer do exactly the writes requested in order, and leaves the two in agreement |
| TtyWrite.RequestedAtBytes | sw/host/ttybus.cpp:249-301 | the writes requested are the words of the call, in order, at its byte address and, if it moves on, at each fourth after it |
| TtyWrite.SessionArrives | sw/host/ttybus.cpp:231-328 | the same from any two ends that agree |
| TtyWrite.EmptyCallMisplacesNext | sw/host/ttybus.cpp:249-252 | after a call without words, where any next call lands; it lands where it should exactly if the recorded address was the peer's own, or its address is sent in full |
| TtyWrite.EmptyCallLosesPeer | sw/host/ttybus.cpp:249-252 | a first call without words leaves a host that knows an address its peer was never sent |
| TtyRead.WordReads | sw/host/ttybus.cpp:683-732 | every legal encoding of a word, raw or by a repeat, short or long index, is read as that word, and moves the address by the command's step |
| TtyRead.NoiseReads | sw/host/ttybus.cpp:619-679 | idle, acknowledgement, interrupt and address codes in front of a word do only what they mean |
| TtyRead.FaultReads | sw/host/ttybus.cpp:626-635 | a reset or a bus error in front of a word, after any such codes, fails the read of it and is remembered |
| TtyRead.ReadFails | sw/host/ttybus.cpp:541-547 | after any k legal answers and any such codes, a 3 or a 5 ends the read of more than k words with k of them read, the error remembered and the rest of the line unread |
| TtyRead.FollowsOn | sw/host/ttybus.cpp:723 | the reader's 1024-entry ring stays the peer's history when a word is added |
| TtyRead.ReadsRightWhenFollowing | sw/host/ttybus.cpp:683-732 | a reader reads every legal encoding of every word right exactly when the last 521 words of its ring are the peer's |
| TtyRead.ResponseReads | sw/host/ttybus.cpp:598-732 | a word with any such codes before it is read as the word, the codes having had their effect |
| TtyRead.AnswersRead | sw/host/ttybus.cpp:541-547 | any sequence of words in any legal encodings and with any such codes between is read as those words, and the ring follows the peer on |
| TtyRead.AddressAfterAnswers | sw/host/ttybus.cpp:541-562 | the address then is as far on as the length and step say, from what the peer reported or else from what the host had |
| TtyPlan.ReadArrives | sw/host/ttybus.cpp:478-495 | a read command for any length up to 520 makes the peer read that many words, exactly if it increments or they are not eight |
| TtyPlan.EightWordsAreLost | rtl/wbubus/wbudecompress.v:145-146 | eight words without increment are asked for by the symbol 0x2e, which the peer takes for the end of a burst of writes |
| TtyPlan.PlanIsHeard | sw/host/ttybus.cpp:524-547 | of the reader's plan the peer hears everything, but eight words less if it does not increment and the length modulo 512 is eight |
| TtyPlan.PlanIsSound | sw/host/ttybus.cpp:524-547 | the reader's plan ends for every length, asks for exactly that many words and takes as many, and never has more than 1024 asked for and not taken, nor takes what it has not asked for |
| TtyPlan.PlanIsInBlocks | sw/host/ttybus.cpp:527-535 | every command asks for 1 to 512 words |
| TtyPlan.StepsArrive | sw/host/ttybus.cpp:524-547 | the peer understands the whole plan as one read after the other from where it is, of the blocks it hears |
| TtyPlan.AskedTouches | sw/host/ttybus.cpp:527-535 | split into commands, the read touches the same addresses in the same order as in one |
| TtyLink.ReadReturns | sw/host/ttybus.cpp:513-562 | a read that increments or does not end in eight words, and sends its address or follows no write that moved it: the peer does exactly the reads wanted, any legal answers give the words answered and leave the rest unread, the last check passes, and the two ends are in step |
| TtyLink.ReadIsRefused | sw/host/ttybus.cpp:541-547 | a vector read that meets a bus error or reset after k of its words fails with k counted, so `readv` names the k-th address |
| TtyLink.AlongInBytes | sw/host/ttybus.cpp:513-538 | the addresses that a read touches are, in bytes, the one named and, if it moves on, each fourth after it |
| TtyLink.LastCheckPasses | sw/host/ttybus.cpp:549-562 | the last check passes exactly when the peer reported its address or the host had it right before |
| TtyLink.ReadIsAsked | sw/host/ttybus.cpp:523-538 | what the peer does with `readv`'s commands, for every length and step |
| TtyLink.ReadIsDone | sw/host/ttybus.cpp:485-486 | the peer touches exactly the addresses wanted, in order, exactly if the read increments or its length modulo 512 is not eight |
| TtyLink.ReadHangs | sw/host/ttybus.cpp:541-547 | otherwise `readv` gets all the answers there are and waits for eight words more |
| TtyLink.WriteKeepsStep | sw/host/ttybus.cpp:231-328 | a write keeps addresses and write dictionaries in step, and says when the read tables may part |
| TtyLink.MovingWriteKeepsWords | sw/host/ttybus.cpp:473 | after a write that moves the address the host reads every legal answer right exactly when its table looks the same back from its start as from where it was, as it does when it was there |
| TtyLink.MovingWriteMisleads | rtl/wbubus/wbucompress.v:195 | from every other place there is a host, a peer and a legal answer that is read wrong: without looking at the words, the place is the exact guard |
| TtyLink.MovedWriteMisreads | rtl/wbubus/wbuexec.v:266-287 | for any words read, in a new link: one read, a write elsewhere and a read of two words there, of which the second comes back as 0 |
| TtyLink.ConversationKeepsStep | sw/host/ttybus.cpp:231-562 | over any sequence of writes and reads within those three guards (no empty write that moves the address, no last block of eight without increment, no read without an address after a write that moved it), every exchange goes through, every read gives the words sent for it, the peer does exactly what was wanted, and both directions stay in step |
| TtyExec.ReadObeyed | rtl/wbubus/wbuexec.v:146-177 | a read handed to the executor, with any stalls and delays of the bus: when it is done it has requested exactly the addresses the peer reads, has sent one answer for each, has sent an address first exactly if there was one to report, and stands where the peer does |
| TtyExec.ReadRuns | rtl/wbubus/wbuexec.v:146-177 | it is done exactly with the last answer, every word requested once and in order |
| TtyExec.ErrorEndsRead | rtl/wbubus/wbuexec.v:277-296 | an error during a read ends its cycle and is reported, and so does a reset |
| TtyExec.ReadTaken | rtl/wbubus/wbuexec.v:281-287 | an address is sent in front of a read exactly if it is new |
| TtyExec.AddressObeyed | rtl/wbubus/wbuexec.v:249-273 | address commands, and those that mean nothing, do to the executor what they do to the peer |
| TtyExec.WriteNeverEnds | rtl/wbubus/wbuexec.v:178-221 | once a write is taken, no run without reset offers the executor another command, as it is wired |
| TtyExec.WriteTaken | rtl/wbubus/wbuexec.v:130-138 | a write taken puts the executor in that state |
| TtyExec.OfferEndsWrite | rtl/wbubus/wbuexec.v:193-213 | a command offered all the same ends an acknowledged write, or is the next write |
| TtyLink.NewSceneInStep | sw/host/ttybus.cpp:249-250 | a new host and peer are in step, the peer with an address to report |
| TtyBus.TtyBus.WriteV | sw/host/ttybus.cpp:231-328 | the method: it refuses unaligned addresses, sends exactly the specified text, and ends in exactly the specified state |
| TtyBus.TtyBus.EncodeAddress | sw/host/ttybus.cpp:392-476 | the buffer holds the specified address command, and a new address restarts the read table |
| TtyBus.TtyBus.FindWord | sw/host/ttybus.cpp:261-272 | the search loop finds the specified slot |
| TtyBus.TtyBus.BufAlloc | sw/host/ttybus.cpp:161-168 | the buffer is at least as long as asked afterwards |
| TtyBus.TtyBus.ReadV | sw/host/ttybus.cpp:513-562 | the method: for every address and length it returns, refuses or hangs as specified, with the words, the state and the text sent that are specified |
| TtyBus.TtyBus.ReadNextWord | sw/host/ttybus.cpp:598-732 | the loop over symbols reads the specified word, or fails or blocks where that does |
| TtyBus.TtyBus.TakeWord | sw/host/ttybus.cpp:683-732 | the four branches read what the symbols mean |
| TtyBus.TtyBus.Commands | sw/host/ttybus.cpp:527-537 | the inner loop sends the specified line of read commands |
| TtyBus.TtyBus.BlockSize | sw/host/ttybus.cpp:528-532 | a block is never empty, never over 512, and never overfills the window |
| Uart.LoopbackDeliversBytes | sim/verilated/dbluartsim.cpp:348-434 | eight data bits, every parity, stop and baud setting the source allows from two clocks a bit, any offers with or without gaps: what one half has received is a prefix of what the other has sent, at most two behind, and all of it when both are idle |
| Uart.LoopbackDelivers | sim/verilated/dbluartsim.cpp:348-434 | the same for every word length, up to what the final mask makes of a byte |
| Uart.LoopbackDrains | sim/verilated/dbluartsim.cpp:348-434 | after a frame's time of silence everything sent has been received |
| Uart.LinkTick | sim/verilated/dbluartsim.cpp:348-388 | the invariant between the two halves, over the phases of a frame, an overlapping start and a late idle detection that the change counter makes up for, survives every tick |
| Uart.FrameBits | sim/verilated/dbluartsim.cpp:395-415 | a frame is a start bit, the data bits, and stop bits to the top of the register |
| Uart.SetupPacks | sim/verilated/dbluartsim.cpp:158-168 | the fields of a setup word, packed again, are the word but for its two top bits |
| Uart.ParityInFrame | sim/verilated/dbluartsim.cpp:395-415 | the bit behind the data, for every byte and setting: the fixed parity, or that of the eight bits above the start bit, stop bits included |
| Uart.ParityOfWord | sim/verilated/dbluartsim.cpp:395-415 | for a word that fits it is the fixed parity, or the word's own, even or odd as asked for, exactly if the words have not six bits |
| Uart.FrameGoesOut | sim/verilated/dbluartsim.cpp:390-431 | an idle transmitter given a byte holds the line at each bit of its frame in turn, each for the set number of clocks, whatever else it is offered meanwhile |
| Uart.ParityIsParity | sim/verilated/dbluartsim.cpp:405-412 | the folded word is the parity of its eight bits |
| Uart.DataBitsArrive | sim/verilated/dbluartsim.cpp:366-371 | the sampled frame, shifted and masked, has the data bits of the byte sent, and is that byte if there are eight |
| Uart.SevenBitWordsGainTheStopBit | sim/verilated/dbluartsim.cpp:370 | seven-bit words without parity arrive with their top bit set |
| Uart.DblUart.constructor | sim/verilated/dbluartsim.cpp:158-168 | the fields of the setup word, both halves at rest |
| Uart.DblUart.Tick | sim/verilated/dbluartsim.cpp:348-434 | one tick on the fields is one step of both specified halves |
| Uart.DblUart.TickReceive | sim/verilated/dbluartsim.cpp:353-388 | the receive half |
| Uart.DblUart.TickTransmit | sim/verilated/dbluartsim.cpp:390-431 | the transmit half and its output |
| Uart.DblUart.Received | sim/verilated/dbluartsim.cpp:287-291 | a byte goes to the command or the console buffer by its top bit, without it |
| Udiv.Udivdi3 | sw/zlib/udiv.c:124-170 | the floor of the quotient for all 64-bit operands, on all three paths |
| Udiv.DivisionShifts | sw/zlib/udiv.c:140-160 | the normalising shifts lose no bit of either operand, and set up the loop's invariant |
| Udiv.DivisionRound | sw/zlib/udiv.c:161-168 | one turn of the loop, taken or not, doubles the partial quotient and keeps the remainder below the divisor |
| Udiv.UpperWordQuotient | sw/zlib/udiv.c:143-153 | when the divisor's low word is zero, dividing the upper words is dividing the whole |
| Udiv.Cltz | sw/zlib/udiv.c:90-121 | the number of leading zeros, 63 for zero |
| Udiv.LeadingZerosNormalise | sw/zlib/udiv.c:90-121 | shifting by it brings the top bit of any nonzero word to the top |
| Udiv.SearchStep | sw/zlib/udiv.c:101-119 | one halving step of the search for the lowest set bit |
| Udiv.ZipBitrev | sw/zlib/udiv.c:48-55 | bit k of the result is bit 31-k of the argument |
| Udiv.Divdi3 | sw/zlib/udiv.c:211-227 | the quotient truncated toward zero exactly when the operands are not -2^63 and -1, where it is -2^63: what it leaves of the dividend is smaller in size than the divisor and has the dividend's sign |
| Udiv.TruncatedDivides | sw/zlib/udiv.c:211-227 | truncation toward zero leaves such a remainder for all integers |
| Udiv.DividesOnce | sw/zlib/udiv.c:211-227 | and there is only one quotient and remainder like that |
| Udiv.Umoddi3 | sw/zlib/umod.c:53-61 | the remainder for all 64-bit operands |
| SoftMultiply.SoftMpyUhi | sw/board/cputest.c:650-703 | the upper word of the product for all operands, no accumulator overflowing |
| SoftMultiply.SoftMpyShi | sw/board/cputest.c:705-724 | the floor of the signed product over 2^32, for all operands, the most negative included |
| SoftMultiply.SignedProduct | sw/board/cputest.c:720-723 | complementing the upper word, plus one when the low word is zero, negates the double word's upper half |
| SoftMultiply.PartialIsProduct | sw/board/cputest.c:661-700 | the sum of the shifted operands over the set bits is the product |
| SoftMultiply.PartialFitsUpper | sw/board/cputest.c:683-700 | after any number of rounds it fits in 64 bits |
| SdCrc.BlockCrc | sim/verilated/sdspisim.cpp:491-516 | the shift register ends as the CRC16 of the bytes' bits, for every length |
| SdCrc.AddBlockCrc | sim/verilated/sdspisim.cpp:518-523 | the block with its two appended bytes has CRC zero, and nothing else in the buffer changes |
| SdCrc.CmdCrc | sim/verilated/sdspisim.cpp:468-483 | the CRC7 of the bytes' bits, and the end bit |
| SdCrc.CheckCmdCrc | sim/verilated/sdspisim.cpp:485-489 | the check passes exactly for frames whose CRC7 is right and end bit set |
| SdCrc.FeedByte | sim/verilated/sdspisim.cpp:505-510 | eight turns of the inner loop feed the eight bits of a byte, whatever lies above the register |
| SdCrc.CrcIsLinear | sim/verilated/sdspisim.cpp:503-511 | the checksum is linear in start value and message |
| SdCrc.CheckIsLinear | sim/verilated/sdspisim.cpp:503-511 | the CRC of the difference of two messages of equal length is the difference of their CRCs |
| SdCrc.CheckedMessageIsZero | sim/verilated/sdspisim.cpp:518-523 | a message with a check appended has CRC zero exactly when the check is the message's CRC |
| SdCrc.CheckedBlock | sim/verilated/sdspisim.cpp:518-523 | so for a block and two bytes |
| SdCrc.BurstIsDetected | sim/verilated/sdspisim.cpp:491-516 | messages of any length that differ, and only within a window as wide as the checksum, have different CRCs |
| SdCrc.DamagedBlockIsDetected | sim/verilated/sdspisim.cpp:491-516 | a checked block damaged by one flipped bit or any burst within 16 bits no longer checks |
| SdCrc.DamagedFrameIsDetected | sim/verilated/sdspisim.cpp:485-489 | so for a command frame and 7 bits |
| SdCrc.FrameCheck | sim/verilated/sdspisim.cpp:485-489 | comparing the sixth byte is checking the whole frame |
| MemDev.RefinesSequentialMemory | rtl/memdev.v:87-150 | over any run: two clocks after a request it is acknowledged exactly if the cycle is open and there was no reset, and the data is what all byte-select writes before it left there |
| MemDev.OneRequestBehind | rtl/memdev.v:89-114 | the memory is the sequential memory one request ago, and the registers hold that request |
| MemDev.ReadsBackLastWrite | rtl/memdev.v:123-133 | after the last write to a word, each of its four lanes is that lane of the data written if its select was on, and what it was before if not, whatever was written elsewhere since |
| MemDev.KeepsUnwritten | rtl/memdev.v:123-133 | a word not written to is what it was |
| Memory.Store | rtl/memdev.v:125-132 | a write puts each selected lane of its data in that lane of its word, and changes nothing else |
| MemDev.Device.Tick | rtl/memdev.v:87-150 | one clock on the registers and the array |
| MemSim.Simulator.Apply | sim/verilated/memsim.cpp:104-146 | each request is acknowledged exactly the delay in calls later, with the value at the time of the request |
| MemSim.Masked | sim/verilated/memsim.cpp:107-135 | the masked store of a 32-bit number gives the word merged lane by lane |
| Memory.GatherMask | sim/verilated/memsim.cpp:107-116 | the mask is gathered from the four selects |
| Memory.MergeIsMasked | sim/verilated/memsim.cpp:131-133 | merging by lanes is clearing what the mask selects and putting in what it selects of the data |
| MemSim.Simulator.constructor | sim/verilated/memsim.cpp:52-68 | the memory is the least power of two that holds the words asked for, and the ring starts empty |
| MemSim.RingIndex | sim/verilated/memsim.cpp:117-118 | the masked 32-bit indices are steps around the ring, across the wrap of the word |
| MemSim.RingAnswers | sim/verilated/memsim.cpp:119-120 | the slot at the tail holds the reply of the delay ago |
| MemSim.RingAdvances | sim/verilated/memsim.cpp:122-138 | writing the slot at the head keeps the last replies in the ring |
| MemSim.LeastPower | sim/verilated/memsim.cpp:54-61 | the loop finds the least power of two |

## Left out

- Sockets, terminals, polling and file loading; bytes come from and go to sequences.
- ELF loading, the disassembler, board tests other than the two multiplications, time conversion.
- `rtl/qflexpress.v` and the rest of `rtl/main.v`: the flash controller and the CPU are not part of this model.
- Crossbar timeouts, starvation, the single-buffered return path, and the form for one master with low power off: not as instantiated.
- Crossbar `request` is an index and not a vector of bits; for disjoint regions the two say the same, by `CrossbarPorts.DecodeIsTarget`. The crossbar joined with its ports is modelled on values; the registers of each part are objects of their own (`Interconnect.Switch`, `SkidBuffer.Buffer`).
- Flash command 0x81: it leaves the simulator's state as it was, whatever it was, so mode and state may no longer agree.
- The `QSPIF_DEEP_POWER_DOWN` state of the flash simulator: nothing assigns it.
- Flash simulator: the input shift register is unbounded, as the source reads its low bytes only; the output shift register is the byte to be shifted out, not its bits on the lines; reading past the last byte gives 0 where the source reads outside its array; the device has 16 MB.
- Flash simulator: debug prints and `simtick` delays.
- Flash driver: `flashid`, `set_config` and dual reads; the volatile configuration register is not defined, so `verify_config` is true.
- FlashWrite.Program: models a page program that stays within its page, as the driver asserts.
- Debug bus: `readidle` and the compaction in `lclreadcode`; what is read is taken as already filtered to symbols. `decodehex`, statistics and interrupts' handling outside the link are left out.
- Debug bus: the queues of the FPGA end, when it sends idle and interrupt codes, and the search its compressor makes; any answer the compressor could choose is allowed.
- TtyLink.ConversationKeepsStep: its peer carries out a write and goes on to the next command, as the protocol has it; as wired the executor does not (`TtyExec.WriteNeverEnds`).
- TtyExec.ReadObeyed: is about reads that meet no bus error and no reset; what these do to the executor is `TtyExec.ErrorEndsRead`, to the host `TtyLink.ReadIsRefused`.
- Debug bus: `p` and `inc` are taken as 0 or 1, the only values the callers pass; lengths and the buffer's length do not wrap at the integer's width.
- TtyBus.TtyBus.ReadV: if the link blocks, nothing more is said than that it does, since the source then never returns.
- UART: bytes are offered, not polled for; `m_rx_changectr` does not wrap; the sending of a finished line to a socket in `received`, and the reset of the line buffers with it, are left out.
- The assembler versions of `cltz` and the processor's bit reversal.
- Memories: the ROM option and the form without the extra clock of `rtl/memdev.v`; `MEMSIM` sizes and delays are at most 2^31, above which the loops that size it do not end.
