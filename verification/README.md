# picoos-lwip, verified

Dafny models of the code that picoos-lwip adds to lwIP, with proofs about all
its inputs, runs and chips:

- the DHCP server: lease table, option codec, reply builder, message handlers
  (`DhcpOptions`, `DhcpMessage`, `DhcpLeases`, `DhcpProtocol`, `DhcpServer`,
  `DhcpRuns`);
- the CS8900A driver: from single GPIO lines over 16-bit words to packets
  (`Cs8900aBus`, `Cs8900aChip`, `Cs8900aTraffic`, `Cs8900aRefinement`,
  `Cs8900aDriver`);
- the tap driver's gather and scatter loops, and packet chains as such (`TapIf`,
  `PbufChain`);
- the time arithmetic of the lwIP port layer and the pairing of file slots with
  sockets (`SysArch`, `Sockets`).

`dafny verify dfyconfig.toml` checks everything.

## How it is built

**DHCP.** `DhcpServer.Server` has the source's static state (the lease array,
whose length is MAX_LEASES, and lwIP's static ARP entries) and patches reply
buffers in place. Its invariant says that table, ARP entries and the trace of
everything it did are those of `DhcpProtocol.Run` over the messages received
since the start; `DhcpRuns` has the theorems about such runs. A message carries
its payload and what `pbuf_alloc` gives for the reply: nothing, or a buffer of
any length with any contents. Who holds a lease is told twice, once by the steps
and once from the messages alone (`DhcpProtocol.Holders`), and the two agree.

**CS8900A.** The port is the set of its lines that are 1, so that IOSET and IOCLR
are union and difference. `Bus.wave` is every state the GPIO registers were ever
in: each of the four kinds of register write appends one, and no method takes one
away or changes one. The chip is an arbitrary function from the bus cycles it has
seen to the byte it drives; the log of those cycles is not kept apart but is
`Seen(wave)`, one cycle at each rising edge of a strobe. `Bus.Idle`, required and
ensured by every whole driver call after init, contains the discipline of the
waveform from the place on where the lines became outputs: strobes never low
together, IOR low only with the data port an input, IOW low only with it an
output, address and data lines and directions still while a strobe is low, all
other lines never changed. `Cs8900aDriver.Session` states this for init and any
sequence of calls after it. On top, `Cs8900aChip` reads the cycles as a register
page behind a pointer, a frame going out and a frame that has come in. Bytes and
words are integers in range; `|` and `&` of the source are `BitOr` and `BitAnd`,
or a sum where the operands are disjoint fields.

**Contracts for what is not in the repository.** `pbuf_alloc` gives a fresh chain
of pool buffers whose lengths sum to the request, or null;
`etharp_add_static_entry` is a map update; `udp_sendto_if` sends; `lwip_socket`
and `lwip_accept` answer -1 or a descriptor that was not open; `lwip_close` closes
an open descriptor or refuses and leaves it open; `uosFileAlloc` gives the first
free slot. A received frame is presented by the chip, status and length first with
the high byte of each in front, as long as nothing is written to the bus. `sizeof(struct dhcp_msg)` is 308, with
lwIP's 68 option bytes. The CS8900A is modelled as its 8-bit mode is used here.

## What the proofs show about the code

Where a property fails for some inputs, the exact condition is proved:

- Addresses are exclusive for clients with a non-zero MAC, over all runs, if and
  only if the table has at most 256 slots; with 1 to 256 slots two clients never
  share an address if and only if neither has an all-zero MAC, which matches a
  free slot and is handed the address the next new client gets.
- A pad option (code 0) is walked as if it had a length byte: on an area
  well-formed by RFC 2132 the walker stays inside it and reads what the standard
  means if and only if no pad precedes END. `53 1 3 0 END` makes it leave the area.
- The byte taken for the message type is the message type, for every content of a
  given sequence of options and pads, if and only if option 53 comes first. A
  DISCOVER with a one-letter host name in front of it is answered with a NAK.
- The two-byte pump sends every content of a chain, and receives every frame into
  one, if and only if only empty segments follow a segment of odd length.
- The 16-bit receive index ends if and only if a segment is shorter than 65535.
- The comment at sys_arch.c:95-98 says the waited time is never zero; that is so
  if and only if the timeout is not 0 and HZ is at most 1000. An untimed wait is
  always reported as 0.
- `sys_now`, and the report of a wait in which a tick passed, are right if and only
  if the ticks times 1000 have not wrapped.
- A call breaks the pairing of slots and sockets if and only if it is a
  `closesocket` on a slot in use that lwIP carries out, or a close of a slot in use
  that lwIP refuses: `sockClose` drops lwIP's answer and frees the slot. In the
  second case the socket stays open without a slot for good.

## Model

| member | source | states |
|---|---|---|
| `Bytes.StoreField` | netif/cs8900a_lpc_e2129.c:119-123 | clearing a field of the port and raising a value's lines makes the field read as that value and leaves every line outside it alone |
| `Bytes.BitOrLines` | netif/cs8900a_lpc_e2129.c:245 | C's `|` raises exactly the lines of either operand |
| `Bytes.BitAndLines` | netif/cs8900a_lpc_e2129.c:322 | C's `&` keeps exactly the lines of both operands |
| `Cs8900aBus.Bus.IoSet` | netif/cs8900a_lpc_e2129.c:58-64 | IOSET raises the 1 bits of its mask only; a rising IOW is a write cycle, a rising IOR a read cycle of the chip's byte; the waveform gains exactly the new state, and a lawful step keeps it disciplined |
| `Cs8900aBus.Bus.IoClr` | netif/cs8900a_lpc_e2129.c:58-64 | IOCLR lowers the 1 bits of its mask only and ends no cycle; the waveform gains exactly the new state |
| `Cs8900aBus.StrobeAllowed` | netif/cs8900a_lpc_e2129.c:125-128 | pulsing a strobe is lawful on both edges when the data port points the strobe's way, and restores the latch |
| `Cs8900aBus.HonestEdge` | netif/cs8900a_lpc_e2129.c:154-158 | every byte in the log that was read is what the chip gave at that moment |
| `Cs8900aBus.SeenIsHonest` | netif/cs8900a_lpc_e2129.c:154-158 | over any waveform the bytes read are those the chip gave at those moments |
| `Cs8900aBus.CyclesAreDriven` | netif/cs8900a_lpc_e2129.c:125-128 | every cycle the chip sees in a disciplined waveform was on the bus while its strobe (line 13 or 12) was low: the port on lines 4 to 7, and lines 16 to 23 turned the strobe's way and driving the byte if it is a write |
| `Cs8900aBus.Bus.StrobeWrite` | netif/cs8900a_lpc_e2129.c:125-128 | IOW goes low and high again with nothing else moving, for one write cycle of the byte and port on the lines |
| `Cs8900aBus.Bus.StrobeRead` | netif/cs8900a_lpc_e2129.c:154-158 | IOR goes low and high again with nothing else moving, and the byte sampled is the one the chip gave |
| `Cs8900aBus.Bus.Write` | netif/cs8900a_lpc_e2129.c:113-141 | for every even port and 16-bit value the chip sees exactly (addr, low byte) then (addr+1, high byte); both strobes end high, the waveform only grows, and all of it since init stays disciplined |
| `Cs8900aBus.Bus.Read` | netif/cs8900a_lpc_e2129.c:145-169 | the result is the word whose low byte the chip gave at addr and high byte at addr+1, in that order; the waveform grows and stays disciplined |
| `Cs8900aBus.Bus.ReadAddrHighFirst` | netif/cs8900a_lpc_e2129.c:173-197 | the same word with the high byte read first |
| `Cs8900aBus.Bus.WriteTxBuf` | netif/cs8900a_lpc_e2129.c:199-220 | two frame bytes go out as one write cycle on each half of the port |
| `Cs8900aBus.Bus.ReadRxBuf` | netif/cs8900a_lpc_e2129.c:222-239 | the two bytes stored are those the chip gave on the two halves of the port; the rest of the buffer is unchanged |
| `Cs8900aChip.AfterPoke` | netif/cs8900a_lpc_e2129.c:292-293 | a pointer write and a data write set one register of the chip's page, whatever state it was in |
| `Cs8900aChip.PokeRegister` | netif/cs8900a_lpc_e2129.c:299-300 | one register write changes that register and no other |
| `Cs8900aChip.PokesLeave` | netif/cs8900a_lpc_e2129.c:290-301 | a run of register writes leaves every other byte of the page alone |
| `Cs8900aChip.PokesStay` | netif/cs8900a_lpc_e2129.c:290-301 | ... and each of its values in place when no two overlap |
| `Cs8900aChip.AfterFrameOut` | netif/cs8900a_lpc_e2129.c:343-344 | bytes pumped through the frame port join the chip's frame in order |
| `Cs8900aChip.FrameOutAt` | netif/cs8900a_lpc_e2129.c:199-219 | byte i of the frame goes to the even half of the port for even i and to the odd half for odd i |
| `Cs8900aChip.HonestStream` | netif/cs8900a_lpc_e2129.c:366-400 | reads that take the halves of the frame port in turn get, byte by byte, the frame the chip holds, header first |
| `Cs8900aChip.RxCyclesAt` | netif/cs8900a_lpc_e2129.c:366-400 | the driver's reads of header and frame take the halves of the port in that order, odd half first in the header and even half first in the frame |
| `Cs8900aTraffic.StatusLines` | netif/cs8900a_lpc_e2129.c:286-366 | the three status tests by their bits: bit 8 of the bus status, bit 7 of the self status, bit 8, 10 or 11 of the receiver event |
| `Cs8900aDriver.SkipFrame` | netif/cs8900a_lpc_e2129.c:241-246 | a skip reads RxCFG and writes it back or-ed with SKIP_1, and nothing else |
| `Cs8900aDriver.LowLevelInit` | netif/cs8900a_lpc_e2129.c:251-302 | from any power-on state the bus ends idle and every station-address and InitSeq register, at the chip's own addresses, has its value on any chip that completes its reset; the wait ends at the first status with bit 7; the waveform since the lines became outputs is disciplined |
| `Cs8900aDriver.PowerUp` | netif/cs8900a_lpc_e2129.c:267-278 | the strobes are high in the latch before the lines become outputs: the three register states, exactly, that the waveform gains |
| `Cs8900aDriver.AwaitReset` | netif/cs8900a_lpc_e2129.c:286-287 | the wait ends at the first status word with INIT_DONE |
| `Cs8900aDriver.LowLevelOutput` | netif/cs8900a_lpc_e2129.c:307-354 | at most 9 status polls and 8 skips on every chip; ERR_OK exactly when the last status polled has bit 8, ERR_IF exactly when none of 9 has it, with no frame byte written; on ERR_OK the chip's frame buffer is the pumped chain, and on an aligned chain the frame sent is the chain's bytes |
| `Cs8900aDriver.AwaitSpace` | netif/cs8900a_lpc_e2129.c:320-334 | the retry loop's exact bus traffic, success and failure |
| `Cs8900aDriver.PumpOut` | netif/cs8900a_lpc_e2129.c:336-345 | the chain goes to the frame port segment by segment, each padded to even length |
| `Cs8900aDriver.LowLevelInput` | netif/cs8900a_lpc_e2129.c:359-417 | no event (bits 8, 10 and 11 clear): no buffer; the allocator is asked for exactly the length of the frame the chip holds; no memory: SKIP_1 is set and nothing else in the page changes; otherwise, on an aligned chain, the segments are that frame |
| `Cs8900aDriver.PumpIn` | netif/cs8900a_lpc_e2129.c:387-401 | every segment and slack byte holds what the chip delivered at its place |
| `Cs8900aDriver.IfInput` | netif/cs8900a_lpc_e2129.c:422-462 | a received buffer is with the stack or freed when the call returns, never both and never neither, however short the frame |
| `Cs8900aDriver.Session` | netif/cs8900a_lpc_e2129.c:251-462 | init and any sequence of driver calls after it, whatever the chip does, give one growing waveform that is disciplined from the lines becoming outputs on, with both strobes high between calls; the chip sees nothing but its cycles; the stack keeps at most one buffer of each call and the rest is freed |
| `Cs8900aRefinement.InitProgramsChip` | netif/cs8900a_lpc_e2129.c:76-83 | every station-address and InitSeq value is in its register after init, for every earlier state and every reset delay |
| `Cs8900aRefinement.InitSetsStationAddress` | netif/cs8900a_lpc_e2129.c:289-294 | the six bytes of the station address are at PP_IA in order |
| `Cs8900aRefinement.InitSetsUp` | netif/cs8900a_lpc_e2129.c:76-83 | the page after init at the chip's own addresses: 00 BD 03 04 05 07 at 0x0158, line control, hash filter and receiver control |
| `Cs8900aRefinement.ResetComesFirst` | netif/cs8900a_lpc_e2129.c:280-287 | the reset is written to 0x0114 first, then 0x0136 is read until it is over, then the settings are written |
| `Cs8900aRefinement.InitTraffic` | netif/cs8900a_lpc_e2129.c:280-301 | init reads no register but 0x0136, and writes the reset bit and nothing else to 0x0114 |
| `Cs8900aRefinement.SkipReadsRegister` | netif/cs8900a_lpc_e2129.c:244-245 | on a chip that answers for RxCFG, a skip reads that register's value |
| `Cs8900aRefinement.SkipSetsOnlySkip1` | netif/cs8900a_lpc_e2129.c:241-246 | a skip sets bit 6 of RxCFG and changes no other bit of the page |
| `Cs8900aRefinement.AfterTransmit` | netif/cs8900a_lpc_e2129.c:316-345 | however often the chip was busy, its frame buffer holds exactly what was pumped, its length register tot_len and its command register 0x00C0 |
| `Cs8900aRefinement.CommandComesFirst` | netif/cs8900a_lpc_e2129.c:316-317 | every transmission opens with command and length, low bytes first |
| `Cs8900aRefinement.FrameSent` | netif/cs8900a_lpc_e2129.c:307-354 | the frame sent is the chain's bytes exactly when they are a prefix of the pumped stream |
| `Cs8900aRefinement.TransmitRefines` | netif/cs8900a_lpc_e2129.c:307-354 | for a chain shape, every content is sent as itself if and only if the shape is aligned |
| `Cs8900aRefinement.BidTraffic` | netif/cs8900a_lpc_e2129.c:320-334 | register by register: every status word was read with the PacketPage register at 0x0138, every skip read and written with it at 0x0102, and no other register is touched |
| `Cs8900aRefinement.TransmitTraffic` | netif/cs8900a_lpc_e2129.c:316-345 | the same of a whole transmission, with one more poll than skips |
| `Cs8900aRefinement.ReceiveReads` | netif/cs8900a_lpc_e2129.c:366-400 | status and length read high byte first are those of the frame the chip holds, and the bytes read after them are its bytes |
| `Cs8900aRefinement.FrameReceived` | netif/cs8900a_lpc_e2129.c:359-417 | a chain of the length read holds the chip's frame exactly when its segments are a prefix of the stream |
| `Cs8900aRefinement.DropSkips` | netif/cs8900a_lpc_e2129.c:406-411 | a frame without memory is skipped: SKIP_1 is set in RxCFG, nothing else in it changes on a chip that answers for it, and the rest of the page is as it was |
| `Cs8900aRefinement.ReceiveTraffic` | netif/cs8900a_lpc_e2129.c:365-411 | the event is read at 0x0124, and only a dropped frame leads to a skip |
| `Cs8900aRefinement.ReceiveRefines` | netif/cs8900a_lpc_e2129.c:359-417 | for a chain shape, every frame of its length is received as itself, from every chip, if and only if the shape is aligned |
| `Cs8900aRefinement.ReceiveIndexEnds` | netif/cs8900a_lpc_e2129.c:363-400 | the 16-bit index passes the end of a segment if and only if the segment is shorter than 65535 bytes |
| `PbufChain.PumpPlaces` | netif/cs8900a_lpc_e2129.c:336-345 | byte i of segment k is at stream position i plus the even-rounded lengths before it |
| `PbufChain.CutUndoesPump` | netif/cs8900a_lpc_e2129.c:336-401 | pumping out and back in through the same segmentation restores the chain, aligned or not |
| `PbufChain.PumpSendsExactlyWhenAligned` | netif/cs8900a_lpc_e2129.c:336-345 | the pumped stream starts with the chain's bytes for every content if and only if only empty segments follow an odd one |
| `PbufChain.PumpReceivesExactlyWhenAligned` | netif/cs8900a_lpc_e2129.c:393-401 | the received segments concatenate to a prefix of the stream for every stream if and only if the same holds |
| `PbufChain.FlattenSplit` | netif/tapif.c:224-229 | scattering then gathering restores the bytes |
| `PbufChain.SplitFlatten` | netif/tapif.c:178-183 | gathering then scattering through the same lengths restores the segments |
| `PbufChain.Resegment` | netif/tapif.c:224-229 | scattering a gathered chain into any other segmentation of the same total keeps the bytes |
| `PbufChain.Dispatch` | netif/tapif.c:263-288 | the buffer goes to the stack exactly when its type is wanted and the stack accepts; otherwise it is freed |
| `PbufChain.WantedTypes` | netif/tapif.c:263-267 | wanted are exactly the types 08 00, 08 06 and 86 DD in header bytes 12 and 13 |
| `TapIf.LowLevelOutput` | netif/tapif.c:167-195 | the device is given exactly the concatenation of the segments; ERR_IF exactly when write fails |
| `TapIf.LowLevelInput` | netif/tapif.c:200-244 | the segments of the allocated chain concatenate to the packet read; nothing is allocated when nothing was read, when memory is short, or when a read error's 16-bit length of 65535 is refused |
| `TapIf.Scatter` | netif/tapif.c:224-229 | each segment gets its slice of the packet |
| `TapIf.IfInput` | netif/tapif.c:249-289 | a received buffer is accepted or freed, however short the packet; its own type field decides when the first segment holds it |
| `TapIf.DriversAgree` | netif/tapif.c:178-185 | on an aligned chain the CS8900A's frame is the packet the tap device is given |
| `DhcpOptions.TimeRoundTrip` | apps/dhcps/dhcps.c:144-153 | the four time bytes read big-endian give back every 32-bit value |
| `DhcpOptions.TimeDigits` | apps/dhcps/dhcps.c:144-153 | dividing the successive remainders gives those same four bytes |
| `DhcpOptions.AddOptionTime` | apps/dhcps/dhcps.c:137-156 | writes code, 4 and the four time bytes at the cursor, nothing else, and advances by 6, for every code |
| `DhcpOptions.AddOptionIP` | apps/dhcps/dhcps.c:158-168 | writes code, 4 and the address at the cursor, nothing else, and advances by 6, for every code |
| `DhcpOptions.AddOptionByte` | apps/dhcps/dhcps.c:170-178 | writes code, 1 and the value at the cursor, nothing else, and advances by 3, for every code |
| `DhcpOptions.WrittenThenRead` | apps/dhcps/dhcps.c:115-178 | for any sequence of writer calls with codes other than 255 followed by END, the walker reads back exactly those records, in order, and stops at the END written |
| `DhcpOptions.NextOption` | apps/dhcps/dhcps.c:130-135 | each step of the walk advances by at least two bytes |
| `DhcpOptions.RequestedIsLast` | apps/dhcps/dhcps.c:271-286 | the requested address is the last four-byte option 50, or zero if there is none |
| `DhcpOptions.FindRequested` | apps/dhcps/dhcps.c:258-286 | the loop terminates and computes that address on every area the walk does not leave |
| `DhcpOptions.WalkIsRfcWalkExactlyWhenPadFree` | apps/dhcps/dhcps.c:130-135 | on every area well-formed by RFC 2132 the walker stays inside it and reads the records the standard means if and only if no pad precedes END |
| `DhcpOptions.PadHidesRequest` | apps/dhcps/dhcps.c:271-286 | an area with one pad on which the walker misses the requested address |
| `DhcpOptions.PadOverruns` | apps/dhcps/dhcps.c:130-135 | a well-formed area with one pad whose walk leaves it |
| `DhcpMessage.TypeReadRightExactlyWhenFirst` | apps/dhcps/dhcps.c:344 | for any sequence of options and pads, options[2] is the value of option 53, wherever that stands, for every content if and only if option 53 comes first |
| `DhcpMessage.BaseAt` | apps/dhcps/dhcps.c:180-211 | newResp byte by byte: request copied, op and cookie set, options cleared, for every request and buffer length |
| `DhcpMessage.ReplyMeans` | apps/dhcps/dhcps.c:198-234 | a reply is its request but for op, cookie, options and the named yiaddr, byte for byte in the places of RFC 2131; its options read back as written, end inside the area and are followed by zeros |
| `DhcpMessage.RepliesMean` | apps/dhcps/dhcps.c:228-325 | so are the three replies, with their options in full |
| `DhcpMessage.OfferSays` | apps/dhcps/dhcps.c:231-234 | an OFFER says 53 = 2, 1 = the interface's netmask, 54 = its address, in this order |
| `DhcpMessage.AckSays` | apps/dhcps/dhcps.c:293-299 | an ACK says 53 = 5, 58, 59 and 51 = 1800, 3000 and 3600 big-endian, 1 = netmask, 54 = address |
| `DhcpMessage.NakSays` | apps/dhcps/dhcps.c:323-325 | a NAK says 53 = 6 and 54 = address |
| `DhcpLeases.Start` | apps/dhcps/dhcps.c:366-376 | every slot free; the addresses count up by one, modulo 256, from ten above the server's |
| `DhcpLeases.AddressesCount` | apps/dhcps/dhcps.c:370-376 | slot addresses differ from the server's in the last octet only, slot 0 by ten and each further slot by one more, modulo 256 |
| `DhcpLeases.AllocateAddr` | apps/dhcps/dhcps.c:93-113 | find-or-allocate: the table admits the client behind the holders, or stays, and the answer is the client's own slot's address, the first free one for the all-zero MAC, or none |
| `DhcpLeases.AddressesDistinctExactlyUpTo256` | apps/dhcps/dhcps.c:370-376 | slots have addresses of their own if and only if there are at most 256 |
| `DhcpLeases.OwnAddressSparedExactlyUpTo246` | apps/dhcps/dhcps.c:370-376 | no slot has the server's address if and only if there are at most 246 |
| `DhcpLeases.DistinctIsFirstAppearance` | apps/dhcps/dhcps.c:95-112 | the order of the slots is the order of first appearance |
| `DhcpLeases.AdmitNext` | apps/dhcps/dhcps.c:95-112 | admitting one client after the other keeps the first n distinct |
| `DhcpLeases.HolderKeeps` | apps/dhcps/dhcps.c:95-102 | a holder resolves to its own slot's address whoever came later |
| `DhcpProtocol.HoldersNext` | apps/dhcps/dhcps.c:213-222 | one more message changes the first n distinct claimants as one admission does |
| `DhcpProtocol.RunHolders` | apps/dhcps/dhcps.c:93-113 | after any messages the holders are exactly the first n distinct non-zero clients of DISCOVER and REQUEST messages, in order, whatever was NAKed or lost for want of a buffer |
| `DhcpServer.FillReply` | apps/dhcps/dhcps.c:200-208 | the in-place copy, clear and patch computes the reply base for every request and buffer length |
| `DhcpServer.Put` | apps/dhcps/dhcps.c:231-234 | writer calls add up in the option area of the reply |
| `DhcpServer.WriteAck` | apps/dhcps/dhcps.c:293-299 | the six ACK options and END fit and are all that is written |
| `DhcpServer.Server.constructor` | apps/dhcps/dhcps.c:362-376 | a started server is at the empty run |
| `DhcpServer.Server.NewResp` | apps/dhcps/dhcps.c:180-211 | a reply buffer of sufficient size or none; one that is too small is freed |
| `DhcpServer.Server.HandleDiscover` | apps/dhcps/dhcps.c:213-250 | table and effects are those of the protocol step, the lease being taken before the buffer |
| `DhcpServer.Server.HandleRequest` | apps/dhcps/dhcps.c:252-335 | table, ARP entries and effects are those of the protocol step |
| `DhcpServer.Server.SendAck` | apps/dhcps/dhcps.c:290-307 | the ARP entry for the reply's address and MAC goes in before the reply goes out to that address |
| `DhcpServer.Server.Recv` | apps/dhcps/dhcps.c:337-360 | the in-place server refines the run of all messages since its start: table, ARP entries and everything it did |
| `DhcpServer.Server.LeasesAreFirstCome` | apps/dhcps/dhcps.c:93-113 | the array holds the first n distinct non-zero claimants in order, free slots last, each slot with its own address |
| `DhcpRuns.RunGrows` | apps/dhcps/dhcps.c:93-113 | leases are never released: earlier holders stay a prefix of later ones |
| `DhcpRuns.HolderResolves` | apps/dhcps/dhcps.c:95-102 | a holder resolves to its original address after any further messages |
| `DhcpRuns.OfferIsStable` | apps/dhcps/dhcps.c:213-335 | once offered a, a non-zero client is, after any messages of anyone, offered a again, ACKed when it names a and NAKed when it names anything else |
| `DhcpRuns.FullStaysFull` | apps/dhcps/dhcps.c:103-112 | once n clients lease, the holders never change |
| `DhcpRuns.FullIsForever` | apps/dhcps/dhcps.c:112-113 | ... and every other non-zero client is refused without a reply for good |
| `DhcpRuns.ZeroMacReservesNothing` | apps/dhcps/dhcps.c:96-100 | an all-zero client never changes the table |
| `DhcpRuns.GrantsAreLeases` | apps/dhcps/dhcps.c:213-335 | every address ever put in an OFFER or ACK for a non-zero client is that of the slot it holds |
| `DhcpRuns.Exclusive` | apps/dhcps/dhcps.c:213-335 | over any run, two addresses put in OFFERs or ACKs for non-zero clients are equal if and only if the clients are |
| `DhcpRuns.ExclusiveExactlyUpTo256` | apps/dhcps/dhcps.c:370-376 | that holds of all runs if and only if the table has at most 256 slots |
| `DhcpRuns.ZeroMacShares` | apps/dhcps/dhcps.c:96-100 | an all-zero client is offered the very address the next new client is |
| `DhcpRuns.ZeroMacSharesAtOnce` | apps/dhcps/dhcps.c:96-100 | two concrete first messages that show it |
| `DhcpRuns.ExclusiveExactlyForNonZero` | apps/dhcps/dhcps.c:96-100 | with 1 to 256 slots, two clients are over no run given the same address if and only if neither is the all-zero one |
| `DhcpRuns.NamedDiscoverIsNaked` | apps/dhcps/dhcps.c:344-352 | a DISCOVER with a host name in front of its type, which RFC 2132 allows, is taken for a REQUEST and answered with a NAK |
| `DhcpRuns.ArpIsAmongLeases` | apps/dhcps/dhcps.c:304-305 | every ARP entry added for a non-zero client is its lease |
| `DhcpRuns.ArpIsInjective` | apps/dhcps/dhcps.c:304-305 | no non-zero client has two entries |
| `DhcpRuns.ArpIsWhatWasAdded` | apps/dhcps/dhcps.c:304-305 | the static entries are exactly those added with the ACKs, the last one for an address standing |
| `DhcpRuns.AckIsUnicastAfterItsArpEntry` | apps/dhcps/dhcps.c:301-306 | over any run a message is sent to an address if and only if it is an ACK, to the address it names, and right after the ARP entry for that same address and MAC |
| `DhcpRuns.AnswerOnTheWire` | apps/dhcps/dhcps.c:213-335 | each answer is one message to the right place or none, with every field and option in full and the ARP entry for the request's chaddr |
| `DhcpRuns.AnsweredExactlyWhen` | apps/dhcps/dhcps.c:337-359 | an OFFER answers exactly a type 1, an ACK or NAK exactly a type 3, that has room for a reply and a lease or free slot; other types are dropped |
| `DhcpRuns.AckedExactlyWhenLeaseIsNamed` | apps/dhcps/dhcps.c:269-288 | on a pad-free area a REQUEST is ACKed if and only if the last four-byte option 50, read as RFC 2132 has it, is the sender's lease |
| `DhcpRuns.BuffersAreConserved` | apps/dhcps/dhcps.c:184-359 | over any run every request and reply buffer is freed exactly once and nothing is sent from a buffer not held |
| `SysArch.ReportedWait` | sys_arch.c:100-105 | a wait of t ticks, from any counter value over its wrap, is reported as the 32-bit computation of t; as min(1000 t / HZ, timeout) short of its product wrapping |
| `SysArch.TicksElapsed` | sys_arch.c:100 | the difference of the counters is the number of ticks passed, over the wrap |
| `SysArch.SemWait` | sys_arch.c:87-106 | the same, or 0xffffffff when the wait timed out |
| `SysArch.AlwaysAdvancesExactlyWhen` | sys_arch.c:95-105 | the reported time is at least 1 for every tick count if and only if the timeout is not 0 and HZ is at most 1000 |
| `SysArch.MinimumExactlyAtZeroTicks` | sys_arch.c:100-103 | the minimum applies exactly when no tick passed; otherwise the report is the elapsed time rounded down |
| `SysArch.MinimumIsHalfATick` | sys_arch.c:101-103 | the minimum is half a tick in whole milliseconds, and 1 where that is 0 |
| `SysArch.ReportRightExactlyUntilWrap` | sys_arch.c:100 | with a tick passed, the report before the cap is right if and only if 1000 times the ticks has not wrapped |
| `SysArch.OneWait` | sys_arch.c:100-105 | one report lies in 1..timeout and errs by less than a tick below and by the grace of a tickless wait above |
| `SysArch.WaitsAddUp` | sys_arch.c:147-168 | over any timed waits the reported time advances at least a millisecond each and stays within the summed error bounds of the real time |
| `SysArch.SysNowRightExactlyUntilWrap` | sys_arch.c:229-232 | sys_now is the elapsed time in milliseconds if and only if jiffies * 1000 has not wrapped |
| `Sockets.Table.Open` | sockets.c:92-134 | a free slot gets the new socket's descriptor and the socket is open, or neither changes, on every outcome; no other slot changes |
| `Sockets.Table.Fd` | sockets.c:82-90 | the descriptor of a slot is open and no other slot's |
| `Sockets.Table.Close` | sockets.c:136-144 | the slot is freed whatever lwIP answers, the descriptor is closed exactly when lwIP closed it, no other slot changes; the pairing is kept exactly then |
| `Sockets.Table.CloseSocket` | include/picoos-lwip.h:66 | the macro leaves the slot; the pairing is kept exactly when lwIP refused to close the socket |
| `Sockets.StepKeepsPairsExactlyWhen` | sockets.c:92-144 | a call keeps slots and sockets in one-to-one correspondence if and only if it is neither a macro call that closes the socket of a slot in use nor a close of a slot in use that lwIP refuses |
| `Sockets.RunKeepsPairs` | sockets.c:92-144 | over any run without those two the correspondence holds, socket and accept calls that fail included |
| `Sockets.RefusedCloseLeaksForGood` | sockets.c:141-142 | a socket whose close lwIP refused stays open without a slot, whatever is called afterwards |
| `Sockets.MacroSharesDescriptor` | include/picoos-lwip.h:66 | with it, a descriptor used again by lwIP ends up behind two slots |

## Left out

- `Cs8900aDriver.LowLevelInit`: the busy-wait for INIT_DONE ends because the chip is required to show it within some number of reads; the effect of the reset itself on the page is not modelled.
- `Cs8900aDriver.IfInput`: pool buffers of at least 14 bytes and segments shorter than 65535 are required of the allocator, as the source reads the type field and counts in 16 bits without checks.
- `Cs8900aDriver.LowLevelOutput`: a readable byte behind each segment of odd length is required, since the pump reads it; ETH_PAD_SIZE is 0.
- `DhcpServer.Server.Recv`: a message must reach options[2], and the option area of a REQUEST must end before the buffer does, since the source walks it unchecked.
- `DhcpOptions.FindRequested`: the same for areas without END.
- `TapIf.LowLevelInput`: after a read error other than EAGAIN the source asks for 65535 bytes; an allocator that grants them is excluded, as it would copy what lies behind the 1514-byte buffer. So is a gather of more than 1514 bytes.
- `Sockets.Table.Open`: a descriptor argument of accept only reaches lwIP, whose answer is a parameter.
- A restart of the server, which clears the leases but not the ARP entries.
- Lease expiry, RELEASE, DECLINE, INFORM, renewal by ciaddr and server-identifier matching, which the source does not have; a failing udp_new; the log lines, one of which reads a reply after it was freed.
- Interleaving of driver calls: the source takes no lock, so a call is one step.
- Timing: strobe delays, polling threads, the signal handling and device set-up of the tap driver.
- The mutex, semaphore, mailbox, thread and protection wrappers, sys_random, link statistics, SNMP and debug macros: calls passed on to libraries that are not part of this model.
- sockRead, sockWrite, sockFStat and the forwarding macros: pass-through.
- PPPoE Ethernet types, which are a build option.
