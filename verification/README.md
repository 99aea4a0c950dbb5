# STM32 Network Library: a verified model

The library gives an STM32 board sockets, network interfaces and small services on top of one or more drivers.
This project models seven of its parts in Dafny and proves what they promise, over whole runs where they keep state.

| files | part of the library |
|---|---|
| `Words`, `Options` | machine words of a little-endian 32-bit target, an optional value |
| `DhcpOptions`, `DhcpMessage`, `DhcpLeases`, `DhcpServer` | the DHCP server: option scanner, packet layout, lease table, decisions |
| `DhcpRuns`, `DhcpStops`, `DhcpBytes` | its whole runs, when they end, and the bytes received and sent |
| `AddressText`, `AddressForms`, `AddressCode` | the IPv4 printer and parser: grammar and values, the written forms, the loops |
| `EthernetTx` | the Ethernet transmit ring beside a DMA that finishes frames at any moment |
| `AllocPaths`, `AllocTree`, `AllocBranch`, `AllocWalk`, `AllocArena` | the tree of the debug allocator: path components, nodes, the walks down and up |
| `AllocRoutes`, `AllocMisled`, `AllocBooks`, `AllocExact`, `AllocDebug`, `AllocRuns` | the debug allocator: which names find their way in the tree, what happens to the others, the table and its counters, whole programs |
| `SocketThreads`, `SocketRuns`, `SocketAlone` | sockets created, used and closed by any number of interleaved threads |
| `SocketApi`, `SocketSessions`, `SocketCases` | the socket calls of one thread, with their locks and driver calls, one by one and in sequence, and case by case |
| `NetState` | the interface state machine, re-entered by driver and user callbacks |
| `NetList` | the linked list of interfaces, initialization and de-initialization |

`dafny verify dfyconfig.toml` checks the whole project.

How the parts are modelled:

- Code that changes fields, arrays or links in place is a class or a method over arrays, proved against a
  specification function; the results about runs are lemmas about those functions and class invariants.
- A failed `SDHCP_ASSERT` or `NET_ASSERT` and the endless loops of the debug allocator never return: the DHCP model
  ends the run in `Stuck`, the allocator's methods return false. Contracts say exactly when that happens.
- `malloc`, the UDP socket, drivers, callbacks and the DMA are inputs: whatever they answer is allowed. A driver or
  callback that reports events is a tree of calls; the DMA takes any number of steps before each step of a send; the
  thread scheduler is a free choice of the next thread.
- The history of the debug allocator's table is a ghost field; a running maximum is the largest total over it.

What the proofs found out about the code:

- `MAX_ADDRESS_INFO` is 2 while the table check is `<=`, so the third client is written one slot past the declared
  table. The model has the three slots that the header comment promises; `DhcpStops.TableOverflowsExactly` says which
  runs of the code stay inside its table, and only for those do the results about runs describe the code as it is.
- The assertions stop the server for three kinds of packets (`DhcpStops.StuckExact`): a DISCOVER with an empty client
  identifier while a slot is free, a REQUEST that names the server and has a ciaddr, and one whose reply cannot be
  sent or would go to the loopback address.
- A request without relay, ciaddr and broadcast flag is answered to its own yiaddr, not to the address just assigned
  (`DhcpStops.UnicastIgnoresGivenAddress`).
- A transmit descriptor that finishes between the scan and the ownership check of one send is never counted
  (`EthernetTx.RaceLosesACount`); such a count leaks a ring slot like a rejected send does.
- The allocator's tree compares names with `strncmp` over the new component's length only, against the rest of the
  stored name. Its counts are right if and only if the walk finds its way (`AllocDebug.Allocator.MallocThenFree`);
  beside one other file this depends on the two names (`AllocDebug.Allocator.OneFileFinds`), and without drive
  prefixes two families of names go wrong (`AllocRoutes.TwoFamilies`). The table and the counters do not suffer.
- The drive-letter rule of `getdirlen` counts three characters after a leading separator but skips four, so the
  component ends one character early (`AllocPaths.DriveCutsShort`); no other component ends before a separator
  (`AllocPaths.EndsAtSeparator`).
- `net_connect` reports success and marks the socket connected without calling the driver when the connection is
  lost and the low-level socket is there (`SocketApi.ConnectedWithoutAsking`); a low-level socket created only by its
  second try is left unconnected with the code of an internal error.
- `net_accept` over a lost connection gives out a connected socket with the low-level handle 0, without asking the driver
  (`SocketSessions.AcceptedFromNobody`).
- A socket bound to no device by `net_setsockopt` makes the next close, shutdown or name query go through a NULL
  interface (`SocketSessions.UnboundCloseFaults`); without that call none does (`SocketSessions.FaultsAfterUnbinding`).
- An interface whose link is lost at the moment of the disconnect ignores disconnect and stop
  (`NetState.LostLinkBlocksFlow`).
- `net_if_deinit` forces the state but leaves the interface in the list when the event was refused.
- `net_aton_r` gives 0 both for a failure and for 0.0.0.0.

## Model

| member | source | states |
|---|---|---|
| `DhcpRuns.OneAddressPerClient` | firmware/libs/stm32-network-lib/services/net_sdhcp.c:393-724 | over every sequence of packets, with the heap and the socket failing at will, two OFFER or ACK packets carry the same yiaddr if and only if they answer the same client id, and every yiaddr, read from the packet's own bytes, lies in the pool; for a table of three slots, which the code stays inside of as `DhcpStops.TableOverflowsExactly` says: with the two declared ones the third client is written past the table, and nothing is claimed from there on |
| `DhcpRuns.NoBlockLost` | firmware/libs/stm32-network-lib/services/net_sdhcp.c:526-549 | after every run the client-id blocks still allocated are exactly those of the lease entries, one each, and at most three; the third only in a table of three slots, for with the two declared ones its pointer is written past the table (`DhcpStops.TableOverflowsExactly`) |
| `DhcpRuns.NoAckBeforeOffer` | firmware/libs/stm32-network-lib/services/net_sdhcp.c:562-624 | an OFFER or ACK never carries an address the run has not offered to that client by then |
| `DhcpRuns.OfferComesFirst` | firmware/libs/stm32-network-lib/services/net_sdhcp.c:393-724 | the same from any orderly table: whoever is answered either held a lease at the start or was offered this address in the run |
| `DhcpRuns.RunKeeps` | firmware/libs/stm32-network-lib/services/net_sdhcp.c:393-724 | a run keeps the table orderly, never takes a lease back, and every answer given agrees with the final table |
| `DhcpRuns.HandleKeeps` | firmware/libs/stm32-network-lib/services/net_sdhcp.c:393-724 | the same for one packet |
| `DhcpRuns.DiscoverExact` | firmware/libs/stm32-network-lib/services/net_sdhcp.c:483-560 | when DISCOVER is answered, asserts or is dropped, in both directions; a known client gets its own address again, a new one the next pool address, and a free address always finds a free slot |
| `DhcpRuns.LastOffer` | firmware/libs/stm32-network-lib/services/net_sdhcp.c:486-518 | what a DISCOVER leaves as the last offer: the known client's address, the next one of the pool, or its last when all are taken |
| `DhcpRuns.ConfirmExact` | firmware/libs/stm32-network-lib/services/net_sdhcp.c:562-624 | every REQUEST: silence exactly when it neither names the server nor asks for an address; otherwise ACK with the client's own lease exactly when the client has one and, unless the server is named, asks for that address, else NAK; the assertion at line 581 fails exactly for an answer to an offer with a ciaddr, the one at line 617 never |
| `DhcpRuns.WritesPastDeclaredSize` | firmware/libs/stm32-network-lib/services/net_sdhcp.c:39-41 | a lease goes past the declared two slots if and only if a third, unknown client with a non-empty id gets its memory |
| `DhcpRuns.NewClientsServed` | firmware/libs/stm32-network-lib/services/net_sdhcp.c:225-240 | as many new clients as the table has slots left are all offered an address, in order |
| `DhcpRuns.ThreeClientsServed` | firmware/libs/stm32-network-lib/services/net_sdhcp.c:20-24 | the overflow of the declared table is reachable: three new clients are all sent an OFFER, which takes three entries, one more than declared |
| `DhcpStops.TableOverflowsExactly` | firmware/libs/stm32-network-lib/services/net_sdhcp.c:39-41 | a run goes past the declared table of two if and only if three pairwise different non-empty clients had a DISCOVER processed with memory for their ids |
| `DhcpStops.RunServes` | firmware/libs/stm32-network-lib/services/net_sdhcp.c:526-549 | after a run, stopped or not, a client has a lease exactly if it had one or asked with memory for its id, as long as the table has room |
| `DhcpStops.StuckExact` | firmware/libs/stm32-network-lib/services/net_sdhcp.c:483-713 | a packet stops the server in a failed assertion if and only if it is a DISCOVER with an empty id while a slot is free, a REQUEST that names the server and has a ciaddr, or its answer fails to be sent or is bound for the loopback address |
| `DhcpStops.ServerStopsExactly` | firmware/libs/stm32-network-lib/services/net_sdhcp.c:393-724 | a run handles every packet up to the first that meets this condition, and ends with that one |
| `DhcpStops.NamelessDiscoverStops` | firmware/libs/stm32-network-lib/services/net_sdhcp.c:520-549 | one such packet: the first DISCOVER without a client id ends every run that begins with it |
| `DhcpStops.DestinationNeverZero` | firmware/libs/stm32-network-lib/services/net_sdhcp.c:640-703 | the half of the assertion at line 703 that asks for a destination other than 0 never fails |
| `DhcpStops.UnicastIgnoresGivenAddress` | firmware/libs/stm32-network-lib/services/net_sdhcp.c:640-703 | without relay, ciaddr and broadcast flag, an OFFER or ACK goes to the yiaddr of the request, which is the address given out only if the two happen to agree |
| `DhcpStops.OfferIsHonoured` | firmware/libs/stm32-network-lib/services/net_sdhcp.c:483-624 | in every run: once an address was offered to a client, each later REQUEST of that client that names the server, without a ciaddr, is ACKed with that address, unless sending it stops the server |
| `DhcpLeases.NextFree` | firmware/libs/stm32-network-lib/services/net_sdhcp.c:486-518 | with leases in pool order the search yields the address after the last lease, and reports exhaustion exactly when all slots are used: the pigeonhole that makes sdhcp_addInfo accept |
| `DhcpLeases.FirstFree` | firmware/libs/stm32-network-lib/services/net_sdhcp.c:502-518 | smallest unused address of a range, or none only when every one is used |
| `DhcpLeases.IndexOfClient` | firmware/libs/stm32-network-lib/services/net_sdhcp.c:381-389 | first entry of that client id; an empty id matches nothing |
| `DhcpLeases.OneToOne` | firmware/libs/stm32-network-lib/services/net_sdhcp.c:225-240 | two leases have the same client id if and only if they have the same address |
| `DhcpLeases.PoolSize` | firmware/libs/stm32-network-lib/services/net_sdhcp.c:743-761 | the pool bounds built from the interface's address span three addresses, and the one after them still fits a word |
| `DhcpLeases.LeaseInPool` | firmware/libs/stm32-network-lib/services/net_sdhcp.c:486-560 | every leased address is a pool address and never the broadcast word |
| `DhcpOptions.FindOption` | firmware/libs/stm32-network-lib/services/net_sdhcp.c:302-348 | the cursor loop terminates and returns what the recursive scan returns on every byte string, for the whole memory and for its first `len` bytes alone |
| `DhcpOptions.FindInside` | firmware/libs/stm32-network-lib/services/net_sdhcp.c:302-348 | what lies behind the message makes no difference to the scan |
| `DhcpOptions.FindListed` | firmware/libs/stm32-network-lib/services/net_sdhcp.c:302-348 | on any encoded list of pads and options, closed by END or the end of the message, the scan gives exactly the data of the first option with that code |
| `DhcpOptions.FindCutOff` | firmware/libs/stm32-network-lib/services/net_sdhcp.c:302-348 | a list cut off by the end of the message: a code alone is ignored, an option whose data runs past the end is found with the length it claims |
| `DhcpOptions.FoundAfterHeader` | firmware/libs/stm32-network-lib/services/net_sdhcp.c:326-339 | data found is preceded by its code and length bytes and starts no earlier than two bytes after the start of the scan |
| `DhcpMessage.ReplyReadsBack` | firmware/libs/stm32-network-lib/services/net_sdhcp.c:456-477 | every reply reads back, option by option, with the server's own scanner; a NAK has no lease time and no mask, because their bytes are pads |
| `DhcpMessage.ReplyAddress` | firmware/libs/stm32-network-lib/services/net_sdhcp.c:533-619 | yiaddr, ciaddr and giaddr of a reply read back from its bytes |
| `DhcpServer.BuildReply` | firmware/libs/stm32-network-lib/services/net_sdhcp.c:445-477 | the buffer filled in place has the whole layout of the reply: header, cookie and options, zero elsewhere |
| `DhcpServer.SwapIp` | firmware/libs/stm32-network-lib/services/net_sdhcp.c:192-203 | the byte-by-byte loop reverses the bytes of a word |
| `DhcpServer.DecodeRequest` | firmware/libs/stm32-network-lib/services/net_sdhcp.c:393-444 | the checks and option look-ups that come before the table is consulted give the request that `DhcpBytes.DecodesExactly` reads off the bytes, or drop the packet |
| `DhcpBytes.DecodesExactly` | firmware/libs/stm32-network-lib/services/net_sdhcp.c:393-424 | a packet laid out field by field, with any list of options, is dropped exactly for a wrong operation or cookie, a missing or bad type, or the server's own name; any other is understood with just its own addresses, ids and flags, and with the first option of each kind |
| `DhcpBytes.ShortDropped` | firmware/libs/stm32-network-lib/services/net_sdhcp.c:393-398 | so is a packet too short for header and cookie |
| `DhcpBytes.RenewalConfirmed` | firmware/libs/stm32-network-lib/services/net_sdhcp.c:562-624 | a client that holds an address and sends a REQUEST with that address in the packet's ciaddr, no server named, gets an ACK with it, sent to it, unless sending fails an assertion |
| `DhcpBytes.NewClientOffered` | firmware/libs/stm32-network-lib/services/net_sdhcp.c:483-560 | a new client's DISCOVER is answered with an OFFER of the interface's address with 15, 16 or 17 as last byte, in order |
| `DhcpBytes.ReplyEchoes` | firmware/libs/stm32-network-lib/services/net_sdhcp.c:445-477 | each reply sent repeats its packet's hardware type, length, xid, giaddr and chaddr, and its flags with the broadcast bit set for a relay; ciaddr is the address confirmed in an ACK and 0 otherwise, yiaddr 0 in a NAK, the rest of the header zero but for the server's name |
| `DhcpBytes.RepliesGoTo` | firmware/libs/stm32-network-lib/services/net_sdhcp.c:640-713 | where a reply goes: to the relay, else a NAK to everybody, else to ciaddr, else as flag and yiaddr say |
| `DhcpBytes.ReplyOptions` | firmware/libs/stm32-network-lib/services/net_sdhcp.c:456-477 | the options of a reply byte by byte |
| `DhcpServer.Server.ProcessRequest` | firmware/libs/stm32-network-lib/services/net_sdhcp.c:393-724 | one packet changes the server and produces the outcome that the specification function names, and a reply that goes out has its layout in the buffer |
| `DhcpServer.Server.HandleDiscover` | firmware/libs/stm32-network-lib/services/net_sdhcp.c:483-560 | DISCOVER on the object's fields equals the specification |
| `DhcpServer.Server.HandleRequest` | firmware/libs/stm32-network-lib/services/net_sdhcp.c:562-636 | REQUEST on the object's fields equals the specification and changes nothing |
| `DhcpServer.Server.SearchAddress` | firmware/libs/stm32-network-lib/services/net_sdhcp.c:502-518 | the wrap-around search terminates and finds the smallest unused address, or none exactly when all are used; its assertion at line 509 holds |
| `DhcpServer.Server.FindIndex` | firmware/libs/stm32-network-lib/services/net_sdhcp.c:206-221 | first entry that passes the filter, or -1 when none does |
| `DhcpServer.Server.AddInfo` | firmware/libs/stm32-network-lib/services/net_sdhcp.c:225-240 | appends one entry unless more than MAX_ADDRESS_INFO are held |
| `DhcpServer.Server.Offer` | firmware/libs/stm32-network-lib/services/net_sdhcp.c:526-549 | the copy of the client id is kept by exactly one new lease or freed exactly once |
| `AddressText.ParserDecidesGrammar` | firmware/libs/stm32-network-lib/core/net_address.c:110-265 | the parser yields an address if and only if the text is one to four dotted numerals of the grammar with an ignored tail, and then exactly their value |
| `AddressText.PrintThenParse` | firmware/libs/stm32-network-lib/core/net_address.c:42-86 | parsing the printed text of any address gives the address |
| `AddressText.NumberComplete` | firmware/libs/stm32-network-lib/core/net_address.c:141-179 | a numeral in decimal, octal (digits 8 and 9 included) or hex is read as its positional value modulo 2^32 |
| `AddressText.TwoPartValue` | firmware/libs/stm32-network-lib/core/net_address.c:226-232 | form a.b: only the low byte of a counts, b is checked against 24 bits |
| `AddressText.ThreePartValue` | firmware/libs/stm32-network-lib/core/net_address.c:234-241 | form a.b.c: only c is checked; the second byte of b is ORed into a |
| `AddressText.FourPartValue` | firmware/libs/stm32-network-lib/core/net_address.c:243-250 | form a.b.c.d with parts of any size: only d is checked, and each byte is the OR of all parts that reach it |
| `AddressText.DottedQuadValue` | firmware/libs/stm32-network-lib/core/net_address.c:243-250 | four byte-sized parts give the usual address |
| `AddressForms.WholeDecimal` | firmware/libs/stm32-network-lib/core/net_address.c:221-222 | form a: a decimal number alone is the address with that value, modulo 2^32 |
| `AddressForms.WholeOctal` | firmware/libs/stm32-network-lib/core/net_address.c:150-163 | so is an octal one behind a 0 |
| `AddressForms.WholeHex` | firmware/libs/stm32-network-lib/core/net_address.c:150-179 | and a hex one behind 0x or 0X, in either case of its letters; without a digit it is 0 |
| `AddressForms.NineInOctal` | firmware/libs/stm32-network-lib/core/net_address.c:165-171 | the digits 8 and 9 count in octal numbers |
| `AddressForms.TailExactly` | firmware/libs/stm32-network-lib/core/net_address.c:209-213 | a character that cannot go on ends the address exactly if it is one of the six white-space characters, and makes it invalid otherwise |
| `AddressForms.PrintedBytes` | firmware/libs/stm32-network-lib/core/net_address.c:42-86 | the printed text is the decimal text of the four bytes, first in memory first, with dots between |
| `AddressText.DecimalTextValue` | firmware/libs/stm32-network-lib/core/net_address.c:50-70 | the printed digits of a number denote it and have no leading zero |
| `AddressText.RenderFits` | firmware/libs/stm32-network-lib/core/net_address.c:42-86 | the text of an address has 7 to 15 characters, so 16 bytes hold it with its NUL |
| `AddressCode.NetAton` | firmware/libs/stm32-network-lib/core/net_address.c:110-265 | on any NUL-terminated text the two-level loop stops at the NUL, returns 1 exactly when the grammar accepts, and writes the address in network order, or leaves the output alone |
| `AddressCode.NetAtonR` | firmware/libs/stm32-network-lib/core/net_address.c:273-284 | the address as a signed word, equal to it modulo 2^32; 0 means failure or the zero address, which cannot be told apart |
| `AddressCode.NetNtoaR` | firmware/libs/stm32-network-lib/core/net_address.c:42-86 | writes the clipped text and never past the given length; succeeds, with a NUL, exactly when text and NUL fit; the rest of the buffer stays |
| `AddressCode.ReverseDigits` | firmware/libs/stm32-network-lib/core/net_address.c:52-60 | the scratch array holds the decimal digits in reverse |
| `AddressCode.PrintParseRoundTrip` | firmware/libs/stm32-network-lib/core/net_address.c:42-86 | printing into a 16-byte buffer and parsing that buffer restores the address |
| `EthernetTx.SendAll` | firmware/libs/stm32-network-lib/templates/net_conf_ethernet_template.c:526-645 | over any sequence of sends and any DMA progress at any point of each: writes = counted + pending + rejected + lost, and while descriptors, rejected sends and lost counts leave one of the ten slots free, buffers are released once each, in write order, and never while the DMA owns their descriptor |
| `EthernetTx.TxRing.Output` | firmware/libs/stm32-network-lib/templates/net_conf_ethernet_template.c:594-645 | one send: what was counted before is released in order and its slots emptied; the frame, the one buffer itself or a copy with every segment's bytes behind those of the segments before, is put in the next slot and then handed over or rejected, exactly when all descriptors are owned; when a count is lost; and when that slot was still in use, which is when ten writes were not counted |
| `EthernetTx.CopyChain` | firmware/libs/stm32-network-lib/templates/net_conf_ethernet_template.c:622-635 | the copy loop fills one new buffer with the segments' bytes |
| `EthernetTx.FrameInOrder` | firmware/libs/stm32-network-lib/templates/net_conf_ethernet_template.c:609-640 | each segment's bytes lie behind the summed lengths of the segments before it, and nothing else is sent |
| `EthernetTx.TxRing.LowOutput` | firmware/libs/stm32-network-lib/templates/net_conf_ethernet_template.c:526-549 | the scan counts every descriptor finished before it, the ownership check decides the frame |
| `EthernetTx.TxRing.Scan` | firmware/libs/stm32-network-lib/templates/net_conf_ethernet_template.c:534-541 | counts finished descriptors, at least all that were finished when it began |
| `EthernetTx.TxRing.CheckAndTransmit` | firmware/libs/stm32-network-lib/templates/net_conf_ethernet_template.c:543-558 | hand-over or rejection, and the DMA state after it |
| `EthernetTx.TxRing.ReleaseReturned` | firmware/libs/stm32-network-lib/templates/net_conf_ethernet_template.c:601-607 | releases exactly the counted buffers, in order, and empties exactly their slots |
| `EthernetTx.TxRing.Record` | firmware/libs/stm32-network-lib/templates/net_conf_ethernet_template.c:617-636 | the frame takes the next slot whatever it holds; until a slot in use is overwritten for the first time, it is in use exactly when ten writes are not counted, and then the write lost is the one ten before |
| `EthernetTx.NextSlotUsed` | firmware/libs/stm32-network-lib/templates/net_conf_ethernet_template.c:617-620 | the same over the slots alone: the next slot is in use exactly when ten writes are not released, and holds the first of them |
| `EthernetTx.TxRing.ReleasedAreFinished` | firmware/libs/stm32-network-lib/templates/net_conf_ethernet_template.c:534-541 | no more buffers are released than counted, counted and lost ones together are no more than the frames on the wire, and no accepted frame still in flight has its buffer released; a rejected frame's buffer may be released without having been on the wire |
| `EthernetTx.TxRing.ReleasedInOrder` | firmware/libs/stm32-network-lib/templates/net_conf_ethernet_template.c:601-607 | the released buffers are the first ones written |
| `EthernetTx.TxRing.Conserved` | firmware/libs/stm32-network-lib/templates/net_conf_ethernet_template.c:526-645 | every write is counted, pending, rejected or its count was lost |
| `EthernetTx.RaceLosesACount` | firmware/libs/stm32-network-lib/templates/net_conf_ethernet_template.c:534-549 | a run in which a frame finished between the scan and the ownership check is never counted, so that the sum without lost counts is short by one |
| `EthernetTx.StalledRingOverwrites` | firmware/libs/stm32-network-lib/templates/net_conf_ethernet_template.c:617-620 | a run in which, after eleven different frames to a stalled ring, the first is neither released nor in any slot |
| `AllocDebug.Allocator.Malloc` | firmware/libs/stm32-network-lib/core/net_os.c:579-672 | for any file name: hangs exactly without memory, a free entry, room for the new tree nodes, or at the break; otherwise one block enters the lowest free entry, the nodes are those after the walk, and the counters still agree with the table and the maxima of its history; every tree node does too if the walk finds its way |
| `AllocDebug.BlockRecorded` | firmware/libs/stm32-network-lib/core/net_os.c:630-650 | the lowest free entry gets the block's address and size, file, line, the call's number in 16 bits and the leaf of its walk; all other entries stay |
| `AllocDebug.HoldsWithin` | firmware/libs/stm32-network-lib/core/net_os.c:630-672 | the limits in numbers: 300 blocks, fewer than 50 nodes, the break at 2^32 - 1 |
| `AllocDebug.Allocator.Free` | firmware/libs/stm32-network-lib/core/net_os.c:675-753 | hangs exactly for an address the table does not hold or overwritten end bytes; otherwise the entry is emptied, its size is taken off its node and that node's parents, and all counters still agree, and so does a tree that did; NULL does nothing |
| `AllocDebug.BlockForgotten` | firmware/libs/stm32-network-lib/core/net_os.c:697-739 | the entry of the address loses address and size; all other entries stay |
| `AllocDebug.Allocator.Realloc` | firmware/libs/stm32-network-lib/core/net_os.c:297-340 | new block, then old one freed, in all four cases of NULL and size 0, with the state in between, both blocks live, part of the history; when it hangs, including the address that was not live and is handed out again |
| `AllocRuns.RunProgram` | firmware/libs/stm32-network-lib/core/net_os.c:297-753 | any sequence of malloc, realloc and free with any file names: each call does its step on nodes, root, table and history, one after the other, and the program hangs exactly at the first call whose guard fails in the state it finds; the history grows by entering and emptying single blocks, AllocCurrent and the number of live blocks are the sums over the table, AllocTotalMax and max_alive_alloc the maxima over its whole history, and a tree in agreement stays so for names that do not clash |
| `AllocRuns.Do` | firmware/libs/stm32-network-lib/core/net_os.c:297-753 | one call comes back if and only if its guard holds: for malloc memory, a free entry, room for the nodes and not the break; for free NULL or a live, intact block; for realloc both, where the address just handed out counts as live |
| `AllocDebug.Allocator.MallocThenFree` | firmware/libs/stm32-network-lib/core/net_os.c:579-753 | from a tree in agreement, a malloc of at least one byte and the free of its block: every directory shows its live bytes both while the block is live and afterwards if and only if the walk for the file finds its way |
| `AllocDebug.Allocator.OneFileFinds` | firmware/libs/stm32-network-lib/core/net_os.c:430-486 | while all blocks ever allocated came from one file, and one of them is live, the walk for another file finds its way if and only if the two names do not clash |
| `AllocDebug.Allocator.FindsWhenOrderly` | firmware/libs/stm32-network-lib/core/net_os.c:430-486 | names that do not clash with each other or with those used before all find their way |
| `AllocExact.FindsExactly` | firmware/libs/stm32-network-lib/core/net_os.c:430-497 | the exact condition over nodes and tables: charging and crediting leave all counts right if and only if the walk finds its way |
| `AllocExact.MisledCounts` | firmware/libs/stm32-network-lib/core/net_os.c:430-497 | otherwise a directory off the way counts the size too much while the block is live, or one on the way counts it too much even after the free |
| `AllocDebug.Allocator.Report` | firmware/libs/stm32-network-lib/core/net_os.c:756-785 | the recount of the table gives the counters: blocks = iteralloc - iterfree, bytes = AllocCurrent |
| `AllocDebug.Allocator.CountersTell` | firmware/libs/stm32-network-lib/core/net_os.c:579-753 | in every state between calls, whatever the file names, AllocCurrent, AllocTotalMax, iteralloc - iterfree and max_alive_alloc are the live bytes, their maximum so far, the live blocks and their maximum so far; in a tree in agreement every node shows the live bytes under its directory and their maximum so far |
| `AllocDebug.Allocator.EveryDirectoryHasNode` | firmware/libs/stm32-network-lib/core/net_os.c:430-486 | in a tree in agreement every directory of every live block's file has a node, and the block's entry points to that of the whole name |
| `AllocDebug.Allocator.NothingLeft` | firmware/libs/stm32-network-lib/core/net_os.c:579-753 | when as many blocks were freed as allocated, the summary shows no leak, and in a tree in agreement no directory does |
| `AllocDebug.Allocator.Enter` | firmware/libs/stm32-network-lib/core/net_os.c:640-650 | the entry is filled and the nodes on the walk charged, so that table and counters agree again, and the tree if the walk finds its way |
| `AllocDebug.Allocator.ClearEntry` | firmware/libs/stm32-network-lib/core/net_os.c:697-737 | the entry is emptied and its size taken off its node and that node's parents, so that a tree in agreement stays so |
| `AllocBooks.ChargeBooks` | firmware/libs/stm32-network-lib/core/net_os.c:430-486 | after the charging walk each node again shows the live bytes under its directory and their running maximum |
| `AllocBooks.CreditBooks` | firmware/libs/stm32-network-lib/core/net_os.c:488-497 | the same after the crediting walk |
| `AllocBooks.UnseenKept` | firmware/libs/stm32-network-lib/core/net_os.c:463-473 | a directory without a node never held a live byte, so that a new node may start from the new block alone |
| `AllocBooks.FullTable` | firmware/libs/stm32-network-lib/core/net_os.c:630-659 | the block count reaches the table size exactly when no entry is free |
| `AllocArena.Arena.Walk` | firmware/libs/stm32-network-lib/core/net_os.c:430-486 | on any arena a program can reach and any name: charges the first strncmp match of every component and creates nodes from the first component without one, as the walk function says, and always ends; hangs exactly when the arena lacks room |
| `AllocWalk.WalkRouted` | firmware/libs/stm32-network-lib/core/net_os.c:430-486 | a walk that finds its way charges exactly the directories of the name, creates exactly the missing ones, returns the node of the whole name, and leaves a well-formed tree |
| `AllocWalk.WalkLoose` | firmware/libs/stm32-network-lib/core/net_os.c:430-486 | every walk keeps the links in order, so that later walks down and up end |
| `AllocMisled.Misled` | firmware/libs/stm32-network-lib/core/net_os.c:430-486 | a walk that does not find its way charges a directory off the way, or leaves its leaf cut off from all older nodes though a directory on the way was charged |
| `AllocArena.Arena.NewBranch` | firmware/libs/stm32-network-lib/core/net_os.c:376-403 | one node per component, linked down and up; hangs exactly when the arena is full |
| `AllocArena.Arena.Attach` | firmware/libs/stm32-network-lib/core/net_os.c:468-473 | the branch becomes the second child, beside the first |
| `AllocArena.Arena.Credit` | firmware/libs/stm32-network-lib/core/net_os.c:488-497 | takes the size off exactly the leaf and its parents |
| `AllocWalk.TakenOffIsCredited` | firmware/libs/stm32-network-lib/core/net_os.c:488-497 | in a well-formed tree these are exactly the directories of the leaf's name |
| `AllocArena.Arena.FindTop` | firmware/libs/stm32-network-lib/core/net_os.c:641-649 | the way up from a leaf ends, at the one of the leaf and its parents that has no parent |
| `AllocBranch.BranchPlan` | firmware/libs/stm32-network-lib/core/net_os.c:376-403 | the attached branch is again a well-formed tree, and completes the walk |
| `AllocTree.BranchWalked` | firmware/libs/stm32-network-lib/core/net_os.c:376-403 | a new branch changes no count of an old node, and its last node stands for the whole name |
| `AllocTree.LeafKeeps` | firmware/libs/stm32-network-lib/core/net_os.c:466-473 | adding a node keeps links, parents, child chains and the one-node-per-directory rule |
| `AllocTree.AncestorExists` | firmware/libs/stm32-network-lib/core/net_os.c:430-486 | every leading part of a node's directory has a node |
| `AllocArena.CreditStep` | firmware/libs/stm32-network-lib/core/net_os.c:488-497 | one round of the walk up takes the size off one node, once, and leaves the node's parents to come |
| `AllocRoutes.OrderlyRoutes` | firmware/libs/stm32-network-lib/core/net_os.c:436-440 | for files no two of which clash, the first strncmp match is always the right directory, so every walk finds its way |
| `AllocRoutes.RoutesInTreeOf` | firmware/libs/stm32-network-lib/core/net_os.c:436-440 | in the tree of one file, the walk for another finds its way if and only if the two names do not clash |
| `AllocRoutes.FirstTreeRoutes` | firmware/libs/stm32-network-lib/core/net_os.c:430-486 | the same for the tree left by the first allocation: the condition is on the two names alone |
| `AllocRoutes.AstraySomewhere` | firmware/libs/stm32-network-lib/core/net_os.c:430-486 | a walk that does not find its way comes to a directory of its own where the match is not on its way, or where no child is left to attach a branch to |
| `AllocRoutes.AstrayNowhere` | firmware/libs/stm32-network-lib/core/net_os.c:430-486 | a walk that finds its way comes to no such directory |
| `AllocRoutes.SiblingPrefixClashes` | firmware/libs/stm32-network-lib/core/net_os.c:438 | a directory whose name begins that of a sibling is taken for it, wherever in the tree the two lie and whatever follows |
| `AllocRoutes.FileAsDirectoryClashes` | firmware/libs/stm32-network-lib/core/net_os.c:449-450 | a directory with the name of a file already in the tree hangs off nothing, wherever the file lies |
| `AllocRoutes.TwoFamilies` | firmware/libs/stm32-network-lib/core/net_os.c:430-486 | for names without a drive prefix there are no other clashes than these two |
| `AllocPaths.GetDirLen` | firmware/libs/stm32-network-lib/core/net_os.c:345-373 | the scan for the first component, drive prefix and its length quirk included |
| `AllocPaths.SplitJoins` | firmware/libs/stm32-network-lib/core/net_os.c:345-373 | the components of a name put together give the name, and none is empty |
| `AllocPaths.SplitAppend` | firmware/libs/stm32-network-lib/core/net_os.c:345-373 | a name is taken apart at any separator, unless that completes a drive prefix |
| `AllocPaths.DriveCutsShort` | firmware/libs/stm32-network-lib/core/net_os.c:354-361 | behind a leading separator the drive prefix makes the first component end one character early |
| `AllocPaths.DriveOpensPart` | firmware/libs/stm32-network-lib/core/net_os.c:360-371 | without a leading separator the drive belongs to the first component, with the whole name behind it |
| `AllocPaths.DriveExample` | firmware/libs/stm32-network-lib/core/net_os.c:345-373 | for example `C:\work\main.c` has two components |
| `AllocPaths.EndsAtSeparator` | firmware/libs/stm32-network-lib/core/net_os.c:345-373 | the first component ends at a separator or with the name, except exactly for names with a separator, a drive, and at least one more character that is no separator |
| `SocketRuns.HandlesStayDistinct` | firmware/libs/stm32-network-lib/core/net_socket.c:179-195 | in every reachable state of any number of interleaved threads, no handle is held twice, and a held socket is alive with the domain, type and protocol asked for, protocol 0 at most replaced by the default of the type |
| `SocketRuns.FreshHandle` | firmware/libs/stm32-network-lib/core/net_socket.c:179-195 | net_socket returns a handle no thread holds, with the values in place |
| `SocketRuns.NoSocketLost` | firmware/libs/stm32-network-lib/core/net_socket.c:757-808 | between calls the slots in use are exactly the handles held |
| `SocketRuns.DriverRunsUnlocked` | firmware/libs/stm32-network-lib/core/net_socket.c:757-808 | a thread whose driver works owns no lock: not the table's, not the interface list's, no socket's |
| `SocketRuns.SomeoneGoes` | firmware/libs/stm32-network-lib/core/net_socket.c:120-152 | no deadlock: while a thread is inside a call, some thread can take a step |
| `SocketRuns.StuckMeansQuiet` | firmware/libs/stm32-network-lib/core/net_socket.c:120-152 | no step is possible if and only if every call has ended |
| `SocketRuns.SchedulesEnd` | firmware/libs/stm32-network-lib/core/net_socket.c:120-152 | without new calls every schedule is bounded by the work left |
| `SocketRuns.EveryCallCanFinish` | firmware/libs/stm32-network-lib/core/net_socket.c:757-808 | from every reachable state all calls in progress can be completed |
| `SocketRuns.LockOwnerGoes` | firmware/libs/stm32-network-lib/core/net_socket.c:204-245 | the owner of a socket's lock can go on, or the owner of the interface list can: it waits for nothing else |
| `SocketRuns.ArrayOwnerGoes` | firmware/libs/stm32-network-lib/core/net_socket.c:120-152 | the owner of the table's lock can go on, or the owner of the list or of a socket's lock can |
| `SocketThreads.StepKeeps` | firmware/libs/stm32-network-lib/core/net_socket.c:120-152 | every step of every thread keeps the invariant: lock owners match where the threads are, claims are disjoint, every slot in use is claimed |
| `SocketThreads.EnterKeeps` | firmware/libs/stm32-network-lib/core/net_socket.c:54-66 | so does the start of a call; is_valid_socket holds for every held handle |
| `SocketThreads.ActSoundLocks` | firmware/libs/stm32-network-lib/core/net_socket.c:757-808 | each step moves the socket locks as the place in the code says |
| `SocketThreads.OtherOk` | firmware/libs/stm32-network-lib/core/net_socket.c:120-152 | what one thread writes, no other thread notices |
| `SocketAlone.AloneAsSpecified` | firmware/libs/stm32-network-lib/core/net_socket.c:116-808 | net_socket, net_bind, net_sendto and net_closesocket made step by step in the interleaved model, with nobody in the way, leave the table as the specification of the call says, and the driver works exactly when the specification asks it |
| `SocketAlone.SocketSteps` | firmware/libs/stm32-network-lib/core/net_socket.c:116-195 | a whole net_socket in the interleaved model |
| `SocketAlone.BindSteps` | firmware/libs/stm32-network-lib/core/net_socket.c:204-245 | a whole net_bind |
| `SocketAlone.SendSteps` | firmware/libs/stm32-network-lib/core/net_socket.c:591-640 | a whole net_sendto |
| `SocketAlone.CloseSteps` | firmware/libs/stm32-network-lib/core/net_socket.c:757-808 | a whole net_closesocket |
| `SocketSessions.Session` | firmware/libs/stm32-network-lib/core/net_socket.c:179-1289 | any sequence of calls from one thread leaves table, driver calls and the number of calls served as the specification of the calls says, up to the first call that faults; if none does, no lock is held |
| `SocketSessions.Serve` | firmware/libs/stm32-network-lib/core/net_socket.c:179-1289 | the same for one call, and no lock is held after a call that comes back |
| `SocketSessions.StopsExactly` | firmware/libs/stm32-network-lib/core/net_socket.c:179-1289 | a sequence is served up to the first call that meets the guard of a NULL dereference in the state it finds, and to the end if none does |
| `SocketSessions.FaultsAfterUnbinding` | firmware/libs/stm32-network-lib/core/net_socket.c:179-1289 | with a default interface and every socket bound to one, a call faults only after a socket was bound to no device; until then all sockets stay bound |
| `SocketSessions.UnboundCloseFaults` | firmware/libs/stm32-network-lib/core/net_socket.c:924-960 | such a run: net_socket, net_bind, net_setsockopt to no device, and then net_closesocket goes through a NULL interface |
| `SocketSessions.LostSessionAsks` | firmware/libs/stm32-network-lib/core/net_socket.c:1235-1289 | while the connection is lost throughout a sequence, the driver is asked only for shutdown, close, the two name queries and socket options |
| `SocketSessions.AcceptedFromNobody` | firmware/libs/stm32-network-lib/core/net_socket.c:255-303 | net_accept gives out a new connected socket without asking the driver if and only if the connection is lost or there is no interface; its low-level handle is then 0 |
| `SocketCases.ReachesDriver` | firmware/libs/stm32-network-lib/core/net_socket.c:204-1289 | for every call on a live socket with a low-level handle and an interface: the driver is asked for just that operation on just that handle and its answer returned, if and only if the connection is up or the operation is shutdown, close, a name query or setsockopt; otherwise nothing is asked and 0 returned |
| `SocketCases.CreatesFirst` | firmware/libs/stm32-network-lib/core/net_socket.c:73-102 | without a low-level socket net_bind, net_connect, net_sendto, net_recvfrom and net_setsockopt first ask for one with the socket's domain, type and protocol, 6 or 17 by type if none was given, and then for the operation on the new handle; a negative handle fails the call |
| `SocketCases.NobodyCreates` | firmware/libs/stm32-network-lib/core/net_socket.c:73-102 | a driver without psocket: over a lost connection the handle counts as 0, else the call fails |
| `SocketCases.NothingToUse` | firmware/libs/stm32-network-lib/core/net_socket.c:255-346 | the other calls then ask nothing: close and shutdown give the socket up, the rest fail |
| `SocketCases.Refused` | firmware/libs/stm32-network-lib/core/net_socket.c:179-346 | invalid sockets, NULL buffers, a full table, a missing interface and an option of the wrong size are refused with their codes |
| `SocketCases.OpenedSocket` | firmware/libs/stm32-network-lib/core/net_socket.c:120-195 | a new socket: the lowest free slot with the values asked for, on the default interface, with 60 s time-outs |
| `SocketCases.AcceptedSocket` | firmware/libs/stm32-network-lib/core/net_socket.c:276-297 | an accepted connection: a copy of the listening socket, index included, with the driver's handle; both connected |
| `SocketCases.SecondTry` | firmware/libs/stm32-network-lib/core/net_socket.c:395-425 | net_connect's second try for a low-level socket, which leaves it unconnected |
| `SocketCases.TableAfter` | firmware/libs/stm32-network-lib/core/net_socket.c:204-808 | what an operation leaves of its socket, and nothing else in the table |
| `SocketCases.OptionKept` | firmware/libs/stm32-network-lib/core/net_socket.c:924-1229 | time-outs and interface after net_setsockopt |
| `SocketCases.StatusAfter` | firmware/libs/stm32-network-lib/core/net_socket.c:357-808 | after net_closesocket the slot is free; a socket becomes connected only by net_connect returning 0 or by net_accept |
| `SocketApi.Sockets.Socket` | firmware/libs/stm32-network-lib/core/net_socket.c:179-195 | the lowest free slot with the values asked for; refuses exactly when every slot is used; no lock held |
| `SocketApi.Sockets.FindFree` | firmware/libs/stm32-network-lib/core/net_socket.c:120-152 | the lowest free slot, reset and locked, the table's lock released |
| `SocketApi.Sockets.CreateLowLevel` | firmware/libs/stm32-network-lib/core/net_socket.c:73-102 | creates at most once, with the default protocol; faults exactly for a missing interface |
| `SocketApi.Sockets.Operate` | firmware/libs/stm32-network-lib/core/net_socket.c:231-241 | access decides; the driver runs with the socket's lock released and gets its low-level handle; the locks are as before |
| `SocketApi.Sockets.Bind` | firmware/libs/stm32-network-lib/core/net_socket.c:204-245 | code, table and driver calls in every case; no lock held |
| `SocketApi.Sockets.Accept` | firmware/libs/stm32-network-lib/core/net_socket.c:255-303 | code, table and driver calls in every case, the copy with the listener's index and the dropped connection when the table is full included; no lock held |
| `SocketApi.Sockets.OnExisting` | firmware/libs/stm32-network-lib/core/net_socket.c:312-346 | net_listen, and alike net_send, net_recv, net_getpeername and net_getsockname: code and driver calls in every case; no lock held |
| `SocketApi.Sockets.OnCreated` | firmware/libs/stm32-network-lib/core/net_socket.c:591-691 | net_sendto and net_recvfrom: code, table and driver calls in every case; no lock held |
| `SocketApi.Sockets.Connect` | firmware/libs/stm32-network-lib/core/net_socket.c:357-450 | code, table and driver calls in every case, the unconnected second try included; no lock held |
| `SocketApi.Sockets.Shutdown` | firmware/libs/stm32-network-lib/core/net_socket.c:700-747 | code, table and driver calls in every case; without a low-level socket the slot is given up; no lock held |
| `SocketApi.Sockets.CloseSocket` | firmware/libs/stm32-network-lib/core/net_socket.c:757-808 | the slot is free afterwards whatever the driver answers; no lock held |
| `SocketApi.Sockets.SetSockOpt` | firmware/libs/stm32-network-lib/core/net_socket.c:924-1229 | code, table and driver calls for every option; no lock held |
| `SocketApi.ConnectedWithoutAsking` | firmware/libs/stm32-network-lib/core/net_socket.c:357-450 | net_connect on a valid socket with an interface reports success without asking the driver to connect if and only if the connection is lost and the low-level socket is there or comes into being at the first try; the socket is then marked connected |
| `NetState.NotifiedPath` | firmware/libs/stm32-network-lib/core/net_state.c:69-329 | for any re-entry by driver and user callbacks the notified states are a path of the transition graph if and only if if_deinit leaves the interface where it was; the state is always the last one notified |
| `NetState.GentleDriversKeepToGraph` | firmware/libs/stm32-network-lib/core/net_state.c:69-329 | a condition on drivers alone: if no if_deinit reports CMD_START or CMD_DEINIT, then whatever else drivers and callbacks report, at any depth and in any sequence of events, the notified states are a path of the transition graph that ends in the state reached |
| `NetState.AllNotifiedPath` | firmware/libs/stm32-network-lib/core/net_state.c:69-329 | the same for a sequence of events |
| `NetState.DeinitMayBreakGraph` | firmware/libs/stm32-network-lib/core/net_state.c:93-101 | a driver that reports CMD_START from if_deinit breaks the graph |
| `NetState.DeinitializedAbsorbs` | firmware/libs/stm32-network-lib/core/net_state.c:322-325 | once DEINITIALIZED no event changes or notifies anything |
| `NetState.ReturnCodes` | firmware/libs/stm32-network-lib/core/net_state.c:69-329 | a failing if_start, if_connect, if_disconnect, if_stop or if_deinit is reported as an interface failure, an event to a de-initialized interface as an invalid state, everything else as success |
| `NetState.DriverRunsExactly` | firmware/libs/stm32-network-lib/core/net_state.c:69-269 | which events in which states call the driver: what it reports makes a difference for these and no others |
| `NetState.CallbackThenDriver` | firmware/libs/stm32-network-lib/core/net_state.c:131-167 | the user callback hears of CONNECTING before if_connect runs |
| `NetState.DriverThenCallback` | firmware/libs/stm32-network-lib/core/net_state.c:93-101 | if_deinit runs before the callback hears of DEINITIALIZED, and nothing is notified after that |
| `NetState.LinkStaysLive` | firmware/libs/stm32-network-lib/core/net_state.c:169-269 | a link or address event, with all its re-entry, neither enters nor leaves CONNECTING, CONNECTED, CONNECTION_LOST, and does nothing elsewhere |
| `NetState.AllLinkStaysLive` | firmware/libs/stm32-network-lib/core/net_state.c:169-269 | the same for any number of them |
| `NetState.CompletionTakes` | firmware/libs/stm32-network-lib/netif/ethernet_if/net_ethernet_driver.c:84-126 | one completion event takes effect whatever link events surround it |
| `NetState.NormalFlow` | firmware/libs/stm32-network-lib/core/net_state.c:77-269 | start, connect, disconnect, stop with link and address events at any time ends INITIALIZED if and only if the link was not lost at the disconnect |
| `NetState.LostLinkBlocksFlow` | firmware/libs/stm32-network-lib/core/net_state.c:169-269 | the failing side is reached from every such flow: an address and then the loss of the link right before the disconnect leave CONNECTION_LOST, where disconnect and stop do nothing |
| `NetState.DisconnectFlow` | firmware/libs/stm32-network-lib/core/net_state.c:169-219 | disconnecting reaches READY from CONNECTING and CONNECTED and is ignored in CONNECTION_LOST |
| `NetState.Interface.ManageEvent` | firmware/libs/stm32-network-lib/core/net_state.c:272-329 | the dispatch on the object, with the handlers re-entered, equals the specification on event trees |
| `NetState.UnhandledIsSilent` | firmware/libs/stm32-network-lib/core/net_state.c:69-329 | any sequence of events notifies nothing if and only if none of them is one the state handles, and then leaves the state alone |
| `NetState.EdgesAreEvents` | firmware/libs/stm32-network-lib/core/net_state.c:69-329 | the edges of the transition graph are exactly the moves that single events make |
| `NetList.NetifList.AddToList` | firmware/libs/stm32-network-lib/core/net_core.c:34-53 | appends to the sequence the links spell; the chain stays acyclic |
| `NetList.NetifList.RemoveFromList` | firmware/libs/stm32-network-lib/core/net_core.c:56-76 | removes just that interface and keeps the order of the others; without it in the list nothing changes |
| `NetList.NetifList.Find` | firmware/libs/stm32-network-lib/core/net_core.c:84-112 | the first interface with the address, the head for no address |
| `NetList.NetifList.Init` | firmware/libs/stm32-network-lib/core/net_core.c:191-224 | a failed initialization leaves the old sequence and a DEINITIALIZED interface; a good one appends it in the state its events lead to |
| `NetList.NetifList.Deinit` | firmware/libs/stm32-network-lib/core/net_core.c:243-253 | for any interface, in the list or not: the state is DEINITIALIZED in every case; the interface is unlinked if and only if the event was accepted, that is not twice and not after a failed if_deinit from INITIALIZED |
| `NetList.WithoutAt` | firmware/libs/stm32-network-lib/core/net_core.c:56-76 | taking out an element of a duplicate-free sequence joins what is before and after it |

## Left out

- AllocDebug.Allocator.Malloc: file names are not empty. It relies on the heap to give an address that is not live and on all blocks fitting the address space; `AllocRuns.RunProgram` checks each answer and stops at one that no heap gives.
- AllocExact.FindsExactly: what a misled walk does to the counts of directories other than the one `AllocExact.MisledCounts` names is not stated, nor is anything about the tree's counts after it, whose nodes then stand for no directories.
- AllocDebug.Allocator.Realloc: block contents are not modelled, so the copy of `size` bytes from the old block is not.
- AllocDebug.Allocator.Free: whether the four bytes behind the block are intact is an input.
- AllocArena.Arena.Walk: the per-node histogram is not modelled; it would only add an easy member.
- EthernetTx.SendAll: assumes that HAL_ETH_TransmitFrame succeeds, that the DMA clears OWN in ring order, one to nine descriptors, one sending thread, a non-empty chain of less than 65536 bytes and memory for the copy. Reference counts inside buffers are not modelled.
- DhcpRuns.OneAddressPerClient: for the table of two slots that the code declares, nothing is said of what follows once a third client was served; the state behind the table is not modelled.
- DhcpRuns.NoBlockLost: the same; the third block's pointer lies past the declared table.
- DhcpServer.DecodeRequest: an option whose data runs past the packet is read from the memory behind it, as the code does; that memory is part of the input and assumed readable.
- DhcpServer.Server.ProcessRequest: the receive loop, the socket set-up and the host name printed in messages are left out; the options at line 485 that the code marks unsupported are unsupported here too.
- SocketRuns.HandlesStayDistinct: each thread uses only sockets it created, with net_socket, net_bind-like and net_sendto-like calls and net_closesocket; net_accept copies the listener's index and takes the table's lock under a socket's lock, and net_shutdown may free a slot, so neither is in the threads' model. A default interface exists.
- SocketApi.Sockets.Operate: buffers, addresses, flags and option values passed on to the driver are not modelled; net_accept leaves a low-level connection without an owner when the table is full, so no ownership of low-level handles is claimed.
- NetState.Interface.ManageEvent: the NULL interface that stands for the default one is modelled by `NetList.NetifList.Check`; semaphores signalled on a change of state are left out.
- NetList.NetifList.RemoveFromList: requires a non-empty list, through whose head the code reads; the creation and destruction of the locks in net_if_init and net_if_deinit is left out.
- NetList.NetifList.Deinit: requires a non-empty list where the event is accepted, for the same reason.
- NetList.NetifList.Find: requires a non-empty list for a non-zero address, for the same reason.
- TLS: all branches of the socket code for secure sockets and the session code behind them are sequences of foreign calls.
- IPv6, the port accessors and the socket-address helpers.
- The WiFi drivers, the WiFi security tables, the H7 template and the ping service, which wrap vendor or lwIP calls.
- The start-up and de-initialization of the Ethernet driver, its receive path, PHY registers and caches.
- The tree printer of the debug allocator, performance counters, RTOS start-up and the time-outs of net_if_wait_state.
- The occupancy, packet and bootloader designs that exist only as documents.
