# Verified models of the C projects

This Dafny project models the six projects of the repository whose correctness rests on arguments the code
does not spell out, and proves those arguments for every input, every run and every interleaving.

* **Heap allocator** (`HeapBlocks`, `HeapTheorems`, `Allocator`). A first-fit `sbrk` allocator over a doubly
  linked chunk list. `Allocator.Heap` works on raw memory: a header that was partly overwritten, or that lies
  above the program break, cannot be read, so every pointer the C code follows is proved to be a header that is
  there. Its methods are proved to perform the steps of `HeapBlocks` (blocks in list order), and
  `HeapTheorems` proves what clients rely on: live payloads, refinement of an eagerly coalescing allocator,
  byte accounting, and the return to the empty heap.
* **Packet sniffer** (`Checksum`, `PacketChecks`, `PrintedVerdicts`, `HexDump`, `PacketSearch`). The Internet checksum
  on hosts of either byte order, the four routines that fill a check field in place, the printed verdicts one by
  one and over the prints of a whole frame, the streaming hex dump against a row-by-row formatter and a reader, and
  the payload search.
* **Linked list** (`LinkedList`). Nodes carry a ghost `live` flag that `LIST_FREE` clears; every dereference by
  the list or an iterator is of a live node, also when nodes are removed during an iteration.
* **DNS answer cache** (`DnsTree`, `DnsPacket`, `DnsChecksum`, `DnsProxy`, `DnsAnswers`). The name tree with arbitrary
  rotations, the byte layout shared by the reply builder and the reply parser, the two hooks as a state machine
  proved equal to a finite map "first answer seen", and what a reader of RFC 1035 makes of the same packets.
* **Concurrent store** (`MutexStore`, `MutexAmounts`, `MutexProgress`). Customers and loader in every interleaving,
  with lock, load, store and unlock as separate steps, for any number of stores and customers; safety, books, what
  each visit takes, and a way out of every reachable state.
* **Message protocols** (`UdpServer`, `UdpProgress`, `SctpTransfer`). Dispatcher and worker pool over one typed queue,
  for any number of workers; file and message threads over two ordered streams; for both, what never goes wrong
  and that the work can always be finished.

The threads of the last two groups are step relations over a state value; a run is any sequence of enabled
steps. Everything that updates memory in place (allocator, packet buffers, list, tree root) is imperative and is
proved against functions of the old contents.

Where the code does not do what its purpose or a standard asks, the code is modelled as it is, a concrete input
is given, and the exact condition is proved:

* a `malloc` request among the 7 largest `size_t` values wraps and is granted too little, and one that needs new
  memory and, with its header, reaches 2^63 makes the `sbrk` argument wrap and destroys the heap; all others keep
  the heap and are held: `RoundCovers`, `WrappedRequest`, `IncrementIff`, `WrappedIncrements`, `Heap.Malloc`;
* the ICMP checksum covers only the 8 header bytes, where RFC 792 covers the whole message:
  `IcmpDataUncovered`, `IcmpDataCounterexample`;
* one comparison of a stored with a recomputed field rejects one valid form (stored 0xFFFF where 0 is recomputed):
  `VerdictVersusReceiver`, `VerdictCounterexample`;
* the IP verdict of an ICMP frame may be about a header that the ICMP refill has changed, and the second print of a
  selected UDP packet always says "valid": `IpVerdictKept`, `IpVerdictChangedIff`, `IcmpSpoilsIp`,
  `SecondPrintValid`, `WrongFrame`;
* the UDP comparison also rejects datagrams without a checksum, and the ICMP verdict looks at the wrong place
  in every frame: `UdpVerdict`, `UdpVerdictCounterexample`, `IcmpLookupMisses`,
  `IcmpVerdictCounterexamples`;
* the payload search misses a one-byte string in the last byte, reports a match that runs past the payload, and,
  where `char` is signed, never finds a string with a byte from 128 on: `SearchedVersusPayload`,
  `SearchCounterexamples`, `SignedCharCounterexample`;
* a DNS reply keeps the UDP checksum of the request although lengths, flags, counts and the answer change:
  `KeptChecksumIff`, `KeptChecksumWrong` (a field of 0 means "no checksum" in RFC 768 and stays right);
* the bytes of the room added to a DNS reply show in it when the request has something behind its question:
  `RoomShowsIff`;
* a known name is answered with an IPv4 address whatever type or class was asked for: `AnswerFitsIff`,
  `Ipv6QuestionMisfits`;
* any reply from the DNS port is stored, whether or not it holds an address: `StoredIsFirstAnswerIff`,
  `NxDomainStored`;
* replies of the worker pool leave in order of arrival exactly with at most one worker, while the source starts 10
  (udp_highload_server/include/server_core.h:30): `OrderKeptIff`, `WorkersReorder`;
* "exit" can overtake file chunks, so the received file may be cut short: `FinalFile` says exactly
  when it is whole, `ExitOvertakes` gives such a run.

## Model

| member | source | states |
|---|---|---|
| `HeapTheorems.RoundCovers` | backup/malloc/src/main.c:12-13 | rounding gives at least the request exactly when the request plus 7 does not wrap `size_t`; then it is the next multiple of 8 |
| `HeapTheorems.WrappedRequest` | backup/malloc/src/main.c:12-13 | 2^64 - 1 wraps to a chunk of size 0, 2^64 - 8 does not wrap |
| `HeapBlocks.IncrementIff` | backup/malloc/src/main.c:41 | the argument of `sbrk` is what was meant exactly if the rounded request plus header is below 2^63; otherwise it is less than a header |
| `HeapTheorems.WrappedIncrements` | backup/malloc/src/main.c:12-41 | with 32-byte headers, requests of 2^64 - 24 and 2^64 - 1024 round to themselves and ask `sbrk` for 8 and for -992 bytes |
| `HeapBlocks.NoFitExtend` | backup/malloc/src/main.c:15-38 | a used chunk ends every free run, so skipping a run that is too small cannot lose a fit |
| `HeapBlocks.FitEndsBeforeTail` | backup/malloc/src/main.c:15-38 | no free run reaches the end of the list: the search never steps past `mem_tail` and a reused run is never followed by it |
| `HeapBlocks.FirstFitUnique` | backup/malloc/src/main.c:15-38 | the run and the number of chunks taken from it are determined by heap and request |
| `HeapBlocks.MallocStepDeterministic` | backup/malloc/src/main.c:12-91 | growing and reusing exclude each other; one request has one outcome |
| `HeapBlocks.MallocKeepsInv` | backup/malloc/src/main.c:40-91 | after append, split or merge the chunk before `mem_tail` is in use |
| `HeapBlocks.MallocKeepsAligned` | backup/malloc/src/main.c:40-91 | chunk sizes stay multiples of 8 |
| `HeapBlocks.ReleaseKeepsInv` | backup/malloc/src/main.c:111-136 | `free` re-establishes that the last chunk is in use, from any heap |
| `HeapBlocks.TrimPrefix` | backup/malloc/src/main.c:122-136 | what is left is a prefix, what goes is all free, and the last chunk left is in use |
| `HeapBlocks.TrimAt` | backup/malloc/src/main.c:122-136 | exactly the maximal trailing free run is given back |
| `HeapTheorems.LiveInside` | backup/malloc/src/main.c:40-91 | every live payload lies between the sentinels and `hub` |
| `HeapTheorems.LiveDisjoint` | backup/malloc/src/main.c:44-90 | live payloads never overlap; a whole header lies between any two |
| `HeapTheorems.MallocAddsOne` | backup/malloc/src/main.c:12-91 | one fresh payload of n to n + H + 15 bytes appears and no other allocation moves or changes size |
| `HeapTheorems.MallocOutcome` | backup/malloc/src/main.c:40-91 | the blocks after a step, number for number: one chunk of the rounded request behind the others, or the shortest fitting part of a free run, split exactly if a header and 16 bytes are left, kept whole otherwise, with what follows unchanged |
| `HeapTheorems.MallocDelivers` | backup/malloc/src/main.c:12-91 | a first-fit step delivers one new payload, other allocations untouched; it holds the request exactly when the rounding does not wrap, and payloads are multiples of 8 if the heap starts at one |
| `HeapTheorems.LiveAligned` | backup/malloc/src/main.c:44-90 | with sizes that are multiples of 8 all live payloads are aligned |
| `HeapTheorems.ReleaseRemovesOne` | backup/malloc/src/main.c:105-136 | `free` removes the freed allocation and no other |
| `HeapTheorems.Accounting` | backup/malloc/src/main.c:113-161 | headers, used payload and free payload add up to the whole heap |
| `HeapTheorems.UsedBytesAre` | backup/malloc/src/main.c:113-161 | a used block adds its size to the used bytes, a free one nothing |
| `HeapTheorems.CoalesceKeepsLive` | backup/malloc/src/main.c:15-38 | full coalescing leaves no two free neighbours and every allocation where it is |
| `HeapTheorems.MallocRefinesEager` | backup/malloc/src/main.c:12-91 | seen through full coalescing, `malloc` takes the request, and less than H + 16 bytes more, from the start of the lowest free block that holds it, and grows the heap only when there is none |
| `HeapTheorems.ReleaseRefinesEager` | backup/malloc/src/main.c:113-136 | seen through full coalescing, `free` is a step of the eager allocator on the same block at the same place: mark, merge with the neighbours, give back a last free block |
| `HeapTheorems.RunKeepsInv` | backup/malloc/src/main.c:3-142 | in every state of every run of calls that can be served the last chunk is in use and sizes are multiples of 8 |
| `HeapTheorems.RunKeepsPositive` | backup/malloc/src/main.c:3-142 | as long as no request wraps, every chunk in every state has a positive size |
| `HeapTheorems.NothingLiveMeansEmpty` | backup/malloc/src/main.c:113-138 | with nothing live no chunk is left at all |
| `HeapTheorems.FreeStepRemoves` | backup/malloc/src/main.c:99-142 | freeing a pointer, held or already free, leaves exactly the other allocations |
| `HeapTheorems.FreeingAllEmpties` | backup/malloc/src/main.c:99-161 | freeing every live block, in any order, brings the heap back to its initial state |
| `Allocator.Heap.constructor` | backup/malloc/src/main.c:144-161 | two mirrored sentinels at the break, no chunks, `hub` behind them |
| `Allocator.Heap.Extend` | backup/malloc/src/main.c:18-28 | stops at the shortest free run from here that fits, or at the used chunk that ends the run, with its merged capacity |
| `Allocator.Heap.Search` | backup/malloc/src/main.c:15-38 | returns `mem_tail` only if no run fits, else the first fit with its capacity and successor; always terminates on readable headers |
| `Allocator.Heap.Grow` | backup/malloc/src/main.c:40-61 | if the argument of `sbrk` does not wrap, one used chunk is appended at the old break and the heap stays tiled; if it wraps, nothing tiles what is left |
| `Allocator.Untiled` | backup/malloc/src/main.c:41-60 | a tail that names a chunk whose header is not below the break closes no list, whatever chunks one assumes |
| `Allocator.TilesGrow` | backup/malloc/src/main.c:44-59 | the pointer writes of the append keep mirrored links and exact tiling |
| `Allocator.Heap.TakeFront` | backup/malloc/src/main.c:63-81 | the run becomes a used chunk and a free remainder that fill it exactly |
| `Allocator.TilesSplit` | backup/malloc/src/main.c:64-80 | the pointer writes of the split keep mirrored links and exact tiling |
| `Allocator.Heap.TakeWhole` | backup/malloc/src/main.c:82-88 | the run becomes one used chunk of its merged capacity |
| `Allocator.TilesAbsorb` | backup/malloc/src/main.c:83-87 | the pointer writes of the merge keep mirrored links and exact tiling |
| `Allocator.Heap.Reuse` | backup/malloc/src/main.c:62-91 | splits exactly when the remainder holds a header and 16 bytes |
| `Allocator.Heap.Malloc` | backup/malloc/src/main.c:3-97 | for every `size_t` request: the heap stays valid exactly if a run fits or the argument of `sbrk` does not wrap, and the request is then held exactly if its rounding does not wrap either; the blocks change as `MallocOutcome` says, and the payload of the one new allocation is returned; NULL for size 0 |
| `Allocator.Heap.ScanForward` | backup/malloc/src/main.c:113-120 | stops at the end of the free run and has summed its bytes |
| `Allocator.Heap.ScanBackward` | backup/malloc/src/main.c:123-130 | stops at the start of the free run and has added its bytes |
| `Allocator.Heap.GiveBack` | backup/malloc/src/main.c:132-138 | the list ends before the run and the break drops by exactly its bytes |
| `Allocator.TilesTrim` | backup/malloc/src/main.c:132-135 | unlinking the tail run keeps the rest mirrored and tiled |
| `Allocator.TilesMark` | backup/malloc/src/main.c:111 | clearing `stat` changes nothing else |
| `Allocator.Heap.Free` | backup/malloc/src/main.c:99-142 | keeps the heap valid, removes exactly this allocation, returns exactly the trailing free run; does nothing on a free chunk |
| `Allocator.Heap.FreeEvery` | backup/malloc/src/main.c:99-161 | a client that frees all it holds, in any order, leaves `hub` at `hlb + 2H` |
| `Allocator.TilesScribble` | backup/malloc/src/main.c:41-45 | whatever a client writes into its own payload, no header of the list is lost |
| `Allocator.Heap.ClientWrite` | backup/malloc/src/main.c:41-45 | the allocator stays valid when the client fills a payload |
| `Checksum.Fold` | pcap_sniffer/lib/core.c:199-202 | the representative mod 65535 that is 0 only for 0 |
| `Checksum.FoldRound` | pcap_sniffer/lib/core.c:199-202 | one round of adding carries keeps the folded value and gets smaller |
| `Checksum.ComputeChecksum` | pcap_sniffer/lib/core.c:188-205 | for every buffer, odd lengths included, the complement of the folded word sum; the byte behind an odd buffer does not matter |
| `Checksum.WordSumIsNumber` | pcap_sniffer/lib/core.c:188-205 | independently of words, the sum is mod 65535 the number that the bytes spell, an odd count being followed by a zero byte |
| `Checksum.ByteOrderIndependent` | pcap_sniffer/lib/core.c:188-205 | hosts of opposite byte order compute swapped values, hence store the same bytes (section 2 (B) of RFC 1071) |
| `Checksum.SumWithField` | pcap_sniffer/lib/core.c:110-186 | the sum with a field is the sum without it plus the field |
| `Checksum.FilledVerifies` | pcap_sniffer/lib/core.c:110-205 | once the field holds the checksum, recomputing gives 0 (section 1 of RFC 1071) |
| `Checksum.VerdictVersusReceiver` | pcap_sniffer/lib/core.c:343-362 | "valid" implies the receiver test; they differ exactly for stored 0xFFFF against recomputed 0 |
| `Checksum.VerdictCounterexample` | pcap_sniffer/lib/core.c:343-362 | an IPv4 header that a receiver accepts and the sniffer calls invalid |
| `Checksum.ZeroChecksum` | pcap_sniffer/lib/core.c:188-205 | the value is 0 exactly for positive word sums divisible by 65535 |
| `PacketChecks.FillVerifies` | pcap_sniffer/lib/core.c:110-186 | any fill behind any even prefix passes the receiver test |
| `PacketChecks.FillTwice` | pcap_sniffer/lib/core.c:110-186 | filling again changes nothing |
| `PacketChecks.FillOrderIndependent` | pcap_sniffer/lib/core.c:110-186 | both byte orders leave the same packet |
| `PacketChecks.ComputeIpChecksum` | pcap_sniffer/lib/core.c:110-113 | only the check field changes, and the 4 * ihl bytes of the header then pass the receiver test |
| `PacketChecks.ComputeTcpChecksum` | pcap_sniffer/lib/core.c:115-147 | only the check field changes; addresses, 0, protocol, segment length (total length less 4 * ihl) and that many bytes of the segment then pass the receiver test (section 3.1 of RFC 9293) |
| `PacketChecks.TcpCovers` | pcap_sniffer/lib/core.c:120-146 | on the bytes: what is summed, with a total length below the header length wrapping in 16 bits |
| `PacketChecks.ComputeUdpChecksum` | pcap_sniffer/lib/core.c:149-181 | only the check field changes; addresses, 0, protocol, the datagram's length field and that many bytes of it then pass the receiver test (RFC 768) |
| `PacketChecks.UdpCovers` | pcap_sniffer/lib/core.c:154-180 | on the bytes: what is summed |
| `PacketChecks.ComputeIcmpChecksum` | pcap_sniffer/lib/core.c:183-186 | only the check field changes; the 8 header bytes alone pass the receiver test |
| `PacketChecks.IcmpDataUncovered` | pcap_sniffer/lib/core.c:183-186 | a receiver of the whole message accepts exactly when the data words sum to a multiple of 65535 |
| `PacketChecks.IcmpDataCounterexample` | pcap_sniffer/lib/core.c:183-186 | a message with one data byte that a receiver rejects |
| `PacketChecks.IpVerdict` | pcap_sniffer/lib/core.c:343-362 | one call of `print_ip_header`: recompute and compare in place decides the verdict on the header it finds, implies the receiver test, and errs exactly in the 0xFFFF case |
| `PacketChecks.VerdictOnHeader` | pcap_sniffer/lib/core.c:343-362 | the same for the refilled packet as a value |
| `PacketChecks.VerdictOnCovered` | pcap_sniffer/lib/core.c:343-445 | save, refill and compare over any prefix and range: valid implies the receiver test, and differs from it only for stored 0xFFFF against recomputed 0 |
| `PacketChecks.TcpVerdict` | pcap_sniffer/lib/core.c:378-403 | the TCP verdict implies the receiver test over pseudo-header and segment, with that one exception |
| `PacketChecks.UdpVerdict` | pcap_sniffer/lib/core.c:432-445 | of the datagrams RFC 768 accepts, exactly those are called invalid that carry no checksum though a non-zero one can be computed, and those whose computed 0 was sent as all ones |
| `PacketChecks.UdpVerdictCounterexample` | pcap_sniffer/lib/core.c:432-445 | a datagram without a checksum that is called invalid |
| `PacketChecks.IcmpVerdict` | pcap_sniffer/lib/core.c:466-532 | the verdict is about the 8 bytes found by taking the frame itself for the IP header, and it overwrites their field |
| `PacketChecks.IcmpLookupMisses` | pcap_sniffer/lib/core.c:466-473 | in no frame is that the place of the ICMP header |
| `PacketChecks.IcmpVerdictCounterexamples` | pcap_sniffer/lib/core.c:466-532 | a correct ICMP header called invalid and a wrong one called valid |
| `Checksum.WordChangedIff` | pcap_sniffer/lib/core.c:343-473 | a field that was right is still called right after another word was overwritten exactly if the new word has the residue of the old one mod 65535 |
| `PrintedVerdicts.PrintIcmp` | pcap_sniffer/lib/core.c:460-532 | the ICMP verdict is about the captured bytes at the place looked at, the IP verdict about the header after the ICMP refill |
| `PrintedVerdicts.IpVerdictKept` | pcap_sniffer/lib/core.c:466-477 | that header is the captured one if the refilled field lies outside it or the refill leaves it as it was |
| `PrintedVerdicts.IpVerdictChangedIff` | pcap_sniffer/lib/core.c:466-477 | otherwise a valid captured header is called valid exactly if the refilled word has the residue of the old one |
| `PrintedVerdicts.IcmpSpoilsIp` | pcap_sniffer/lib/core.c:466-477 | a frame with a correct IP header that is called invalid |
| `PrintedVerdicts.PrintUdp` | pcap_sniffer/lib/core.c:421-445 | one print: the UDP verdict is about the captured datagram, the IP verdict about the captured header, and both fields are refilled |
| `PrintedVerdicts.PrintTcp` | pcap_sniffer/lib/core.c:367-403 | one print: a valid TCP verdict implies the receiver test, and the IP verdict is about the captured header |
| `PrintedVerdicts.PrintedTwice` | pcap_sniffer/lib/core.c:243-253 | a second print of a UDP packet changes nothing |
| `PrintedVerdicts.SecondPrintValid` | pcap_sniffer/lib/core.c:243-253 | both verdicts of a second print are "valid", whatever was captured |
| `PrintedVerdicts.HandleUdp` | pcap_sniffer/lib/core.c:243-253 | the UDP branch: a selected packet is printed twice, the second time as valid; another one once, with the verdicts on what was captured |
| `PrintedVerdicts.WrongFrame` | pcap_sniffer/lib/core.c:243-253 | a frame with a wrong datagram and a wrong IP header that the second print calls valid |
| `HexDump.PrintData` | pcap_sniffer/lib/core.c:549-590 | the streaming printer prints what the row-by-row formatter prints, for every buffer |
| `HexDump.RowLayout` | pcap_sniffer/lib/core.c:553-588 | a row character by character: margin, hex digits, blanks, gap, the bytes from 32 to 128 as themselves and all others as dots |
| `HexDump.DumpAppend` | pcap_sniffer/lib/core.c:549-590 | the formatter adds one row behind whole rows |
| `HexDump.PrintGlyphs` | pcap_sniffer/lib/core.c:556-561 | the character column of a row, dots for unprintable bytes |
| `HexDump.CloseFull` | pcap_sniffer/lib/core.c:553-564 | closing a full row gives the dump of everything before it |
| `HexDump.PrintColumn` | pcap_sniffer/lib/core.c:566-569 | a column goes into the open row or starts the next one |
| `HexDump.CloseLast` | pcap_sniffer/lib/core.c:571-588 | padding and closing the last row gives the whole dump, exact multiples of 16 included |
| `HexDump.DumpRoundTrip` | pcap_sniffer/lib/core.c:549-590 | reading the hex columns back recovers the buffer |
| `PacketSearch.MatchLength` | pcap_sniffer/lib/core.c:304-306 | the inner loop counts to the full length exactly at a match of a string all of whose bytes can equal a payload byte; with signed `char` bytes from 128 on cannot |
| `PacketSearch.CheckData` | pcap_sniffer/lib/core.c:298-309 | found exactly when the string is comparable and occurs in the first n + length - 2 bytes from the payload on |
| `PacketSearch.SearchedVersusPayload` | pcap_sniffer/lib/core.c:298-309 | against a search of the payload itself: strings with incomparable bytes are never found, exactly the matches that run past its end are extra, and a one-byte string in the last byte is missed |
| `PacketSearch.SearchCounterexamples` | pcap_sniffer/lib/core.c:298-309 | one match in the payload that is not reported and one reported that is not in it, for either kind of `char` |
| `PacketSearch.SignedCharCounterexample` | pcap_sniffer/lib/core.c:270-309 | an accented letter at the start of the payload, not found with signed `char` and found with unsigned |
| `PacketSearch.CheckFrame` | pcap_sniffer/lib/core.c:270-310 | the whole function on the bytes: protocols 6 and 17 only, the payload starting where ihl and doff say, its length computed in unsigned arithmetic |
| `LinkedList.Node.constructor` | list/src/list_node.c:14-23 | a live node without neighbours |
| `LinkedList.List.constructor` | list/src/list.c:14-25 | an empty valid list without callbacks |
| `LinkedList.List.Destroy` | list/src/list.c:31-45 | every node freed once while live, every value released once, in order |
| `LinkedList.List.RPush` | list/src/list.c:52-68 | appends the node, keeps the shape; NULL changes nothing |
| `LinkedList.List.RPop` | list/src/list.c:74-88 | takes the last node off, unlinked; NULL exactly on the empty list |
| `LinkedList.List.LPop` | list/src/list.c:94-108 | takes the first node off, unlinked; NULL exactly on the empty list |
| `LinkedList.List.LPush` | list/src/list.c:115-131 | prepends the node, keeps the shape; NULL changes nothing |
| `LinkedList.List.Find` | list/src/list.c:137-158 | the first matching node, by callback or by equality; NULL exactly if none matches |
| `LinkedList.List.Walk` | list/src/list.c:173-179 | the walk reaches the i-th node of its direction |
| `LinkedList.List.At` | list/src/list.c:164-182 | indexing from the front, or from the back if negative; NULL exactly outside [-len, len) |
| `LinkedList.List.Unlink` | list/src/list.c:190-196 | the four-way pointer update leaves a linked list of the other nodes |
| `LinkedList.List.Remove` | list/src/list.c:188-202 | this node goes, freed once with its value; the others keep order and links |
| `LinkedList.List.ViewStep` | list/src/list_iterator.c:43-52 | following `next` or `prev` walks through the nodes in list order or in reverse |
| `LinkedList.Iterator.constructor` | list/src/list_iterator.c:14-21 | stands before the first node of its direction |
| `LinkedList.Iterator.FromNode` | list/src/list_iterator.c:27-36 | stands before the given node |
| `LinkedList.Iterator.Next` | list/src/list_iterator.c:43-52 | returns the node it stands before, which is live, and moves on; NULL at the end |
| `LinkedList.RemoveDuring` | list/src/list.c:188-202 | removing a visited node leaves the rest of the iteration unchanged; only removing the node due next breaks the iterator |
| `LinkedList.RemoveAndNext` | list/src/list_iterator.c:43-52 | remove the node just returned, then the next one is still delivered |
| `LinkedList.RunDrop` | list/src/list.c:188-202 | removing any visited node during an iteration takes it out of the order and moves the iterator back by one |
| `LinkedList.Drain` | list/src/list_iterator.c:43-52 | removing each node just returned, in either direction, visits and frees every original node once in order and leaves an empty valid list |
| `LinkedList.RunMoves` | list/src/list_iterator.c:43-52 | a client that mixes fetches and removals of visited nodes in any way: what the iterator returned, followed by what is still to come, is the original order, and the list keeps the visited nodes not removed and the rest |
| `LinkedList.TourStepKeeps` | list/src/list_iterator.c:43-52 | one fetch or removal keeps returned nodes followed by those to come equal to the original order |
| `DnsTree.StrCmp` | dns_proxy_server/dns_proxy_mod.c:11 | 0 exactly for equal names |
| `DnsTree.StrCmpMeans` | dns_proxy_server/dns_proxy_mod.c:11 | negative for a proper prefix or the smaller byte at the first difference, positive the other way round |
| `DnsTree.StrCmpFlip` | dns_proxy_server/dns_proxy_mod.c:11-18 | the comparison is antisymmetric |
| `DnsTree.LessTransitive` | dns_proxy_server/dns_proxy_mod.c:11-18 | the comparison is transitive |
| `DnsTree.HeldBySide` | dns_proxy_server/dns_proxy_mod.c:13-18 | what an ordered tree holds for a name is on the side the name compares to |
| `DnsTree.Search` | dns_proxy_server/dns_proxy_mod.c:3-22 | finds exactly what the tree holds for the name |
| `DnsTree.LinkOrdered` | dns_proxy_server/dns_proxy_mod.c:28-43 | attaching the leaf keeps the order |
| `DnsTree.LinkHolds` | dns_proxy_server/dns_proxy_mod.c:28-43 | a new name is added and every held name keeps its record |
| `DnsTree.RotationUndone` | dns_proxy_server/dns_proxy_mod.c:44 | a rotation at the root moves the child up, and the opposite one undoes it |
| `DnsTree.RotateIsLocal` | dns_proxy_server/dns_proxy_mod.c:44 | a rotation further down changes the subtree found there and nothing else |
| `DnsTree.RebalanceInOrder` | dns_proxy_server/dns_proxy_mod.c:44 | any finite series of rotations keeps the sequence of records |
| `DnsTree.FindPlace` | dns_proxy_server/dns_proxy_mod.c:26-40 | the pointer walk ends where the leaf belongs, or reports that the name is known |
| `DnsTree.Insert` | dns_proxy_server/dns_proxy_mod.c:24-47 | the tree stays ordered and, as a map, changes only by adding an unknown name |
| `DnsPacket.CStringIs` | dns_proxy_server/dns_proxy_mod.c:280-288 | a C string is determined by its bytes and its terminator |
| `DnsPacket.IsDnsIff` | dns_proxy_server/dns_proxy_mod.c:210-220 | on the bytes: the hooks take packets of version 4 and protocol 17 with port 53 at the tested place behind 4 * ihl bytes |
| `DnsPacket.SendReply` | dns_proxy_server/dns_proxy_mod.c:93-142 | the in-place writes on the expanded copy, on a little-endian host, make the reply packet |
| `DnsPacket.ReplyParses` | dns_proxy_server/dns_proxy_mod.c:93-142 | the reply parser reads back name, address and ttl of the record the reply was built from |
| `DnsPacket.ReplyIsAnswer` | dns_proxy_server/dns_proxy_mod.c:119-121 | the reply to what the first hook takes for a query is what the second hook takes for an answer |
| `DnsPacket.ReplyHeaders` | dns_proxy_server/dns_proxy_mod.c:106-131 | lengths grow by 16, addresses and ports are exchanged, counts are 1 1 0 0, id, options, UDP checksum and question are kept |
| `DnsPacket.ReplyVerifies` | dns_proxy_server/dns_proxy_mod.c:109-113 | the IP header of the reply passes the receiver test on hosts of either byte order |
| `DnsPacket.ReplyParts` | dns_proxy_server/dns_proxy_mod.c:93-142 | the reply is the rewritten headers, the question, the answer, and then what the answer does not cover of the request and of the added room |
| `DnsPacket.RoomShowsIff` | dns_proxy_server/dns_proxy_mod.c:93-142 | the reply does not depend on what the added room held exactly when the request ends with its question |
| `DnsPacket.QuestionInside` | dns_proxy_server/dns_proxy_mod.c:227-238 | a question that ends inside the packet reads the same from the packet alone |
| `DnsPacket.ReplyAnswer` | dns_proxy_server/dns_proxy_mod.c:133-142 | the answer's name points at the question; type A, class IN, 4 bytes (sections 4.1.3 and 4.1.4 of RFC 1035) |
| `DnsPacket.AnswerFlagBits1` | dns_proxy_server/dns_proxy_mod.c:124-125 | qr and rd set, opcode, aa and tc kept |
| `DnsPacket.AnswerFlagBits2` | dns_proxy_server/dns_proxy_mod.c:126-127 | ra set, ad cleared, z, cd and rcode kept |
| `DnsChecksum.CoveredSum` | dns_proxy_server/dns_proxy_mod.c:106-142 | the words under the UDP checksum, field by field |
| `DnsChecksum.WordSumOdd` | dns_proxy_server/dns_proxy_mod.c:133-136 | an answer behind a question of odd length enters the sum shifted by one byte |
| `DnsChecksum.ReplyDrifts` | dns_proxy_server/dns_proxy_mod.c:106-142 | for every answerable request, records behind the question included, the covered words of the reply are those of the request plus a drift that lengths, flags, counts and the bytes behind the headers decide |
| `DnsChecksum.KeptSumIff` | dns_proxy_server/dns_proxy_mod.c:116-142 | the sum over the reply is all ones again exactly when that drift is a multiple of 65535 |
| `DnsChecksum.KeptChecksumIff` | dns_proxy_server/dns_proxy_mod.c:116-142 | for a request that RFC 768 accepts, the reply with the kept checksum is accepted exactly when the field is 0 or the drift is a multiple of 65535 |
| `DnsChecksum.PlainDrift` | dns_proxy_server/dns_proxy_mod.c:106-142 | for a request that ends with its question the drift is that of the headers plus the sum of the answer record |
| `DnsChecksum.KeptChecksumWrong` | dns_proxy_server/dns_proxy_mod.c:116-142 | every ordinary root query that carries a correct checksum gets a reply that RFC 768 has receivers drop |
| `DnsChecksum.RootQueryExists` | dns_proxy_server/dns_proxy_mod.c:116-142 | there is such a query |
| `DnsProxy.FirstAnswerIsFirst` | dns_proxy_server/dns_proxy_mod.c:293-315 | the reference map holds a name exactly if some answer for it was seen, with the record of the earliest one |
| `DnsProxy.FirstAnswerKept` | dns_proxy_server/dns_proxy_mod.c:293-315 | the first answer for a name is kept for ever |
| `DnsProxy.FirstAnswerAppend` | dns_proxy_server/dns_proxy_mod.c:293-315 | a later event matters only for names not answered before |
| `DnsProxy.Proxy.constructor` | dns_proxy_server/dns_header.h:74 | the empty tree holds nothing |
| `DnsAnswers.StoredIsFirstAnswerIff` | dns_proxy_server/dns_proxy_mod.c:280-305 | the stored address is that of the reply's first answer, as section 4.1 of RFC 1035 reads it, exactly when there is one question and an answer, the record lies in the packet, its name is a pointer, and it is of type A, class IN, 4 bytes |
| `DnsAnswers.StoredAddress` | dns_proxy_server/dns_proxy_mod.c:303-305 | and then it is stored byte for byte |
| `DnsAnswers.NoAnswerStored` | dns_proxy_server/dns_proxy_mod.c:287-315 | a reply without answers is stored like any other |
| `DnsAnswers.NxDomainStored` | dns_proxy_server/dns_proxy_mod.c:287-315 | a "no such name" reply with an SOA record that is stored as an address |
| `DnsAnswers.ReplyIsRead` | dns_proxy_server/dns_proxy_mod.c:93-142 | a reader of RFC 1035 finds the cached address and time to live as first answer of the reply the proxy builds |
| `DnsAnswers.ReplyTeaches` | dns_proxy_server/dns_proxy_mod.c:93-318 | the reply of one proxy, seen by the second hook of another, teaches it the same record |
| `DnsAnswers.AnswerFitsIff` | dns_proxy_server/dns_proxy_mod.c:224-242 | the answer of the proxy fits the question exactly if type A or any type, and class IN or any class, was asked for; the source reads neither |
| `DnsAnswers.Ipv6QuestionMisfits` | dns_proxy_server/dns_proxy_mod.c:224-242 | a question for an IPv6 address that is answered with an IPv4 address |
| `DnsProxy.Proxy.RequestHook` | dns_proxy_server/dns_proxy_mod.c:197-246 | over every history and on the bytes: a packet of any other version, protocol or destination port is accepted; a query is dropped exactly when its name was answered before and its question ends inside the packet, with a reply that parses to that first record; otherwise the verdict says which step ended it |
| `DnsProxy.Proxy.ReplyHook` | dns_proxy_server/dns_proxy_mod.c:248-318 | after every call, short packets and any rebalancing included, tree search agrees with the map of first answers; on the bytes, only packets from port 53 change it, and one for an unknown name is stored |
| `MutexStore.MutualExclusion` | mutex_store/lib/ms.c:23-31 | at most one thread is inside a store |
| `MutexStore.CustomerStepKeeps` | mutex_store/lib/ms.c:18-35 | every customer step keeps ownership, ranges and pending registers consistent |
| `MutexStore.LoaderStepKeeps` | mutex_store/lib/ms.c:41-52 | so does every loader step |
| `MutexStore.RunInv` | mutex_store/lib/ms.c:14-55 | invariant and books hold in every state of every interleaving |
| `MutexStore.RunSafe` | mutex_store/lib/ms.c:18-52 | no negative stock or demand, stock plus sales equals initial stock plus loads, purchases plus demand equal initial demand, exit only with the demand met, sales equal purchases when no update is half done |
| `MutexStore.RunBounds` | mutex_store/lib/ms.c:41-52 | a step loads at most 512 |
| `MutexStore.StockFitsInt` | mutex_store/lib/ms.c:26-47 | `int` stock does not overflow while initial stock plus possible loads fit |
| `MutexStore.OwnerCanStep` | mutex_store/lib/ms.c:23-50 | a held mutex is held by a thread that can go on |
| `MutexStore.NoDeadlock` | mutex_store/lib/ms.c:18-52 | in every reachable state a customer that is not done can step or waits for a holder that can |
| `MutexStore.LoaderNeverStuck` | mutex_store/lib/ms.c:41-52 | the loader can step, or a customer can |
| `MutexAmounts.AnyChoice` | mutex_store/lib/ms.c:18-52 | a thread may choose any store and any amount from 0 to 512, take a mutex exactly when it is free, and do all else at once |
| `MutexAmounts.AskedFor` | mutex_store/lib/ms.c:19-23 | over every interleaving, a customer asks at its lock for the drawn amount, but for no more than its demand |
| `MutexAmounts.VisitTakes` | mutex_store/lib/ms.c:23-31 | over every interleaving, one visit takes exactly the amount asked for, or the stock there was if that was less, from the store and from the demand |
| `MutexAmounts.RoundAdds` | mutex_store/lib/ms.c:42-50 | over every interleaving, one round of the loader adds exactly the amount it drew to the store it chose |
| `MutexProgress.RunToCheck` | mutex_store/lib/ms.c:18-33 | a customer that is alone inside runs back to its loop condition, and has bought something if it asked for some and the store had some |
| `MutexProgress.Settle` | mutex_store/lib/ms.c:18-52 | from every invariant state all threads can leave their critical sections |
| `MutexProgress.EveryoneCanLeave` | mutex_store/lib/ms.c:18-52 | from every reachable state some continuation lets every customer exit with its demand met |
| `UdpServer.JobsAppend` | udp_highload_server/lib/server_core.c:104-175 | sending appends to the messages of its type only |
| `UdpServer.JobsWithout` | udp_highload_server/lib/server_core.c:115-161 | a typed receive takes the oldest message of its type and leaves the other type alone |
| `UdpServer.StepConserves` | udp_highload_server/lib/server_core.c:61-182 | every step keeps each accepted request in exactly one place |
| `UdpServer.RunConserves` | udp_highload_server/lib/server_core.c:43-182 | in every interleaving, also from a queue that an earlier process left filled, the accepted requests are, as a multiset, those queued, held, queued as replies, and answered |
| `UdpServer.RepliesBounded` | udp_highload_server/lib/server_core.c:61-182 | no client gets more replies than it made requests |
| `UdpServer.RepliesExactWhenIdle` | udp_highload_server/lib/server_core.c:61-182 | with nothing queued and nobody busy every client has got exactly its replies |
| `UdpServer.RunSentInOrder` | udp_highload_server/lib/server_core.c:113-182 | replies leave whole, to their client, in the order the workers made them |
| `UdpServer.SingleWorkerFifo` | udp_highload_server/lib/server_core.c:61-182 | with at most one worker, replies leave in the order requests arrived |
| `UdpServer.WorkersReorder` | udp_highload_server/lib/server_core.c:154-182 | for every pool of two or more workers a run in which the second request is answered first |
| `UdpServer.OrderKeptIff` | udp_highload_server/lib/server_core.c:61-182 | every run of n workers answers in order of arrival exactly when n is at most 1 |
| `UdpProgress.StoppedIff` | udp_highload_server/lib/server_core.c:84-89 | the server has stopped exactly if a datagram "exit" was received |
| `UdpProgress.DispatcherAlternates` | udp_highload_server/lib/server_core.c:61-139 | each receive attempt, successful or not, is followed by one reply attempt before the next |
| `UdpProgress.EveryoneIsAnswered` | udp_highload_server/lib/server_core.c:61-182 | from every state of every run that has not stopped, with a worker, some continuation without a new datagram leaves every client with exactly its replies |
| `SctpTransfer.ExitRecognised` | sctp/lib/server_core.c:64-84 | on the zeroed buffer the comparison recognises exactly the line "exit" |
| `SctpTransfer.StepKeeps` | sctp/lib/client_core.c:23-46 | every step keeps output, stream and held chunk together a prefix of the file |
| `SctpTransfer.RunInv` | sctp/lib/server_core.c:63-109 | so does every run |
| `SctpTransfer.AlwaysPrefix` | sctp/lib/server_core.c:95-108 | the server's file is a prefix of the client's file at every moment, thread failures and short writes included |
| `SctpTransfer.CompleteIff` | sctp/lib/server_core.c:95-108 | without failures it is the whole file exactly when all was read and every chunk received |
| `SctpTransfer.StoppedFrozen` | sctp/lib/server_core.c:84-108 | a stopped server never changes its file |
| `SctpTransfer.FinalFile` | sctp/lib/server_core.c:63-109 | after "exit" the file is whole exactly when all chunks had arrived before it, whatever fails afterwards |
| `SctpTransfer.ExitOvertakes` | sctp/lib/server_core.c:79-109 | a run in which "exit" overtakes the only chunk and the file stays empty |
| `SctpTransfer.ExitMeansAllHeard` | sctp/lib/client_core.c:65-89 | the server exits exactly when it has heard "exit", and has then heard every line typed, in order |
| `SctpTransfer.FailedIff` | sctp/lib/server_core.c:95-108 | the server gives up exactly after a short write |
| `SctpTransfer.FileCanArrive` | sctp/lib/client_core.c:23-46 | as long as nothing failed and the server serves, some continuation brings it the whole file |

## Left out

- Allocator: the `errno` test, `printf`, `free(NULL)`, freeing a pointer whose chunk has been merged away or given
  back, and other callers of `sbrk` are not modelled. `sbrk` is taken to succeed whenever the break stays an
  address below 2^63. After a wrapped argument, writes above the break are taken to be lost, and only the state right
  behind the call is described.
- Allocator.Heap.Free: the ghost parameter names the chunk of the pointer, so only pointers to existing chunks
  (held or free) are covered.
- Allocator.Heap.ClientWrite: client bytes are not kept; a payload write destroys stale headers lying in it.
- PacketChecks.ComputeIpChecksum: with a header length field below 3 the check field lies outside the summed bytes; then
  only the written value is stated, as for a TCP or UDP length that does not reach the check field.
- PacketChecks.ComputeUdpChecksum: the rule of RFC 768 that a computed 0 is sent as all ones is not in the source;
  `Checksum.ZeroChecksum` says when it would matter.
- PacketSearch.CheckFrame: a frame shorter than its headers makes the unsigned payload length wrap; the search is
  then stated only for memory that long.
- LinkedList: allocation failure, callbacks with effects of their own, and lists of 2^32 nodes or more.
- DnsTree: trees are values held in a mutable root; parent and colour fields and the red-black balance bound are
  not modelled, because `rb_insert_color` is not in the repository.
- DnsPacket.SendReply: `ip_fast_csum` is taken to be the RFC 1071 sum; routing and sending are left out.
- DnsChecksum.KeptChecksumIff: a UDP length field that does not reach over the DNS header, or that reaches behind the
  packet, is not covered.
- DnsAnswers.StoredIsFirstAnswerIff: question names with a zero byte inside a label are not covered.
- DnsProxy.Proxy.ReplyHook: names of 256 bytes or more, beyond the limit of section 2.3.4 of RFC 1035, which the
  source copies without terminator, are excluded; memory behind the packet is a parameter.
- DnsProxy.Proxy.RequestHook: for header length fields below 5, which section 3.1 of RFC 791 forbids, the verdict is given
  but not the bytes of the reply; for a cached name whose question does not end inside the packet only the verdict `Overrun` is given, not what the writes
  behind the copy do. The `kmalloc` of the hooks is modelled only by whether it succeeds.
- MutexStore: threads are step relations, not loops; `printf`, `sleep` and fairness are left out.
- PrintedVerdicts: the other lines of the prints are left out; frames with an IP header length field below 5 are covered
  for ICMP only.
- UdpServer: queue capacity, message sizes, failing system calls and the text of the time of day are left out;
  stopping is a final state.
- SctpTransfer: association set-up and a failing `sctp_recvmsg` are left out; an empty input line without a
  newline, for which the client writes before its buffer, is not modelled.
- Everything else in the repository (sockets, netlink, ncurses, file manager, echo servers, char devices,
  `queue_chat`, `mutex`, copies of the checksum code): input and output plumbing, or members easier than those above.
