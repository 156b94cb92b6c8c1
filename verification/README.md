# JordyOS and its simulators: a verified model

This project models the parts of the repository where correctness is hardest to see and proves what
they promise, for all inputs and all runs. `dafny verify dfyconfig.toml` checks everything.

| files | what they model |
|---|---|
| `Words`, `Bits`, `Buffers` | fixed-width integers with explicit wrap-around, bit operators, byte buffers |
| `TcpModel`, `TcpSender`, `TcpSteps`, `TcpWire`, `TcpRun` | the bounded active-open TCP stream as a state machine, and what every run of it keeps on the sending side |
| `TcpReceiver`, `TcpTimers` | its receiving side; pacing, timeouts and round-trip sampling |
| `TcpScenario`, `TcpProbe`, `TcpLaps`, `TcpClock` | concrete runs, and the exact limits of three promises: the zero-window probe, streams longer than the sequence space, a clock at the end of its range |
| `TcpEngine`, `TcpFrame` | the connection record updated in place, refining the state machine; segments as bytes, down to the Ethernet frame |
| `BpfModel`, `BpfSound`, `BpfMachine`, `BpfMemory` | the eBPF validator and interpreter, address translation, division, map lookup |
| `HeapModel`, `HeapLayout`, `HeapLive`, `Heap`, `HeapScript` | the first-fit allocator: block list, headers as bytes in the arena, the set of live blocks, the class that works in place, and whole programs on it |
| `CacheModel`, `CacheCompetitive`, `CacheStack`, `CacheSim` | the page-cache simulators and the classical theorems about LRU and FIFO |
| `SchedulerModel`, `Scheduler` | the CPU scheduler simulator under any policy |
| `Packet`, `Cidr` | Internet checksum, IPv4 decoder and encoder; decimal numbers and CIDR blocks as text |
| `FirewallModel`, `Firewall`, `PrefixTable` | rule lists, their two-pass serialization, the first-match walk, hit counters, the source-block prefix map |
| `UserImage`, `PageTables`, `Isolation` | the checks on a user image, the page tables built from it, and the checking of user pointers |

Conventions. Code that computes a value is a function; code that loops or updates a record or buffer is
a method or class proved equal to a function of the old state, and the properties are proved of that
function over whole runs. The congestion controller is an oracle that answers any window and any
positive rate; the link, the clock, the random generator, the learned models and the firewall's
`matches` are arbitrary parameters. `wire` in the TCP model is a history of what `transmit` got onto the
link; it influences nothing.

Results that needed a condition:

* The receiver is safe exactly for peer streams shorter than the sequence space (`TcpLaps.SafeExactly`,
  over all runs); from 2^32 bytes on, `LongStreamsUnsafe` gives a run in which the second lap is stored
  as the first.
* A zero-window probe carries the byte that belongs at its sequence number exactly when some data and
  not yet the FIN has been sent (`TcpProbe.ProbeInRun`). Before any data it is a zero byte at the SYN's
  number, after the FIN a data byte at the FIN's own number; `ProbeBeforeData` and `ProbeAfterFin` are
  runs that get there.
* Pacing holds in all runs up to a clock value exactly if that value stays 536 seconds short of 2^64
  microseconds (`TcpClock.PacingExactly`); later, a run sends two segments at once (`ClockWraps`).
* The address returned by a map lookup translates back to that very value for writes exactly when the
  map is writable, and for reads exactly when neither the context nor the packet buffer is so long that
  it reaches the value region (`LookupTranslates`).
* The bitwise prefix scan means mask-and-compare for every address exactly when the rule's mask is a
  prefix mask and its source has no bits outside it (`NormalExactly`); every block that `net_cidr`
  reads is of this form (`ParsedIsNormal`).
* Printing a block and parsing it again returns it exactly when the mask is not zero: a zero mask is
  printed `any`, which `net_cidr` does not read (`RoundTrip`).
* The embedder's overlap test rejects exactly the segments that share a page and the empty ones that
  fall inside the pages of another (`OverlapExact`); `EmptyRejected` is a list turned down for the latter.

## Model

| member | source | states |
|---|---|---|
| `TcpSender.AckInterval` | jordyOS/net/tcp.c:104-107 | with less than half the circle outstanding, the two `before` tests of `ack` accept exactly the cyclic interval [una, next] |
| `TcpSender.BeforeIsOrder` | jordyOS/net/tcp.c:6 | on numbers less than half the circle past the initial one, `before` is their order, across wrap-around |
| `TcpSender.OldestIsUna` | jordyOS/net/tcp.c:13-19 | when the slots tile [una, next), `oldest` finds the slot that starts at una, or nothing exactly when una = next |
| `TcpSender.TilesSum` | jordyOS/net/tcp.c:115-132 | the sizes of a tiling's slots add up to next - una |
| `TcpSteps.AdvanceKeeps` | jordyOS/net/tcp.c:112-134 | a cumulative or partial ACK keeps tiling, slot placement and the byte count of `delivered` |
| `TcpSteps.ExtendedKeeps` | jordyOS/net/tcp.c:261-280 | sending a new SYN, data segment or FIN from a free slot keeps them |
| `TcpSteps.ResentKeeps` | jordyOS/net/tcp.c:87-103 | a retransmission keeps them |
| `TcpRun.Tiling` | jordyOS/net/tcp.c:104-281 | in every state of every run the used slots tile [una, next) without gap or overlap, each data slot sits at isn + 1 + offset, and delivered + pending + unsent bytes make the transfer |
| `TcpRun.Completion` | jordyOS/net/tcp.c:254-280 | DONE is reached only with every byte and the own FIN acknowledged, nothing pending and the peer's FIN consumed |
| `TcpRun.Fidelity` | jordyOS/net/tcp.c:38-52 | every transmission of every run carries the file's bytes at its own sequence number (or is the SYN or FIN), and no position is sent more than nine times |
| `TcpWire.ProbeByte` | jordyOS/net/tcp.c:255-258 | once the SYN is out, the probe's byte is the one at its sequence number if and only if some data and not the FIN has been sent; else it sits at the SYN's or the FIN's number |
| `TcpProbe.ProbingTick` | jordyOS/net/tcp.c:237-259 | a tick sends a probe exactly under the stated condition, and then changes only the probe clock and the pending ACK |
| `TcpProbe.ProbeInRun` | jordyOS/net/tcp.c:255-258 | the same equivalence for every probe of every run |
| `TcpProbe.ProbeBeforeData` | jordyOS/net/tcp.c:255-258 | a run whose peer opens with window zero is probed with a zero byte at the SYN's number |
| `TcpProbe.ProbeAfterFin` | jordyOS/net/tcp.c:255-258 | a run whose peer closes its window after the FIN is probed with a data byte at the FIN's number |
| `TcpReceiver.Reception` | jordyOS/net/tcp.c:154-236 | whatever is lost, repeated, reordered, re-cut or sent to other ports, the stored bytes are a prefix of the peer's stream, the window edge follows them, and after the FIN they are all of it |
| `TcpReceiver.StoredForever` | jordyOS/net/tcp.c:220-234 | stored bytes never change, whatever arrives from anyone |
| `TcpReceiver.ShortStreamsSafe` | jordyOS/net/tcp.c:199-234 | no segment of a stream shorter than 2^32 bytes is stored out of place |
| `TcpLaps.LongStreamsUnsafe` | jordyOS/net/tcp.c:199-234 | for every length from 2^32 on there is a run, all its arrivals from one stream of that length, that stores what is not its prefix |
| `TcpLaps.SafeExactly` | jordyOS/net/tcp.c:199-234 | all runs on streams of a length are safe if and only if the length is below 2^32 |
| `TcpTimers.PacingBound` | jordyOS/net/tcp.c:38-52 | in any stretch of time of any run, new and repeated data bytes stay within the rate limit plus one segment, for every 64-bit rate, while the clock is 536 seconds short of wrapping |
| `TcpTimers.GapPays` | jordyOS/net/tcp.c:48-49 | the scheduled gap pays for its segment at every rate, even where the sum before the division wraps |
| `TcpClock.ClockWraps` | jordyOS/net/tcp.c:48-49 | at every later clock value there is a run that sends two segments in one instant at one byte per second |
| `TcpClock.PacingExactly` | jordyOS/net/tcp.c:38-52 | the pacing bound holds in all runs up to a clock value, for all limits and stretches, if and only if the longest gap after it does not wrap |
| `TcpTimers.RttExact` | jordyOS/net/tcp.c:76-86 | the estimator and the timeout are those of section 2 of RFC 6298, rounded down, with no overflow, the timeout held between one second and one minute |
| `TcpTimers.TimeoutRange` | jordyOS/net/tcp.c:76-103 | the timeout of every live reachable state lies between one second and one minute |
| `TcpTimers.Karn` | jordyOS/net/tcp.c:115-138 | in every run, an event that changes the estimator is an ACK, of the SYN or later, and all it newly covers was sent exactly once (section 3 of RFC 6298) |
| `TcpEngine.Connection.constructor` | jordyOS/net/tcp.c:60-75 | `tcp_start` leaves the record in the model's start state |
| `TcpEngine.Connection.Input` | jordyOS/net/tcp.c:154-236 | `tcp_input` on the record in place is exactly the model's step |
| `TcpEngine.Connection.Acked` | jordyOS/net/tcp.c:104-153 | `ack` on the pending array in place is the model's acknowledgement |
| `TcpEngine.Connection.Lose` | jordyOS/net/tcp.c:87-103 | `loss` in place is the model's retransmission |
| `TcpEngine.Connection.Tick` | jordyOS/net/tcp.c:237-281 | `tcp_tick` on the record in place is exactly the model's step |
| `TcpEngine.Drive` | jordyOS/net/tcp.c:60-281 | a connection driven by any script of calls ends where the model's run does, so all of the above holds of it |
| `TcpFrame.OutputParses` | jordyOS/net/tcp.c:20-32 | `tcp_input`'s reading of `output`'s bytes returns every field that went in, whatever checksum is filled in |
| `TcpFrame.Delivery` | jordyOS/net/tcp_native.c:51-62 | every segment `output` can build, wrapped by `send_to`, is accepted by `net_decode` with the same addresses, ports, protocol and length, and parses back to the same fields |
| `TcpFrame.WireDelivery` | jordyOS/net/tcp.c:38-52 | the same for every transmission of every run, with the file's bytes: addresses, ports, length and fields |
| `TcpFrame.SendTo` | jordyOS/net/tcp_native.c:51-60 | the frame buffer filled in place holds the Ethernet header and exactly the encoded datagram |
| `BpfMachine.Validate` | jordyOS/net/bpf_vm.c:9-51 | the validator's loop decides the structural predicate the soundness theorem starts from |
| `BpfSound.ValidStarts` | jordyOS/net/bpf_vm.c:12-20 | in an accepted program `code != 0` marks exactly the instruction starts, and each passed its own check |
| `BpfSound.Soundness` | jordyOS/net/bpf_vm.c:126-202 | after any number of steps of an accepted program the counter is at a real start or the end, and the next step is not rejected for its form |
| `BpfSound.ExecSound` | jordyOS/net/bpf_vm.c:121-204 | an accepted program fails only by a bad access, a failed lookup, running off the end or exhausted fuel |
| `BpfSound.StepConfined` | jordyOS/net/bpf_vm.c:126-202 | one step of any program, accepted or not, keeps r10, every read-only map and every map's shape |
| `BpfSound.ExecConfined` | jordyOS/net/bpf_vm.c:121-204 | so does every whole run |
| `BpfSound.WritePlace` | jordyOS/net/bpf_vm.c:57-75 | a granted write lies wholly on the stack or inside one value of a writable map |
| `BpfMachine.Vm.Execute` | jordyOS/net/bpf_vm.c:121-204 | the interpreter's loop returns the verdict, value, step count and maps of the model's run |
| `BpfMachine.Divide` | jordyOS/net/bpf_vm.c:110-120 | shift-and-subtract gives quotient and remainder for all 64-bit operands, and 0 or n for a zero divisor (section 4.1 of RFC 9669) |
| `BpfMachine.Carry` | jordyOS/net/bpf_vm.c:115-117 | the carried-out bit with the wrapped comparison and subtraction decides and computes the unbounded ones |
| `BpfMemory.LookupAnswer` | jordyOS/net/bpf_vm.c:76-109 | an address answered by the lookup helper is that of a value of its own map: the indexed one, or the longest match, the earliest among equals |
| `BpfMemory.LookupTranslates` | jordyOS/net/bpf_vm.c:57-109 | from the call to any later access: byte j behind the answer is byte j of that very value, if and only if the stated condition on map and buffers holds |
| `BpfMemory.InnerHandle` | jordyOS/net/bpf_vm.c:102-106 | an array of maps answers null or the handle of one of the maps |
| `BpfMemory.AnswerTranslates` | jordyOS/net/bpf_vm.c:57-75 | byte j of a value's address is byte j of that value, under that condition and no other |
| `BpfMemory.StoreThenLoad` | jordyOS/net/bpf_vm.c:164-174 | a load after a store to the same place sees the value's low bytes |
| `BpfMemory.AccessInBounds` | jordyOS/net/bpf_vm.c:57-75 | a granted access stays inside the buffer behind it |
| `BpfMemory.LongestMatch` | jordyOS/net/bpf_vm.c:86-99 | the scan answers none exactly when nothing matches, else the longest match, the earliest among equals |
| `BpfMachine.LongestPrefix` | jordyOS/net/bpf_vm.c:88-97 | the loop with its running best computes that scan |
| `HeapModel.MallocWf` | jordyOS/ape/platform.c:52-67 | a request keeps tiling, alignment, minimum size and separation of free blocks, and changes nothing exactly when no free block holds the rounded size |
| `HeapModel.ReleaseWf` | jordyOS/ape/platform.c:68-76 | releasing any block keeps them |
| `HeapModel.CoalesceSeparates` | jordyOS/ape/platform.c:71-75 | one pass leaves no two free neighbours |
| `HeapModel.HistoryWf` | jordyOS/ape/platform.c:48-85 | they hold after every sequence of malloc, free and realloc |
| `HeapModel.AllFreeIsInitial` | jordyOS/ape/platform.c:48-51 | a well-formed heap without live blocks is the single initial block |
| `HeapLive.FreedHistory` | jordyOS/ape/platform.c:48-85 | once everything handed out is returned, in whatever order, the heap is the initial one |
| `HeapLive.LiveMeans` | jordyOS/ape/platform.c:45-47 | the live blocks by address and size are those of the block list |
| `HeapLive.MallocLive` | jordyOS/ape/platform.c:52-67 | malloc adds exactly the granted block to the live blocks, at the first fit, and moves none |
| `HeapLive.ReleaseLive` | jordyOS/ape/platform.c:68-76 | free removes exactly its block and moves none |
| `HeapLive.GrowLive` | jordyOS/ape/platform.c:82-84 | a growing realloc exchanges its block for the granted one, or changes nothing |
| `HeapLayout.PayloadsApart` | jordyOS/ape/platform.c:45-65 | no byte belongs to two payloads |
| `HeapLayout.PayloadWrite` | jordyOS/ape/platform.c:45-65 | no store into a payload damages the header list |
| `Heap.Allocator.Malloc` | jordyOS/ape/platform.c:52-67 | in the arena's bytes: null exactly when no free block holds the rounded size; otherwise an aligned live block of that size at the first fit; all live bytes kept |
| `Heap.Allocator.Free` | jordyOS/ape/platform.c:68-76 | in the arena's bytes: the block is released and joined with free neighbours; all other live bytes kept |
| `Heap.Allocator.Realloc` | jordyOS/ape/platform.c:77-85 | all cases of realloc: when it returns null, the same pointer or that of the first fit; the payload moves along, all other live bytes are kept, and a failure keeps them all |
| `Heap.Allocator.Store` | jordyOS/ape/platform.c:43-46 | a program's store into a block it holds changes those bytes and leaves the heap in order |
| `HeapScript.Drive` | jordyOS/ape/platform.c:48-85 | after any program of allocations, stores, resizes and releases, every block it holds is live, apart from the others, and contains the bytes last stored there |
| `Heap.Allocator.Calloc` | jordyOS/ape/platform.c:86-91 | null exactly on overflow of the product or when nothing fits; otherwise zeroed bytes; all live bytes kept |
| `CacheCompetitive.LruCompetitive` | memory/lru-ml-sim.py:35-75 | on every trace, with k pages, LRU misses at most k times as often as any choice of victims |
| `CacheCompetitive.FifoCompetitive` | memory/lru-ml-sim.py:49-75 | so does FIFO |
| `CacheStack.RecencyOrder` | memory/lru-ml-sim.py:35-47 | the recency list has every requested page once, ordered by last use |
| `CacheStack.LruIsRecency` | memory/lru-ml-sim.py:35-47 | the LRU deque holds exactly the k most recently used pages in recency order |
| `CacheStack.Inclusion` | memory/lru-ml-sim.py:35-47 | a smaller LRU cache is the recent end of a larger one |
| `CacheStack.MoreIsBetter` | memory/lru-ml-sim.py:35-47 | more capacity never adds a miss |
| `CacheSim.SimulateLru` | memory/lru-ml-sim.py:35-47 | the loop's hits and the model's misses make the trace; set and deque agree throughout |
| `CacheSim.SimulateFifo` | memory/lru-ml-sim.py:49-59 | the same for FIFO |
| `CacheSim.SimulateRandom` | memory/lru-ml-sim.py:61-75 | the same for any draws of the generator; LRU and FIFO miss at most k times as often as this loop |
| `CacheSim.SimulateMl` | memory/lru-ml-sim.py:96-117 | the hits are those of the run that evicts the first page of least score, scores being the model's on recency and frequency as the trace alone defines them |
| `CacheSim.MlCompetitive` | memory/lru-ml-sim.py:96-117 | whatever the model answers, LRU and FIFO miss at most k times as often as that loop |
| `Scheduler.Admit` | cpu/CFS-vs-RRML1-sim.py:50-54 | exactly the arrived tasks enter the queue, in order, keeping the work balance |
| `Scheduler.Run` | cpu/CFS-vs-RRML1-sim.py:44-76 | for every admissible policy: each turn admits exactly what has arrived, runs the policy's pick for the policy's slice and requeues or finishes it; never a pick from an empty queue, every task finishes once with its work done, at most the sum of max(1, ceil(burst / slice)) rounds, bursts of zero included, and a final clock within n * 1e-9 of the ideal server's |
| `Scheduler.LeastRuntime` | cpu/CFS-vs-RRML1-sim.py:125-128 | CFS picks the first queued task of least virtual runtime |
| `Scheduler.Compare` | cpu/CFS-vs-RRML1-sim.py:44-90 | any two policies end within n * 1e-9 of each other |
| `Scheduler.PoliciesValid` | cpu/CFS-vs-RRML1-sim.py:87-136 | round robin, the learned picker under any predictions, and CFS are admissible |
| `Packet.FoldStep` | jordyOS/net/packet.c:14 | a carry fold shrinks the sum and keeps it modulo 65535 |
| `Packet.ComputeChecksum` | jordyOS/net/packet.c:11-16 | the loops compute the folded complement of the 32-bit word sum, odd lengths included |
| `Packet.ChecksumZero` | jordyOS/net/packet.c:11-16 | a checksum is zero exactly when the sum, kept in 32 bits, is a positive multiple of 65535 |
| `Packet.ChecksumVerifies` | jordyOS/net/packet.c:11-16 | filling the checksum in at an even offset makes the check come out zero for every buffer, of any length, even where the 32-bit sum wraps (section 1 of RFC 1071) |
| `Packet.SendDecodes` | jordyOS/net/packet.c:17-45 | a TCP segment with a well-formed data offset, wrapped by `send_to`, is decoded with the same addresses, ports, protocol and length |
| `Cidr.ParseNumber` | jordyOS/net/packet.c:46-56 | accepts exactly the non-empty digit strings of value at most the maximum, and returns the value |
| `Cidr.PrintNumber` | jordyOS/net/command.c:8-12 | the buffer filled from its end holds the decimal digits of the number |
| `Cidr.CountBits` | jordyOS/net/command.c:40-41 | the shifting loop computes the prefix length of a mask |
| `Cidr.PrefixLengthMeans` | jordyOS/net/fw_bpf.c:27-31 | that count reaches down to the lowest one bit: it is one, and all below are zero |
| `Cidr.PrefixLengthMask` | jordyOS/net/packet.c:72 | for a prefix mask that count is the prefix |
| `Cidr.MaskedAddress` | jordyOS/net/packet.c:72-73 | masking with a prefix mask clears the low bits and keeps the others |
| `Cidr.ParseCidr` | jordyOS/net/packet.c:57-75 | the one-pass parser computes the function that the next rows characterise |
| `Cidr.Accepted` | jordyOS/net/packet.c:57-75 | four octet texts between dots, then nothing or a slash and a prefix, denote their masked block |
| `Cidr.AcceptsExactly` | jordyOS/net/packet.c:57-75 | no other text is accepted |
| `Cidr.PrintIp` | jordyOS/net/command.c:31-36 | emits the four octets, most significant first, between dots |
| `Cidr.PrintCidr` | jordyOS/net/command.c:37-43 | emits the text of a block |
| `Cidr.RoundTrip` | jordyOS/net/command.c:37-43 | parsing the print of a parsed block returns it if and only if its mask is not zero |
| `FirewallModel.StablePermutation` | jordyOS/net/fw_bpf.c:39-58 | the serialized order has every rule once, blocks first, each kind in list order |
| `FirewallModel.Recoverable` | jordyOS/net/fw_bpf.c:45-51 | for prefix masks, addresses, masks, port, protocol, direction and action of a rule can be read back from its entry |
| `FirewallModel.WalkMeaning` | jordyOS/net/bpf/program.bpf.c:38-52 | the first-match walk over the table denies if any block matches, else takes the first ordinary match, else the default, and stops at the deciding rule's entry |
| `Firewall.Prepare` | jordyOS/net/fw_bpf.c:32-59 | the two nested passes fill policy table, header, prefix keys and index list in place with exactly these contents |
| `Firewall.Walk` | jordyOS/net/bpf/program.bpf.c:36-52 | the bounded loop returns the verdict of the first match and counts its rule, or drops on an unusable header or direction |
| `Firewall.RunMeaning` | jordyOS/net/fw_bpf.c:70-77 | walk and counters together: the verdict is the policy's, and added back they raise exactly the deciding rule's hits by one |
| `Firewall.Adapter.Decide` | jordyOS/net/fw_bpf.c:78-86 | one policy decision end to end: verdict and hit counts, for enabled, disabled, unready, oversized and faulting cases |
| `Firewall.Adapter.Finish` | jordyOS/net/fw_bpf.c:75 | every rule's hits grow by its counter cut to 32 bits, with wrap-around |
| `PrefixTable.ScanIsMask` | jordyOS/net/bpf_vm.c:94-95 | comparing the first p key bits is comparing the addresses under the prefix mask |
| `PrefixTable.ScanFinds` | jordyOS/net/fw_bpf.c:52-56 | for every rule list, the scan of the serialized keys finds an entry exactly when some block covers the address: the longest, the earliest on ties |
| `PrefixTable.EarlyLookup` | jordyOS/net/bpf_vm.c:76-109 | the lookup helper on the prefix map: null when no block covers the address, else the address of a value holding the number of the longest covering block |
| `PrefixTable.PreparedLists` | jordyOS/net/fw_bpf.c:52-64 | the tables `prepare` fills are the ones that map needs |
| `PrefixTable.SourceBlocks` | jordyOS/net/fw_bpf.c:27-57 | for rules as `net_cidr` makes them: an entry exactly when some block has (ip & mask) = source, the longest, the earliest on ties |
| `PrefixTable.NormalExactly` | jordyOS/net/fw_bpf.c:27-31 | the scan means mask-and-compare for all addresses if and only if the mask is a prefix mask and holds the source |
| `PrefixTable.ParsedIsNormal` | jordyOS/net/packet.c:72-73 | every parsed block is of that form |
| `UserImage.Embed` | jordyOS/tools/embed_user.py:17-37 | the loop accepts exactly the header lists that meet the range, permission, overlap and entry conditions, and returns their load segments |
| `UserImage.AcceptedUsable` | jordyOS/tools/embed_user.py:26-37 | an accepted list has what the kernel relies on |
| `UserImage.NoSharedPage` | jordyOS/tools/embed_user.py:31-33 | segments that pass the overlap test share no page, in whatever order they come |
| `UserImage.OverlapExact` | jordyOS/tools/embed_user.py:31-33 | the test rejects if and only if a page is shared or an empty segment lies inside the pages of another, never both |
| `UserImage.EmptyRejected` | jordyOS/tools/embed_user.py:31-33 | a list turned down although no page is shared |
| `PageTables.MappedOnce` | jordyOS/isolation.c:87-97 | for an accepted image no page is mapped twice |
| `PageTables.MappingSafe` | jordyOS/isolation.c:87-97 | every mapping leads to an aligned frame of its own slot past the page tables, is not writable and executable, and is not the guard page |
| `PageTables.FramesDistinct` | jordyOS/isolation.c:87-97 | distinct mappings of a process have distinct frames |
| `PageTables.SlotsApart` | jordyOS/isolation.c:16-25 | two slots share no frame |
| `PageTables.EncodeBits` | jordyOS/isolation.c:79 | the bitwise or of frame and flags is the entry |
| `PageTables.EncodeDecodes` | jordyOS/isolation.c:79 | frame and permissions can be read back from an entry; an empty entry grants nothing |
| `Isolation.WalkWindow` | jordyOS/isolation.c:83-86 | a user access gets past the upper levels exactly inside the user window, and reaches the process's own tables |
| `Isolation.MapPage` | jordyOS/isolation.c:77-80 | adds one mapping to what the tables show and touches no other page |
| `Isolation.Process.Prepare` | jordyOS/isolation.c:81-97 | the tables filled in place show exactly the model's mappings under linked upper levels |
| `Isolation.ProcessesIsolated` | jordyOS/isolation.c:81-97 | whatever two processes access, they never meet in physical memory, and neither reaches page tables |
| `Isolation.NoAlias` | jordyOS/isolation.c:87-97 | distinct user addresses of a process are distinct bytes of memory |
| `Isolation.WriteXorExecute` | jordyOS/isolation.c:90-97 | a byte the user can write is marked no-execute and is not in the startup page |
| `Isolation.GuardUnmapped` | jordyOS/isolation.c:94-97 | no access to the page below the stack is granted |
| `Isolation.UserRange` | jordyOS/isolation.c:105-115 | true if and only if the range is empty or the processor would grant the user every byte of it, for writing if asked |
| `Isolation.UserString` | jordyOS/isolation.c:116-123 | succeeds exactly on readable NUL-terminated strings that fit, and copies them |

## Left out

- TcpTimers.PacingBound: not for the last 536 seconds of the 64-bit microsecond clock, where it is false; `TcpClock.PacingExactly` is the exact boundary.
- PrefixTable.SourceBlocks: for rules as `net_cidr` makes them; `ScanFinds` is the statement for arbitrary rules and `NormalExactly` the exact boundary.
- Heap.Allocator.Free: the pointer must be null or a live payload, as C demands; double and wild frees are not modelled.
- TCP: the delivery-rate record fed to the controller, the statistics counters, the error texts, and the contents of pure ACK, probe and RST segments (their effect on the state is modelled, they are not part of `wire`).
- The LARP controller, the upstream ebpfw `matches`, `count` and XDP program, and the compiled bytecode: not part of this model; the policy program is modelled from its source.
- The aliasing of map buffers in the adapter (EARLY4 and EARLY6 share theirs; all but one map are read-only).
- `send_to` after the frame is filled: the outgoing policy call and the driver.
- `fw_add`, `fw_delete`, the command parser and the allowed/denied totals: easy members beside the rule table.
- Loading segment bytes into the slot, the startup record, and the ELF header checks before the program headers.
- Negative bursts in the scheduler, which no workload has; floating-point rounding (exact reals instead), CFS with a zero weight, and the summary statistics.
- C strings are sequences without NUL; the number parser's text ends where the sequence does.
- Training, prediction, trace and workload generation, plotting, and the near copies memory/lru-sim-cache.py and cpu/CFS-vs-RRML2.py.
- ARP, the network card, clock calibration, GUI, keyboard, serial, shell loops, RAM file system, formatting and FILE emulation, boot and interrupt assembly.
