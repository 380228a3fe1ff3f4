# vi_tools: verification of its algorithms

This project models, in Dafny, the five parts of vi_tools that hold real algorithms, and proves what
each of them is for. `dafny verify dfyconfig.toml` checks all of it.

**fstest** (`FsSignature`, `FsStore`, `FsTrace`, `FsRun`, `FsDetection`, `Fstest`). The program keeps nine
XOR words over a file while it overwrites it with random chains of blocks, and prints "OK" if the words
are zero after a final read-out. The file is a byte sequence that reads as zero past its end; the
operating system is a schedule of full, short, interrupted and failing answers, and a store that may
change by itself before every transfer. The methods of `Fstest` run on that store; they are proved to
perform exactly the block operations listed by `FsRun`, with the store's alterations in between. Over
such traces `FsTrace` proves one law of conservation: the words differ from the signature of the covered
bytes by the signature of everything the store did behind the program's back. So the verdict is "OK"
exactly when that, and what a cut-short first read missed, has a zero signature; no false alarms and the
exact detection power follow.

**udp_ts_seq_reply** (`UdpServer`, `UdpServe`, `UdpWire`, `UdpProbe`, `UdpMeasure`, `LossyChannel`,
`UdpLoss`). The server numbers the packets of each client; its maps are proved to refine the history of
arrivals. Probe, server and measuring side run as a transition system over two lossy channels that carry
the packets' bytes and prints the lines of the measuring loop. For every run, the two loss columns are
proved to be the true losses exactly while the server sees no gap; the two delay columns are proved to
miss the true one-way delays by half of any round trip so far and three milliseconds at most, whatever
the server's clock says, once some reply is a usable reference. The byte layout is fixed field by field
and proved to round trip.

**bpg2hevc** (`Escape`, `Bpg2hevc`). The escaping loop and its buffer, against the reader of section
7.3.1.1 of ITU-T H.265; the picture data after the unit's start code is the input's, unchanged.

**udptimeoutchecker** (`TimeoutSearch`). Doubling and bisection over an adversarial network, and the
median of three runs.

**timing_mach** (`Timespec`, `Itimer`; `Numbers` is shared). Arithmetic on `struct timespec` and
absolute-deadline timers.

Where code and documentation differ, the model follows the code:

- The comment above `cleanup` (fstest.c:253-257) says the file is zeroed; line 281 only reads it.
- `main` ignores a failure of the first `cleanup` (fstest.c:359). `FsRun.ShortPreread` and `Fstest.Run`
  say what the verdict then means.
- The sample in the repository's README numbers replies from 1; the server starts at 0
  (udp_ts_seq_reply.cpp:90-105).
- The carry tests of the probe and of `basets2` use `>` (udp_ts_seq_reply.cpp:178 and 321), so a full
  second may stay in `tv_nsec`. It does no harm to the delays (`UdpMeasure.DelayMeaning`) and makes the
  sleep malformed exactly on whole seconds (`UdpProbe.RefusedSleep`).
- The port is put together from chars (udp_ts_seq_reply.cpp:277); `UdpWire.PortRoundTrip` gives its
  exact value for signed and for unsigned chars.

Some properties that the programs suggest hold only under a condition. Each condition is proved to be
exact, and a concrete input shows that it can fail:

- A changed byte is noticed by fstest unless its block is between its read and its write
  (`FsDetection.OneByteIsSeen`, `OneByteExample`); swapped bytes are noticed unless they are equal, both in
  such a block, or both outside it at positions that agree modulo 256 (`SwapIsSeen`, `SwapExample`).
- After a first read that was cut short, an honest store passes only if the part not read has a zero
  signature (`FsRun.ShortPreread`, `ShortPrereadExample`).
- The delay columns ignore the server's clock once, and only once, some reply has taken less than 2^32-1
  milliseconds (`UdpMeasure.OffsetIndependence`, `OffsetShowsExample`).
- The loss columns are the true losses while, and only while, the server has seen no gap
  (`UdpLoss.ColumnsExact`, `ColumnsExample`).
- The sleeps between packets are well-formed except on whole seconds (`UdpProbe.RefusedSleep`,
  `RefusedSleepExample`), and the port is exact except with signed chars and a low byte of 128 or more
  (`UdpWire.PortRoundTrip`, `PortExample`).

## Model

| member | source | states |
|---|---|---|
| FsSignature.State.UpdateXor | fstest.c:61-69 | in place, each word takes in the byte's share: the byte if its position has the word's bit, word 8 always |
| FsSignature.WordConcat | fstest.c:52-69 | the signature of two stretches is the XOR of theirs, each at its own position |
| FsSignature.WordLinear | fstest.c:52-69 | the signature of a byte-wise XOR is the XOR of the signatures |
| FsStore.OverwriteConcat | fstest.c:98-100 | two short writes back to back equal one write |
| FsStore.SafeFileop | fstest.c:77-103 | for every schedule of short, interrupted and end-of-file answers a read fills the buffer with the zero-extended slice and a write leaves exactly its bytes in the file; it fails exactly when it consumes a hard error, with a known part done |
| FsTrace.StepConserves | fstest.c:115-139 | one block operation leaves the discrepancy between signature and covered bytes unchanged; an alteration of the store changes it by its own signature |
| FsTrace.DriftConserved | fstest.c:115-139 | over any trace the discrepancy moves by exactly the signature of all alterations of covered bytes |
| FsTrace.OneAlteration | fstest.c:115-139 | a single alteration drifts by what it did to the covered bytes, also if later writes wipe it out |
| FsTrace.MidBlockAlteration | fstest.c:115-139 | an alteration between the read and the write of a block counts as it is outside the block and is lost inside it |
| FsRun.SpotsShape | fstest.c:212-236 | closed form of a chain: as many equal blocks side by side as asked for and fit (empty ones always fit), then, if not all did, one at offset 0 that ends it |
| FsRun.RoundOpsMean | fstest.c:193-238 | what a chain does, from the draw alone: it starts at abs(offset) mod size, its blocks of length mod max_blocksize bytes lie side by side, one that would end past size lies at 0 and is the last, and otherwise there are repetitions mod max_chainlen + 1 of them |
| FsRun.BlockMeans | fstest.c:151-181 | the bytes of a block are those drawn, or repeat with period 1 or 4, by mode |
| FsRun.RunMeans | fstest.c:359-371 | a run reads block after block from the start, then does the chains of the draws in their order and nothing else, then reads all blocks of the span |
| FsRun.ReadLengths | fstest.c:264-288 | the first read takes the least number of blocks that pass min(size, st_size+max_blocksize), the last one the least that pass size |
| FsRun.ChainConserves | fstest.c:193-238 | no chain, for any random draw, changes the discrepancy over the span |
| FsRun.SpotsBelow | fstest.c:202-216 | every block of a chain ends inside the span (size/max_blocksize+1)*max_blocksize, also when it is longer than size or wraps to 0 |
| FsRun.PairedCovers | fstest.c:115-139 | at every moment of the chains all positions are covered except those of a block between its read and its write |
| FsRun.RunCovers | fstest.c:359-371 | a run covers before it writes and ends with nothing covered, so every byte that was taken in is taken out |
| FsRun.PrereadSuffices | fstest.c:264-288 | pre-reading up to min(size, st_size+max_blocksize) misses nothing of the span's signature |
| FsRun.FinalSignature | fstest.c:359-380 | for any interleaving of a run with alterations, the nine final words are the signature of what the first read was to read but did not, XOR that of all alterations of a byte before its final read and after its first one (or the start, if it has none) |
| FsRun.NoFalseAlarm | fstest.c:359-382 | for every file, every parameters, every draws and every early stop, a store that keeps what is written ends with nine zero words |
| FsRun.ShortPreread | fstest.c:359 | if the ignored first read is cut short, an honest store passes if and only if the part not read has a zero signature |
| FsRun.ShortPrereadExample | fstest.c:359 | a file of one nonzero byte and no first read: an honest store fails |
| FsRun.VerdictOnDrift | fstest.c:375-382 | the verdict is "OK" if and only if the alterations add up to a zero signature |
| FsRun.FinalVerdict | fstest.c:375-382 | for any length of the first read: "OK" if and only if the XOR of the unread part and of the alterations has a zero signature |
| FsDetection.LowBits | fstest.c:64-67 | positions agree in their low n bits if and only if they are congruent modulo 2^n |
| FsDetection.TwoPositions | fstest.c:57-69 | damage at no more than two positions has a zero signature if and only if both XOR differences are equal and the positions agree modulo 256 |
| FsDetection.DetectionPower | fstest.c:375-382 | the same about the verdict of a whole run, for alterations that add up to damage at two positions |
| FsDetection.AlteredRunDrift | fstest.c:361-380 | a change of the store between two operations of the chains counts with the whole difference of the contents at the positions covered then |
| FsDetection.CoveredThenIs | fstest.c:115-139 | these are the whole span but the positions of a block between its read and its write |
| FsDetection.OneByteIsSeen | fstest.c:361-380 | changing one byte of the span between two operations of the chains fails the run if and only if the byte is covered then |
| FsDetection.OneByteExample | fstest.c:115-139 | one byte that changes between read and write of its block is missed |
| FsDetection.SwapIsSeen | fstest.c:361-380 | swapping two bytes passes if and only if they are equal, or both uncovered then, or both covered and their positions agree modulo 256 |
| FsDetection.SwapExample | fstest.c:361-380 | swapping two different bytes at 0 and 256 after the first read passes |
| Fstest.Register | fstest.c:121-131 | the loop adds exactly the block's signature to the nine words |
| Fstest.ReadIn | fstest.c:115-131 | reads a block, as the store is then, and takes it into or out of the words; a failure leaves words and file as they were |
| Fstest.WriteOut | fstest.c:115-139 | writes the block and takes it into the words; nothing past it is written |
| Fstest.InsertBlock | fstest.c:115-139 | performs the read and, unless it only reads, the write of the block, with whatever the store did before each; nothing past the block is written |
| Fstest.GenerateBlock | fstest.c:151-181 | fills the buffer in its four modes: random bytes (twice), one byte repeated, four bytes repeated |
| Fstest.ChooseSync | fstest.c:218-231 | it stops only for want of a random number it needs, and syncs for exactly floor(fsync_part*2^32/10^6) of the 2^32 numbers, always at 10^6, never at 0 |
| Fstest.ChainBlock | fstest.c:212-235 | one turn: the block at the offset, or at 0 as the last one; it fails on a hard error or for want of a random number for syncing, before anything is written |
| Fstest.WriteChain | fstest.c:212-236 | the loop over repetitions performs exactly the chain's operations, keeps to the span, and can also stop between blocks when the sync decision finds no random number |
| Fstest.InsertChain | fstest.c:193-238 | a call performs exactly the operations of its draw, at the places and of the length and number that FsRun.IsChain tells; it fails exactly on a hard error or a missing random number, at the start or between blocks |
| Fstest.ReadUpTo | fstest.c:279-288 | reads whole blocks as long as they start at or below size, without writing |
| Fstest.Cleanup | fstest.c:258-289 | reads exactly the first blocks that the mode asks for, never writes, and says how far it got |
| Fstest.Iterate | fstest.c:361-369 | performs the chains of all rounds up to the interrupt |
| Fstest.Verdict | fstest.c:375-382 | "OK" if and only if all nine words are zero |
| Fstest.Run | fstest.c:337-388 | the whole program performs exactly the run's operations with the store's alterations in between, and says "OK" exactly when the unread part and those alterations have together a zero signature; on an unaltered store it never changes a byte past the span and says "OK" on every schedule without hard errors |
| UdpServer.GapMeans | udp_ts_seq_reply.cpp:86-91 | on normal times the server renumbers after 61 seconds or more |
| UdpServer.RunLengthMeans | udp_ts_seq_reply.cpp:86-95 | the current run is the longest gap-free end of a client's arrivals |
| UdpServer.MapsRefineHistory | udp_ts_seq_reply.cpp:46-48 | both maps know exactly the clients seen, with last arrival and run length modulo 2^32 |
| UdpServer.NumbersRefineHistory | udp_ts_seq_reply.cpp:86-129 | over any interleaving of clients the number sent is the count, modulo 2^32, of the client's packets since its last gap; other clients have no effect |
| UdpServe.PutMasked | udp_ts_seq_reply.cpp:112-119 | the loop stores the bytes XORed with the mask and nothing else |
| UdpServe.BuildReply | udp_ts_seq_reply.cpp:65-124 | the in-place buffer work yields, for every packet, time and number in network byte order, the masked peer exactly if the packet has the signature, and the packet as it came |
| UdpServe.Server.Serve1 | udp_ts_seq_reply.cpp:50-130 | one packet, cut to 65514 bytes, is filed under its first four bytes (zeros if it has fewer), updates the maps as the numbering says and is answered with its number as UdpWire.IsReply tells; equal domains and 32-bit numbers are kept |
| UdpWire.GetTimePutTime | udp_ts_seq_reply.cpp:98-103 | every 64-bit second and 32-bit nanosecond count comes back from the wire, negative ones too |
| UdpWire.PutTimeDigits | udp_ts_seq_reply.cpp:98-103 | a time is 64 bits of seconds, high word first, then 32 bits of nanoseconds, in network byte order |
| UdpWire.XorByteBits | udp_ts_seq_reply.cpp:112-119 | masking turns exactly the bits that the mask has |
| UdpWire.MaskedTwice | udp_ts_seq_reply.cpp:107-119 | masking is undone by masking |
| UdpWire.PingLayout | udp_ts_seq_reply.cpp:156-165 | the fields of a packet of the probe, and zeros after them |
| UdpWire.ReplyMeans | udp_ts_seq_reply.cpp:65-124 | a reply to any packet, with or without signature: its length, time, number, peer bytes bit by bit, and the packet at its end |
| UdpWire.PingExample | udp_ts_seq_reply.cpp:156-165 | the bytes of one packet |
| UdpWire.ReplyExample | udp_ts_seq_reply.cpp:65-124 | the bytes of a reply to a packet with and to one without the signature |
| UdpWire.ReplyLayout | udp_ts_seq_reply.cpp:156-165 | where each field of probe and server lies in the reply |
| UdpWire.WireRoundTrip | udp_ts_seq_reply.cpp:258-293 | measure reads back id, both times, both numbers and the address, for all values |
| UdpWire.PacketRoundTrip | udp_ts_seq_reply.cpp:50-124 | also from a packet that the server has cut to 65514 bytes, it files the packet under its id, and measure reads back id, both numbers and both times |
| UdpWire.PortRoundTrip | udp_ts_seq_reply.cpp:277 | the port is exact, or 256 too small modulo 2^16 exactly when chars are signed and its low byte is 128 or more |
| UdpWire.PortExample | udp_ts_seq_reply.cpp:277 | with signed chars port 8080 comes out as 7824 |
| UdpProbe.DelayBound | udp_ts_seq_reply.cpp:486-491 | settings that main accepts, negative overheads included, delay by at most a second; the delay is positive if and only if a packet takes a microsecond at least |
| UdpProbe.PaceMeansKbps | udp_ts_seq_reply.cpp:137-137 | the delay is the time that the packet with its overhead takes at kbps kilobits a second, cut to whole microseconds; main refuses exactly the settings that would take a second and a microsecond or more |
| UdpProbe.WarmUpMeans | udp_ts_seq_reply.cpp:145-145 | the short packets are those of the first five seconds, up to five packets less |
| UdpProbe.Pacing | udp_ts_seq_reply.cpp:177-181 | after k packets the deadline is exactly the start plus k delays, with at most a full second of nanoseconds |
| UdpProbe.RefusedSleep | udp_ts_seq_reply.cpp:177-182 | the deadline is malformed for clock_nanosleep if and only if it is a whole second |
| UdpProbe.RefusedSleepExample | udp_ts_seq_reply.cpp:177-182 | 125 bytes at 1 kbps, started on a whole second: the first sleep is refused |
| UdpProbe.Prober.Turn | udp_ts_seq_reply.cpp:153-183 | a round sends the packet of its number, short while warming up, and keeps number and deadline those of the round count |
| UdpMeasure.Measurer.Handle | udp_ts_seq_reply.cpp:295-382 | one reply: the columns printed and the new variables; the reply counter grows by one modulo 2^32, the loss columns are seq1-seq2 and seq2-seq3, the delay columns sum to the whole milliseconds from sending to return, minrtt becomes the lesser |
| UdpMeasure.RttExact | udp_ts_seq_reply.cpp:303-305 | the round-trip time is the whole milliseconds between sending and return |
| UdpMeasure.LineMeaning | udp_ts_seq_reply.cpp:300-382 | the line of the n-th reply has seq1-seq2 and seq2-(n-1) modulo 2^32 as loss columns, and the milliseconds since the start of measuring |
| UdpMeasure.BaseForExact | udp_ts_seq_reply.cpp:310-324 | basets2 denotes start plus the clock gap, though its nanoseconds may be a full second |
| UdpMeasure.DelayMeaning | udp_ts_seq_reply.cpp:303-340 | the delay columns are the floor, in milliseconds, of the clock gap against that of the reply that last lowered minrtt, shifted by minrtt/2, and sum to the milliseconds from sending to return |
| UdpMeasure.DelayAccuracy | udp_ts_seq_reply.cpp:303-340 | for every constant offset of the server's clock the delay columns miss the true one-way delays by half of minrtt and three milliseconds at most |
| UdpMeasure.OffsetIndependence | udp_ts_seq_reply.cpp:307-340 | the columns are the same for every offset of the server's clock if and only if some reply so far was back less than 2^32-1 milliseconds after it was sent |
| UdpMeasure.OffsetShows | udp_ts_seq_reply.cpp:204-205 | until then a server clock one millisecond ahead moves the column by one |
| UdpMeasure.OffsetShowsExample | udp_ts_seq_reply.cpp:204-205 | so it does for a first reply after exactly 2^32-1 milliseconds |
| UdpMeasure.ReferenceFound | udp_ts_seq_reply.cpp:205-308 | there is a reference if and only if some reply was back less than 2^32-1 milliseconds after it was sent; until then minrtt keeps its first value |
| UdpMeasure.MinRttIsLeast | udp_ts_seq_reply.cpp:307-308 | minrtt is the least time from sending to return so far, in whole milliseconds, or its first value |
| UdpLoss.Reachable | udp_ts_seq_reply.cpp:153-383 | every reachable state of probe, server, channels and measuring side satisfies the invariant |
| UdpLoss.AnswerBytes | udp_ts_seq_reply.cpp:50-130 | the server files the bytes of the packet that arrives under our id, and measure reads both numbers and both times out of the bytes of the answer |
| UdpLoss.LossAttribution | udp_ts_seq_reply.cpp:295-339 | in every run, modulo 2^32, seq1-seq2 is the packets lost on the way there before this one plus those before the server's last renumbering, and seq2-seq3 the replies lost on the way back less those; exactly so for at most 2^32 packets |
| UdpLoss.ColumnsExact | udp_ts_seq_reply.cpp:300-339 | both columns are the true losses if and only if the server saw no gap between this client's packets so far |
| UdpLoss.ColumnsExample | udp_ts_seq_reply.cpp:300-339 | two packets 61 seconds apart, none lost: the second line claims 1 and -1 |
| UdpLoss.ColumnsMonotone | udp_ts_seq_reply.cpp:337-339 | the first column never decreases, the second only where the server has renumbered |
| UdpLoss.DelayAttribution | udp_ts_seq_reply.cpp:295-340 | in every run, from the bytes, the delay columns of a line sum to the whole milliseconds of its true journey and, once some reply was quick enough, miss the true one-way delays by half of any round trip so far and three milliseconds at most |
| Timespec.DiffExact | udp_ts_seq_reply.cpp:22-34 | the signed difference is exact for all times and normal for nearly normal ones |
| Timespec.MilliFloor | udp_ts_seq_reply.cpp:36-38 | milliseconds are rounded down, for negative times too |
| Timespec.Timespec.MonoAdd | timing_mach.h:113-122 | in place, also for a time added to itself |
| Timespec.SumExact | timing_mach.h:113-122 | on normal times the addition is exact and normal |
| Timespec.Timespec.MonoDiffLmr | timing_mach.h:69-88 | in place, the saturating difference left minus right |
| Timespec.Timespec.MonoDiffRml | timing_mach.h:91-110 | in place, the saturating difference right minus left |
| Timespec.MonoDiffExact | timing_mach.h:69-110 | on normal times both differences are exactly max(0, difference) |
| Timespec.SumOfDiff | timing_mach.h:69-122 | adding back a difference gives the later time |
| Itimer.SleepUntil | timing_mach.h:129-138 | a successful sleep never ends before the requested time, and where nothing delays it, right then |
| Itimer.Start | timing_mach.c:110-117 | the target is one step after the clock, or untouched on failure |
| Itimer.Step | timing_mach.c:119-126 | no wake-up precedes its target, and where nothing delays it, it is right then; the target moves by one step on success only |
| Itimer.NoDrift | timing_mach.c:119-126 | after any series of calls the target is exactly start plus successes times step, and normal |
| Escape.RoundTrip | bpg2hevc.c:66-80 | unescaping the unit gives the payload, followed by 0x80 if and only if the escaped form ended in 00 |
| Escape.ClosedWhenOdd | bpg2hevc.c:78-80 | that is so if and only if the payload ends in an odd number of zero bytes |
| Escape.BodyGuarded | bpg2hevc.c:66-80 | any two zero bytes in a row are followed by 03 and the last byte is not zero, so 00 00 00, 00 00 01 and 00 00 02 never occur |
| Escape.BodyFits | bpg2hevc.c:54-55 | the unit is at most 6+n+n/2+1 bytes long and fits the buffer of 6+2n |
| Escape.NextStartAfterUnit | bpg2hevc.c:144-147 | whatever follows, the first start code after the leading one is main's own, right at the unit's end |
| Escape.UnitHeader | bpg2hevc.c:63-64 | the two header bytes say unit type 48, layer 0, temporal id 0 |
| Escape.StreamRoundTrip | bpg2hevc.c:57-155 | a reader that splits the output at start codes and unescapes gets the payload back |
| Escape.RestFollows | bpg2hevc.c:142-153 | the next start code is 00 00 00 01, and all that follows it is the rest, unchanged |
| Escape.OutputExample | bpg2hevc.c:57-153 | one output byte by byte |
| Bpg2hevc.ReadUe7 | bpg2hevc.c:9-21 | reads at most five bytes of seven bits and leaves the rest |
| Bpg2hevc.Ue7Meaning | bpg2hevc.c:9-21 | for every input, well-formed or not: up to five bytes are taken from the front, all but the last marked, and the number is their seven-bit digits modulo 2^32 |
| Bpg2hevc.Ue7RoundTrip | bpg2hevc.c:9-21 | every 32-bit number is read back from its encoding, and nothing after it is consumed |
| Bpg2hevc.FieldsReadBack | bpg2hevc.c:40-49 | format, width, height and depth can be read back from the first ten bytes |
| Bpg2hevc.EscapeInto | bpg2hevc.c:66-77 | the loop over the two buffers appends the escaped payload and stays in bounds |
| Bpg2hevc.WriteUnit | bpg2hevc.c:54-84 | the buffer holds header, escaped payload and closing byte |
| Bpg2hevc.BuildMsps | bpg2hevc.c:24-86 | the payload is the ten fields and the SPS data read, as far as the input has it; the buffer holds its unit |
| Bpg2hevc.Convert | bpg2hevc.c:117-155 | the output is the unit, a start code and the rest of the input, which ends the output unchanged, also if the input is cut short |
| TimeoutSearch.Double | udptimeoutchecker.c:105-125 | phase 1 ends at 512 seconds or at the first three failures in a row; its record can be replayed attempt by attempt |
| TimeoutSearch.ClimbShape | udptimeoutchecker.c:105-125 | in such a record the timeout is a power of two, its failures come last, right before them is the success at half of it, and no other timeout failed three times in a row |
| TimeoutSearch.Bisect | udptimeoutchecker.c:127-143 | the attempts made replay as a bisection, each in the middle of the bracket left by the earlier ones, that leads to the answer with a gap of at most two seconds |
| TimeoutSearch.GapHalves | udptimeoutchecker.c:127-143 | in every such record, complete or not, the gap is a power of two, halved by each attempt |
| TimeoutSearch.BracketRespects | udptimeoutchecker.c:127-143 | all attempts at or below the lower end succeeded, all at or above the upper one failed, and an end that moved was reached |
| TimeoutSearch.OneExperiment | udptimeoutchecker.c:104-144 | the attempts made are exactly those of the two recorded phases that lead to the answer |
| TimeoutSearch.ExperimentBounds | udptimeoutchecker.c:104-144 | against any network at most 37 attempts, and the answer is 0, 1, 512 or even and at most 510 |
| TimeoutSearch.AlwaysBracketed | udptimeoutchecker.c:127-143 | against any network and after every attempt of the bisection, the gap is a power of two, the last answer at min_to was a success and that at max_to a failure |
| TimeoutSearch.ExperimentBrackets | udptimeoutchecker.c:104-144 | the last answer at the result was a success, and the last one just above it, at most two seconds more, a failure |
| TimeoutSearch.ExperimentUnderLoss | udptimeoutchecker.c:104-144 | behind a NAT with threshold T the answer is at most the ideal one, and equal if and only if no loss was decisive |
| TimeoutSearch.Sort3 | udptimeoutchecker.c:146-157 | sorts the three answers in place |
| TimeoutSearch.Probe | udptimeoutchecker.c:151-162 | prints the median of three experiments |
| TimeoutSearch.ProbeBounds | udptimeoutchecker.c:151-162 | at most 111 attempts |
| TimeoutSearch.ProbeUnderLoss | udptimeoutchecker.c:151-162 | the printed value is at most the ideal one, and equal if and only if at least two experiments had no decisive loss |

## Left out

- Fstest.Run: sizes of machine integers are not modelled (offset INT64_MIN, overflow of loop counters); size, max_blocksize and max_chainlen are positive, as the divisions demand; pwrite never returns 0.
- FsStore.SafeFileop: its use on the random source; all draws are arbitrary, and so is where the random source fails.
- Fstest.InsertBlock: fsync has no effect on the model; durability is not modelled.
- FsTrace.DriftConserved: alterations of the store happen before each read and each write of a block, not between the short transfers of one.
- UdpLoss.LossAttribution: other clients use other ids, and no channel duplicates or reorders packets.
- UdpLoss.DelayAttribution: the server's clock is a constant offset away from the client's; drift between them is left out.
- UdpWire.Decode: replies shorter than 46 bytes, which measure reads past, are not modelled.
- UdpProbe.Prober.Turn: the packet is a value, not the buffer that probe reuses; a delay of zero, on which probe divides, or less (`UdpProbe.DelayBound` says when); int overflow of the packet size times 8000; the choice of the id from the clock.
- UdpMeasure.Measurer.Handle: a reply is handled as decoded values, not in the receive buffer; the OUTAGE, NEW_IP, NEW_PORT and "clogged" messages and the number formatting.
- Itimer.SleepUntil: the emulation of timing_mach.h is modelled; the POSIX call promises the same.
- TimeoutSearch.Probe: try and serve1 of udptimeoutchecker.c are an arbitrary answer for each attempt; real delays and stale datagrams are left out.
- Bpg2hevc.BuildMsps: int overflow of the lengths. If the input is cut short the payload ends in arbitrary bytes after those read, as the unchecked fread leaves it.
- Bpg2hevc.Convert: the signature and alpha checks and the printing of flags; what the HEVC bits mean; the limit that section 7.4.2.1 of ITU-T H.265 puts on the byte after 00 00 03.
- timespec2secd and secd2timespec (floating point) and the Mach clock services.
- udppair, udpfilepecker, lease, mempig, runso, uksm_tease, dump_tc_stats, cgroup_memory_pressure_monitor and the scripts: relays and system plumbing.
- Sockets, fork, signals, option parsing: event lists, schedules or parameters stand for them.
