# nfqcooldown, verified in Dafny

nfqcooldown decides, packet by packet, what happens to IPv4/TCP traffic that the kernel queues for it.
This project models its four decision makers and proves what they promise:

- **The payload splitter** (`Bytes`, `Checksum`, `Packet`, `PacketLayout`, `Payload`, `SplitLaws`): the parser, the
  in-place split of one segment into two, and the Internet checksum with deferred carries. A packet is accepted
  exactly when it is the layout of an unfragmented TCP segment with payload; both halves parse, verify and keep
  all other header octets; cutting twice does not depend on the order of the cuts.
- **The decoy and the split handler** (`FakePacket`, `FakeStream`, `Stream`, `SplitWindow`, `SplitHandler`,
  `SplitOutcomes`, `SplitRuns`): which packets pass, which are split in which order or preceded by a decoy, and what is remembered.
  Over every run the receiver's stream is what the sender sent.
- **The drop-mode limiter** (`Division`, `Algorithm`, `Counting`, `DropLimiter`, `DropRuns`, `DropHistory`,
  `DropInterleaving`):
  unbiased 64-bit draws, exact jitter arithmetic, and the per-client table with drop counting, forced accepts and
  expiry, also when cleanup falls between the steps of one packet.
- **The shaping pacer** (`Pacer`, `PacerRuns`, `PacerRate`, `PacerStructure`, `PacerCleanup`, `PacerRaces`,
  `PacerAtomic`, `PacerBursts`, `PacerHistory`, `PacerInterleaving`, `ShapeHandler`): a timed protocol between one handler, many sleeping goroutines
  and a cleanup loop. `PacerRuns` takes an arrival, a release and an expiry as one step each, for any number of
  clients; `PacerRaces` takes the steps of the program, for one client; `PacerAtomic` connects the two.

Code that the program runs on buffers, tables and objects is modelled by methods and classes that are proved
against functions on values; runs are folds of those functions over arbitrary sequences of events, and the main
results are about all runs. Octets are integers below 256; masks and shifts are written as quotients and
remainders, or with the recursive bit functions `AndNot`, `Or` and `Xor`, which are proved bit by bit. `uint16`,
`uint32` and `uint64` wrap-around is written out. Clocks, random values and the success of each send are inputs.

Where the code does not do what one would expect, the exact condition is proved:

- Splitting preserves the stream if and only if the packet's checksums verify and SYN is clear: a corrupted packet
  is given good checksums, and a SYN would be repeated (`Stream.SplitPreservesStream`).
- The decoy's wrong checksum is the complement of the right one, and verifies if and only if the right one is
  0x0000 (`FakePacket.FakeTCPVerifiesIff`; `FakeStream.FakeCanBeVisible` shows such a packet).
- The 32-bit checksum accumulator is right for all data of a length if and only if the length is at most 65537 words
  (`Checksum.RightIffNoOverflow`).
- The clock of a packet is read before its table is locked, so a cleanup in between reads a later one. Drop-mode
  cleanup whose clock is at most `lead` ahead is invisible in every run if and only if each positive cooldown and
  `lead` together are at most one tick longer than the time to live (`DropRuns.CleanupInvisibleIff`).
- The pass window's cleanup is invisible if and only if its clock is at most one tick ahead of a packet's
  (`SplitWindow.CleanupInvisibleIff`). With a longer lead the passes of a client are apart by what is left of the window
  and no more (`SplitWindow.PassesApartIff`).
- A drop goes uncounted when cleanup removes the client between its denial and the count. Wherever cleanups fall there
  is at most one drop more than the limit (`DropInterleaving.OneUncountedDrop`), and none if and only if the time to
  live exceeds the longest cooldown by what a cleanup's clock can be ahead of the packet in hand
  (`DropInterleaving.NoStarvationIff`).
- A segment's record lasts for its time to live if and only if the cleanup loop had not already found an earlier record
  of it expired (`SplitRuns.RecordLastsIff`): the loop then deletes the new record.
- The documented minimum interval between released packets of a client (`--burst-interval`) does not hold when a
  timer wakes late: an arrival that finds a release overdue is accepted in front of it. In undivided steps, after a run
  that was prompt so far and an arrival, spacing survives every possible wake-up if and only if the arrival did not
  overtake a due release (`PacerRate.SafeIffNotOvertaking`, `PacerStructure.LateTimerBreaksSpacing`). However late timers are, in undivided
  steps and without expiry, releases form chains (`PacerStructure.ReleasesFormChains`), and every window shorter than
  the interval holds at most n releases of a client if and only if delayed packets are limited to fewer than n
  (`PacerBursts.BurstBoundIff`): the limit is all that bounds a burst.
- With prompt timers and undivided steps the interval holds in every run, and cleanup is invisible, if and only if the
  interval is at most one tick longer than `--cleanup-after` (`PacerCleanup.PromptSpacingIff`,
  `PacerCleanup.ExpiryInvisibleIff`).
- The steps are divided, though. The handler reads the clock, loads the client's pacer and enters its critical section
  one after the other, and the cleanup tests and deletes one after the other. Deleting an entry is safe, whatever
  careful steps follow, if and only if none is pending, the last release is an interval old both now and on the clock of
  a handler that has yet to load the pacer, and a handler that has loaded it will drop its packet or accept it on a clock
  an interval old (`PacerRaces.DeleteSafeIff`). Four runs show how the program misses this, all with prompt timers: a
  packet between test and delete (`PacerRaces.DeleteAfterCheckBreaksSpacing`), a delete between the handler's clock
  reading and its load (`PacerRaces.DeleteUnderReader`), a delete under a handler that has loaded the pacer
  (`PacerRaces.DeleteUnderHandler`), and a release between the handler's clock reading and its critical section, which
  leaves the pacer last seen before its last release (`PacerRaces.SeenBeforeReleased`). If neither the handler's three
  steps nor the cleanup's two are interrupted and the interval is at most one tick longer than `--cleanup-after`, every
  delete is harmless (`PacerAtomic.UninterruptedIsCareful`).

## Model

| member | source | states |
|---|---|---|
| Bytes.AndNotBits | internal/payload.go:111 | the and-not used on the flags clears exactly the bits of its mask |
| Bytes.OrIsWord | cmd/nfqcooldown/main.go:468 | or-ing a shifted high octet with a low one puts the big-endian word together |
| Bytes.XorOnes16 | cmd/nfqcooldown/main.go:571 | exclusive or with 0xffff is subtraction from 0xffff |
| Checksum.OnesSumIsNorm | internal/payload.go:137-149 | adding up exactly and folding at the end gives the word-by-word ones' complement sum of RFC 1071, from any start value and for any data |
| Checksum.CodeChecksumRefinesOnesSum | internal/payload.go:137-149 | up to 65537 words the uint32 sum does not overflow and the result is the complement of the ones' complement sum |
| Checksum.RightIffNoOverflow | internal/payload.go:137-149 | for every length: the code is right for all data of that length if and only if it is at most 65537 words |
| Checksum.FoldCarries | internal/payload.go:146-148 | the fold loop ends and yields the representative modulo 0xffff that keeps zero and non-zero apart |
| Checksum.InternetChecksum | internal/payload.go:137-150 | the loop computes the wrapped sum's complement for all data, and the RFC 1071 checksum up to 65537 words |
| Checksum.InternetChecksumOfMain | cmd/nfqcooldown/main.go:465-478 | the second copy computes the same function as the first |
| Checksum.ComplementVerifies | internal/payload.go:122-134 | storing the checksum in its zeroed field makes the checksum of the whole zero, also when the rest sums to zero |
| Packet.ParseDescribes | internal/payload.go:33-83 | parsed metadata has consistent lengths inside the packet and points at the sequence number and flags it reports |
| Packet.ParsedHeaderLengths | internal/payload.go:38-63 | header lengths are whole words between 20 and 60 octets and the payload starts after both |
| PacketLayout.ParseEncode | internal/payload.go:33-83 | a packet laid out from header fields parses to exactly those fields, and is refused exactly when it is a fragment, not TCP or without payload |
| PacketLayout.EncodeDecode | internal/payload.go:33-83 | every accepted packet, options and trailer included, is the layout of its own fields |
| Payload.CopyInto | internal/payload.go:99-100 | copying into a buffer replaces exactly the target range |
| Payload.PutUint16 | internal/payload.go:120 | the in-place 16-bit store is the field update |
| Payload.PutUint32 | internal/payload.go:112 | the in-place 32-bit store is the field update |
| Payload.PseudoHeaderAndSegment | internal/payload.go:128-133 | the scratch buffer is the pseudo-header followed by the segment |
| Payload.FixIPv4TCPChecksums | internal/payload.go:119-135 | the buffer afterwards is the packet with total length and both checksums recomputed |
| Payload.BuildFirst | internal/payload.go:98-114 | a fresh buffer holds the leading segment; the input is untouched |
| Payload.BuildSecond | internal/payload.go:102-115 | a fresh buffer holds the trailing segment; the input is untouched |
| Payload.SplitIPv4TCPPacket | internal/payload.go:87-117 | succeeds exactly for an offset strictly inside the payload of a packet that is long enough, with two fresh buffers; reports which check failed |
| SplitLaws.ChecksumsFrame | internal/payload.go:119-135 | only total length and the two checksum fields change, and the length is right |
| SplitLaws.ChecksumsCongruent | internal/payload.go:119-135 | the result does not depend on what the recomputed fields held before |
| SplitLaws.ChecksumsVerify | internal/payload.go:119-135 | both checksums verify for every header length, option content and payload parity |
| SplitLaws.VerifiesExactly | internal/payload.go:119-135 | the checksums that verify are those of RFC 1071 over the header, and over addresses, protocol 6, length and segment |
| SplitLaws.SegmentAbsorbs | internal/payload.go:95-115 | a segment built from the header of a segment is the one built from the first header |
| SplitLaws.ParseSegment | internal/payload.go:33-115 | a rebuilt segment parses to the original metadata with only sequence number, flags and lengths changed |
| SplitLaws.ClearPshFinBits | internal/payload.go:110-111 | exactly PSH and FIN are cleared |
| SplitLaws.CutSegments | internal/payload.go:87-117 | the two parts are the segments at Seq and Seq + splitAt mod 2^32 of the one header |
| SplitLaws.SplitParses | internal/payload.go:33-117 | both parts re-parse with the stated metadata and the payload cut at splitAt |
| SplitLaws.SplitKeepsHeaders | internal/payload.go:95-115 | every other header octet of both parts is the original's |
| SplitLaws.SplitVerifies | internal/payload.go:114-115 | the IPv4 and TCP checksums of both parts verify |
| SplitLaws.SplitIsAssociative | internal/payload.go:33-117 | cutting at a and the rest at b gives, octet for octet, the three packets of cutting at a + b and the front at a |
| FakePacket.TcpChecksumIPv4 | cmd/nfqcooldown/main.go:480-496 | returns the checksum of pseudo-header and segment with the field zeroed |
| FakePacket.CorruptChecksum | cmd/nfqcooldown/main.go:571-574 | the corrupted value is the complement, always differs, and the guard never fires |
| FakePacket.FillFake | cmd/nfqcooldown/main.go:535-558 | the decoy's buffer holds the headers and the copied or TLS-like payload |
| FakePacket.BuildFake | cmd/nfqcooldown/main.go:535-576 | the buffer ends up as the decoy with good IPv4 and corrupted TCP checksum |
| FakePacket.CloneWithFakePayloadAndBadTCPChecksum | cmd/nfqcooldown/main.go:498-578 | which packets yield a decoy, of which length and content; for parsed packets it succeeds exactly under the condition of DecoyExactly, with exactly that packet |
| FakePacket.DecoyExactly | cmd/nfqcooldown/main.go:519-576 | a decoy for a parsed packet exists exactly for mode copy, or for the TLS mode with 5 octets, or more and filler; octet by octet it is the header and the payload's own octets or the record header and the filler |
| FakePacket.ComplementRestores | cmd/nfqcooldown/main.go:567-576 | with the complement of its checksum field the decoy is the packet with recomputed checksums |
| FakePacket.FakeIPVerifies | cmd/nfqcooldown/main.go:560-565 | the decoy's IPv4 checksum verifies |
| FakePacket.FakeTCPVerifiesIff | cmd/nfqcooldown/main.go:567-576 | the decoy's TCP checksum verifies if and only if the valid one is 0x0000 |
| FakeStream.FakeBodyParses | cmd/nfqcooldown/main.go:535-576 | the decoy parses with the flow, sequence number and flags of the original |
| FakeStream.FakeInvisibleIff | cmd/nfqcooldown/main.go:535-576 | a receiver sees nothing of the decoy if and only if the valid checksum is not 0x0000 |
| FakeStream.FakeCanBeVisible | cmd/nfqcooldown/main.go:567-576 | a concrete packet whose decoy is accepted by a receiver |
| Stream.SplitViews | internal/payload.go:85-117 | what each half contributes, whatever the original's checksums were |
| Stream.SplitPreservesStream | internal/payload.go:85-117 | the halves contribute the same octets, SYN and FIN as the original if and only if it verified and had no SYN |
| SplitWindow.SplitPayloadWindowState.Decide | cmd/nfqcooldown/main.go:426-440 | the whole new table and both results for known and unknown clients |
| SplitWindow.SplitPayloadWindowState.Cleanup | cmd/nfqcooldown/main.go:442-454 | exactly the entries older than the time to live go, and their number is returned |
| SplitWindow.CleanupIsInvisible | cmd/nfqcooldown/main.go:426-454 | cleanup anywhere in a run whose clock is at most one tick ahead of the packets after it never changes whether a packet is split |
| SplitWindow.CleanupInvisibleIff | cmd/nfqcooldown/main.go:426-454 | it is invisible in all runs if and only if its lead is at most one tick |
| SplitWindow.WindowGuarantee | cmd/nfqcooldown/main.go:426-454 | for every lead of the cleanup's clock: passes of a client are at least the window apart, or what the lead leaves of it, and every split lies strictly inside a window opened by a pass |
| SplitWindow.PassesApartIff | cmd/nfqcooldown/main.go:426-454 | for every lead, passes are that far apart in all runs and no farther |
| SplitHandler.Handler.HandlePayload | cmd/nfqcooldown/main.go:663-706 | the handler's tables, wire and goroutines after a packet are those of the handler function |
| SplitHandler.Handler.ActivePayload | cmd/nfqcooldown/main.go:706-746 | the same for the decoy branches, failures included |
| SplitHandler.Handler.SplitPayload | cmd/nfqcooldown/main.go:748-813 | the same for both split orders, probe mode and every failing send |
| SplitHandler.Handler.SendWaiting | cmd/nfqcooldown/main.go:801-811 | the goroutine sends its part, or forgets its key |
| SplitHandler.Handler.TestSeen | cmd/nfqcooldown/main.go:1348-1350 | the cleanup loop marks a key exactly if its record is older than the time to live |
| SplitHandler.Handler.DeleteSeen | cmd/nfqcooldown/main.go:1351 | the marked key is forgotten, whatever is recorded for it by then |
| SplitHandler.Handler.CleanupSeen | cmd/nfqcooldown/main.go:1348-1355 | a pass that the handler does not interrupt removes exactly the keys older than the time to live |
| SplitOutcomes.PassOutcome | cmd/nfqcooldown/main.go:664-691 | a packet that is not parsed, is marked, or agrees in flow, sequence number and length with a record goes out as it is, and nothing else changes |
| SplitOutcomes.WindowOutcome | cmd/nfqcooldown/main.go:693-703 | a packet that opens a pass window goes out as it is; it alone is recorded, by flow, sequence number and length |
| SplitOutcomes.SplitOutcome | cmd/nfqcooldown/main.go:748-813 | what the wire and the waiting parts gain from a split: forward the first part, with the second one waiting or dropped by probe mode; in reverse the decoy, the second part and the first; each verifies and carries its range of the payload at its sequence number |
| SplitOutcomes.SplitRecords | cmd/nfqcooldown/main.go:706-800 | exactly the whole segment and its second part are added to the records, by flow, sequence number and length |
| SplitOutcomes.DecoyOutcome | cmd/nfqcooldown/main.go:714-746 | forward with a decoy: the decoy and the whole packet go out, and the packet stays recorded unless its verdict failed |
| SplitOutcomes.NoDecoyOutcome | cmd/nfqcooldown/main.go:714-728 | if the decoy cannot be made or sent, the packet goes out as it is and leaves no record |
| SplitOutcomes.TooShortOutcome | cmd/nfqcooldown/main.go:748-754 | a packet too short to be split goes out as it is, after the decoy if there is one, and leaves no record |
| SplitOutcomes.FirstSendFails | cmd/nfqcooldown/main.go:765-794 | if the first send fails, the whole packet goes out and neither it nor its second part is recorded |
| SplitOutcomes.LastSendFails | cmd/nfqcooldown/main.go:780-785 | if the verdict fails in reverse, the whole packet follows the second part and only that is recorded |
| SplitOutcomes.SenderOutcome | cmd/nfqcooldown/main.go:801-811 | a waiting part is sent as it is, or lost and its record removed |
| SplitOutcomes.ExpiryOutcome | cmd/nfqcooldown/main.go:1348-1351 | an undisturbed test and delete remove exactly a record older than the time to live |
| SplitRuns.StreamConserved | cmd/nfqcooldown/main.go:663-813 | over every run, mode and failure, what is on the wire, waiting or lost is exactly what came in |
| SplitRuns.StreamDelivered | cmd/nfqcooldown/main.go:663-813 | whatever is lost, repeated or reordered on the way, a receiver gets nothing that was not sent, and gets everything once all second parts are out and nothing is lost |
| SplitRuns.DecoyInvisible | cmd/nfqcooldown/main.go:716-736 | a decoy for a packet of fitting length contributes nothing unless its valid checksum is 0x0000 |
| SplitRuns.RunRemembers | cmd/nfqcooldown/main.go:687-706 | a key stays recorded over any run within its time to live that has no failure branch for it, unless it was marked for deletion before |
| SplitRuns.RecordLastsIff | cmd/nfqcooldown/main.go:1348-1351 | it does so in all those runs if and only if it was not marked |
| SplitRuns.RetransmissionPasses | cmd/nfqcooldown/main.go:687-691 | a recorded segment passes unchanged and changes no table |
| SplitRuns.SplitIsNotRepeated | cmd/nfqcooldown/main.go:687-800 | after a successful split, with or without a decoy, every segment that agrees in flow, sequence number and length with the whole one or its second part passes unchanged over any run in which the records last |
| SplitRuns.HandlerWindow | cmd/nfqcooldown/main.go:693-704 | the handler's window table and its pass and split decisions are those of the window's own runs |
| SplitRuns.HandlerKeepsWindow | cmd/nfqcooldown/main.go:693-704 | over any handler run in clock order and for every lead of the cleanup's clock, passes of a client are that gap apart and every split lies strictly inside a window |
| Algorithm.NegatedRemainder | internal/algorithm.go:104 | negation and remainder in 64-bit arithmetic give 2^64 mod size |
| Algorithm.RandomUint64Inclusive | internal/algorithm.go:96-111 | returns the first accepted value of the stream reduced modulo the size, never above max |
| Algorithm.DrawIsUniform | internal/algorithm.go:103-110 | every result has exactly floor(2^64 / size) accepted preimages |
| Algorithm.MostValuesAreAccepted | internal/algorithm.go:104-109 | more than half of all 64-bit values are accepted |
| Algorithm.JitterIsExact | internal/algorithm.go:48-78 | jitter is max(base, 0) - jitter + raw over the integers, clamped to the range of a duration, with no wrap-around |
| Algorithm.JitterIsUniform | internal/algorithm.go:58-77 | every offset in [-jitter, jitter] is drawn in equally many ways |
| Algorithm.RandomIsUniform | internal/algorithm.go:27-39 | every duration in [min, max] comes from one draw, in equally many ways, without overflow |
| Algorithm.RandomIsExact | internal/algorithm.go:27-39 | for all bounds the draw is added to the lower one, or to zero, without overflow |
| Algorithm.AcceptedExactly | internal/algorithm.go:113-148 | which configurations are accepted, mode by mode |
| Algorithm.ConfiguredExactly | internal/algorithm.go:113-148 | the limit of the draw and the cooldown it becomes, in the configured values |
| Algorithm.GivesExactly | internal/algorithm.go:113-148 | the set of cooldowns an accepted configuration can give, in the configured values |
| Algorithm.NextIsBounded | internal/algorithm.go:27-148 | a validated algorithm stays between its shortest and longest cooldown and reaches both |
| DropLimiter.State.Decide | internal/state.go:34-60 | allowed exactly for unknown or expired clients, with the whole new table; otherwise nothing changes |
| DropLimiter.State.IncDrop | internal/state.go:107-119 | counts a drop of a known client and returns the count |
| DropLimiter.State.ForceAccept | internal/state.go:121-141 | restarts the client's cooldown with a new draw and no drops |
| DropLimiter.State.Cleanup | internal/state.go:78-93 | removes exactly the clients last seen before the cutoff and returns their number |
| DropLimiter.HandleSyn | cmd/nfqcooldown/main.go:1074-1127 | table and verdict after a packet are those of the packet function |
| DropHistory.VerdictByHistory | cmd/nfqcooldown/main.go:1074-1127 | over any run with invisible cleanup, the next verdict and cooldown are those that the verdicts so far call for: new or forgotten client, elapsed cooldown, forced accept after N drops in a row, or drop with the time that remains |
| DropRuns.NoStarvation | cmd/nfqcooldown/main.go:1089-1116 | with a limit N > 0 no client is dropped N + 1 times in a row and no drop count exceeds N, under any cleanup and forgetting |
| DropInterleaving.UninterruptedPacket | cmd/nfqcooldown/main.go:1074-1127 | decision, count and conclusion without interruption are the packet as one step |
| DropInterleaving.OneUncountedDrop | cmd/nfqcooldown/main.go:1089-1116 | with cleanup between any two table calls, no client suffers more than N + 1 drops in a row |
| DropInterleaving.NoStarvationIff | cmd/nfqcooldown/main.go:1089-1116 | the limit N itself holds over all such runs if and only if the time to live covers the longest cooldown and the lead of the cleanup's clock |
| DropRuns.CleanupIsInvisible | internal/state.go:34-93 | if no cooldown outlives an entry by the clock of a cleanup, which may be ahead of a packet's, cleanup anywhere leaves every verdict and drawn cooldown unchanged |
| DropRuns.CleanupInvisibleIff | internal/state.go:34-93 | exactly then: a positive cooldown that is longer for the given lead has a run in which cleanup shows |
| DropRuns.ConfiguredCleanupIsInvisible | internal/algorithm.go:113-148 | the same for every accepted configuration, its longest cooldown and any lead |
| DropRuns.DropModeRateBound | internal/state.go:38-59 | if cleanup is invisible, accepts of a client are at least c apart, so a window of length T holds at most 1 + floor(T / c) |
| DropRuns.DropsLeaveNoTrace | internal/state.go:38-59 | deleting any dropped packets from a run changes no other verdict |
| Counting.WindowBound | README.md:285 | events at least gap apart: a closed window of length T holds at most 1 + floor(T / gap) |
| Pacer.VerdictExactly | cmd/nfqcooldown/main.go:911-1012 | each of the five verdicts under exactly its condition on last release, pending flag, maximum delay and counter |
| Pacer.DelayIsExact | cmd/nfqcooldown/main.go:938-1012 | a delayed packet is due one interval after the last release, within the maximum delay, under the limit and with none pending |
| Pacer.BurstPacerState.Arrive | cmd/nfqcooldown/main.go:908-1013 | decision and all three fields after the handler's critical section |
| PacerHistory.ArrivalExactly | cmd/nfqcooldown/main.go:905-1069 | in every state: exactly when a packet joins those that sleep, when it is due, and what joins the log |
| PacerHistory.VerdictByHistory | cmd/nfqcooldown/main.go:885-1069 | over any prompt run, verdict and effect of the next packet are those that the client's last release, its sleeping packets and their number call for |
| PacerHistory.ExpiryByHistory | cmd/nfqcooldown/main.go:1381-1393 | over any prompt run, a client expires exactly if none of its packets sleeps and it was not heard of for longer than the time to live |
| PacerRate.StepInv | cmd/nfqcooldown/main.go:885-1069 | every step without overtaking keeps the invariant that sleepers belong to the client's current, pending pacer and are due an interval after its last release |
| PacerRate.ShapeRateBound | cmd/nfqcooldown/main.go:905-1069 | with prompt timers and no expiry before the interval is over, releases of a client are an interval apart and a window of length T holds at most 1 + floor(T / interval) |
| PacerRate.SafeIffNotOvertaking | cmd/nfqcooldown/main.go:911-915 | after an arrival, spacing survives every wake-up if and only if the arrival did not overtake a due release |
| PacerStructure.ReleasesFormChains | cmd/nfqcooldown/main.go:911-1053 | without promptness and expiry: immediate releases keep the interval from all earlier ones, and each delayed release is the unique delayed child of one at least an interval earlier |
| PacerStructure.ChainPace | cmd/nfqcooldown/main.go:911-1053 | the n-th release of a chain comes at least n intervals after its immediate head |
| PacerStructure.LateTimerBreaksSpacing | cmd/nfqcooldown/main.go:911-914 | a run with one late timer whose releases are one tick apart |
| PacerBursts.RunBounded | cmd/nfqcooldown/main.go:905-1069 | without promptness and expiry: with a limit M, a window shorter than the interval holds at most M + 1 releases of a client, and fewer the more of its sleepers from before the window remain |
| PacerBursts.BurstBoundIff | cmd/nfqcooldown/main.go:905-1069 | such windows hold at most n releases in all those runs if and only if there is a limit and it is below n |
| PacerCleanup.ExpiryIsInvisible | cmd/nfqcooldown/main.go:1378-1396 | expiry anywhere in a prompt run leaves every verdict, delay and release unchanged |
| PacerCleanup.ExpiryInvisibleIff | cmd/nfqcooldown/main.go:1378-1396 | it does so in all prompt runs if and only if the interval is at most one tick longer than the time to live |
| PacerCleanup.PromptSpacingIff | cmd/nfqcooldown/main.go:905-1069 | releases keep the interval in all prompt runs if and only if the same holds |
| PacerRaces.CarefulRateBound | cmd/nfqcooldown/main.go:875-1069 | in the program's own steps, with prompt timers and harmless deletes, releases keep the interval and the window bound |
| PacerRaces.DeleteSafeIff | cmd/nfqcooldown/main.go:1381-1393 | after any careful run, a delete is safe whatever careful steps follow if and only if it is harmless |
| PacerRaces.DeleteAfterCheckBreaksSpacing | cmd/nfqcooldown/main.go:1384-1392 | a run in which a packet is accepted between the cleanup's test and delete, and the next one a tick later |
| PacerRaces.DeleteUnderReader | cmd/nfqcooldown/main.go:875-905 | a run in which test and delete are not interrupted, but the handler has read the clock and not yet loaded the pacer |
| PacerRaces.DeleteUnderHandler | cmd/nfqcooldown/main.go:905-908 | a run in which test and delete are not interrupted, but the handler has loaded the pacer |
| PacerRaces.SeenBeforeReleased | cmd/nfqcooldown/main.go:875-909 | a run in which they are not interrupted and the handler is idle, but a release came after the clock reading of a packet settled later |
| PacerAtomic.UninterruptedIsCareful | cmd/nfqcooldown/main.go:1381-1396 | if no pacer expires before its interval is over and neither the handler's three steps nor the cleanup's two are interrupted, all deletes are harmless |
| PacerAtomic.RunsAreAtomic | cmd/nfqcooldown/main.go:877-1072 | each client of a run of undivided steps takes such an uninterrupted run of the program's own steps, with the same releases |
| PacerInterleaving.TurnedAway | cmd/nfqcooldown/main.go:885-983 | a pending flow or a counter at its limit turns a packet away and changes nothing, and nothing else does |
| PacerInterleaving.LifeOfDelayed | cmd/nfqcooldown/main.go:885-1069 | a delayed packet adds its flow, a goroutine and one to the counter, and its end undoes all three |
| PacerInterleaving.InterleavingIsSafe | cmd/nfqcooldown/main.go:885-1069 | in every interleaving of single accesses the counter stays between 0 and its limit and counts the unfinished goroutines, and the pending set matches one to one the goroutines that have not deleted their flow |
| ShapeHandler.Handler.LoadOrStore | cmd/nfqcooldown/main.go:905-906 | the client's object, made and stored if it is missing |
| ShapeHandler.Handler.HandleSyn | cmd/nfqcooldown/main.go:878-1071 | objects, tables, counter and verdict after an arrival are those of the run step |
| ShapeHandler.Handler.ReleaseFlow | cmd/nfqcooldown/main.go:1048-1054 | the same for a release on the object the goroutine was started with |
| ShapeHandler.Handler.ExpireClient | cmd/nfqcooldown/main.go:1381-1396 | the same for one turn of the cleanup loop |

## Left out

- FakePacket.CloneWithFakePayloadAndBadTCPChecksum: does not promise which failing check an error names, as the error is only logged.
- ShapeHandler.Handler.ExpireClient: takes the cleanup's test and delete as one step, which the program does not; what follows from dividing it is `PacerRaces.DeleteSafeIff`.
- ShapeHandler.Handler.HandleSyn: takes clock reading, flow lookup, LoadOrStore, critical section, Store and counter as one step; `PacerRaces` divides clock reading, load and critical section, and `PacerInterleaving` divides the rest.
- PacerRaces.DeleteSafeIff: takes the flow lookup and LoadOrStore as one step, and a release and the deletion of its flow as one step; a packet that is dropped by the lookup in between changes no pacer, as if it had not come. The delay of a packet starts at its clock reading, so a goroutine that starts late counts as a timer that wakes late.
- SplitHandler.Handler.CleanupSeen: is a pass that the handler does not interrupt; in the runs of `SplitRuns` the test and the delete of each key are separate steps, because the handler can store a key again between them and the delete then loses the fresh record.
- DropLimiter.HandleSyn: takes the table calls of one packet as one step; `DropInterleaving` divides them.
- DropRuns.NoStarvation: holds for undivided packets; with a cleanup inside a packet the bound is `DropInterleaving.OneUncountedDrop`.
- Algorithm.RandomUint64Inclusive: reads a given finite stream and reports when it ends before a value is accepted; the program draws without end.
- Stream.SplitPreservesStream: the urgent pointer is no part of the stream; the program copies it to both halves.
- NFQUEUE, netlink, raw sockets and signals: foreign I/O; a log of sent packets with a success flag per send stands for them. Setting the verdict of a packet that passes unchanged is taken to succeed, as the program ignores its error.
- Packet marks and the reject mark: they go to the kernel and do not influence later decisions, except the skip mark, which is an input.
- The SYN parser and the whitelist: single-branch filters before the limiter and the pacer; runs consist of packets that pass them.
- Flags, logging, statistics and `lastEvent`: reporting only; validated limits appear as preconditions.
- Durations and times are unbounded integers; the saturation of Go's time subtraction after 292 years is not modelled.
- Delays between the sends of one packet: only the order of sends and the freedom of a waiting part to be sent at any later step are modelled.
- Capacity and aliasing of Go slices: a packet buffer is an array of its own length.
