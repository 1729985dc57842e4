# Verified models of a network stack's schedulers, filters and codecs

This project models the algorithmic core of a NetBSD network stack that runs on
DPDK, and proves properties of it in Dafny. Nine parts are modelled, each in the
form the C code has: structures that are updated in place are classes with those
fields, loops are loops with invariants, and pure expressions are functions. Every
in-place method is proved against a function or a property of the state before the
call, and the main theorems are about those.

| part | files | main results |
|---|---|---|
| BSD-Compress for PPP (RFC 1977) | Bits, Lzw, LzwEnds, LzwGreedy, HashTable, BsdPacket, Mbufs, BsdComp, PppLink, PppLimit | `StreamFaithful`, `FaithfulIff`, `UndeterminedIff`, `CheckDecides`, `FirstIsLongest`, the hash table refines a finite map |
| BPF machine and validator | BpfPacket, BpfMachine, BpfOps, BpfTerms, BpfRules, BpfValidate, BpfFilter, BpfAccept | `Validate` decides acceptance, `Soundness`, `RuleMeaning`, `SameOnChainIff` |
| Weighted fair queueing | WfqRing, WfqFair, WfqLimits, Wfq | `Fairness`, `ReturnsIff`, `LongestHeaviest`, the in-place scheduler |
| H-FSC | HfscCurve, HfscExact, HfscRounding, HfscRestarts, HfscVirtual, HfscTree, HfscList, HfscLinks, HfscWalk, HfscPast, Hfsc, HfscRuns | `AllRestarts`, `AllPeriods`, `DeadlineNear`, `ActiveIff`, least deadline and least virtual time first |
| Spanning tree (IEEE 802.1D, 1998) | StpUpdate, Stp | `IdempotentIff`, `NoWorse`, `Hear`, safety over all runs |
| Token buckets and conditioner graph (two-rate marker of RFC 2698) | Meter, Conditioner | `Since`, `Window`, `MarkerWindow`, `KeepersPass`, termination of the graph loops |
| Packet classifier | Classifier | `Classify` refines a scan in order of precedence |
| Capture buffers | CaptureFormat, Capture | `Walk`, nothing accepted is lost or reordered |
| CBQ class tree | CbqTree, Cbq | `DepthIsHeight`, `Search`, the cutoff loop ends |

Options, Lists, Products and Marks hold what several parts share.

Conventions. Integers are unbounded; the widths that matter are written out (the
16-bit sequence number and timer values, the 32-bit accumulator and BPF registers,
32-bit addresses). The clock and everything that comes from outside (packets, messages,
link states, limits in force) are parameters. A buffer chain is a sequence of byte
sequences. The predicates of Marks, which are always true, mark the places where a
folded part of an invariant is used; folding keeps the other proofs small. Products
that only matter through their laws are written `Times` and `Whole`.

Where a promise of the code does not hold in general, the exact condition under which
it does is proved, next to a run or an input that fails:

- a stream is delivered: `FaithfulIff`, per packet `RoundTrip`, with `LastLost`;
- the receiver stays well formed: `UndeterminedIff`, with `StrayCode`;
- filters mean the same on chains: `SameOnChainIff` and `SafeOnChainIff`, with
  `SplitWord` and `OverflowDiffers`;
- fair queueing comes to an end: `ReturnsIff`, with `ZeroStops` and `HeavyStops`;
- a curve is the pointwise minimum of its restarts: `AllPeriods`, up to rounding that grows with
  the number of periods, with `ErrorsAdd`;
- virtual times increase: `BegunRises` and `RisesIff`, with `FallsBack`; link sharing
  takes the least: `Choose` while every class joined so, with `PassedOver`;
- a class keeps the earliest fit time of its children: `TightIff`, with `Waits`;
- a removal after a poll: the clauses of `Hfsc.Scheduler.Dequeue` and
  `Cbq.Scheduler.Dequeue`, with `PollPurgeRemove`, `PollDropRemove` and
  `PollDeleteRemove`;
- the spanning tree update settles: `IdempotentIff`, with `FreePath`;
- a notification has a root port: per tick the clause of `Tick`, with `EchoUproots` and
  `FreePathUproots`;
- a start makes the bridge the root: `Restart`, exact for one member without the
  protocol, otherwise with a sufficient condition for either outcome, and `StaleStart`;
- every packet has a verdict from the conditioner: `VerdictIff`, with `LinkToElement`;
- the search for a filter handle ends: `FullIff`.

To verify everything: `dafny verify dfyconfig.toml`.

## Model

| member | source | states |
|---|---|---|
| `PppLink.StreamFaithful` | netbsd/net/bsd-comp.c:452-660 | over every stream of packets and resets between peers in the same state, where packets are no longer than a buffer of the receiver or the codes too few for longer strings, each packet is delivered byte for byte and in order, and the peers end in equal states: dictionary, code width, sequence number, counters, ratio and checkpoint |
| `PppLink.ResetResynchronises` | netbsd/net/bsd-comp.c:289-297 | a reset of both ends brings any two well-formed peers of one code size back in step, whatever they held before, and a stream as above is delivered faithfully after it |
| `PppLink.Crossing` | netbsd/net/if_ppp.c:1172-1196 | one packet crosses the link between peers in step: whether it goes compressed, does not shrink, may not be sent compressed yet or is not eligible, the receiver delivers the original and ends in the sender's state, if none of its codes stands for more than a buffer of the receiver holds |
| `BsdPacket.DecompressOk` | netbsd/net/bsd-comp.c:795-1074 | whatever bytes arrive, the receiver's database is well formed afterwards, unless the outcome is undetermined |
| `BsdPacket.UndeterminedIff` | netbsd/net/bsd-comp.c:919-945 | for every database and packet the outcome is undetermined if and only if the packet has the expected number, some code accepted in it is two above the largest at its place, and a complete code follows that is neither CLEAR nor rejected nor, if an entry has it, longer than the unit size or a buffer allows |
| `BsdPacket.StrayCode` | netbsd/net/bsd-comp.c:919-929 | such a packet: on a fresh 9-bit receiver the codes 97, 258 and 97; the entry that the last one completes would be its own prefix |
| `Lzw.UndefinedIff` | netbsd/net/bsd-comp.c:919-945 | the same for the bits of a packet, from every state of the reader whose last code is CLEAR or has an entry |
| `Lzw.OwnPrefix` | netbsd/net/bsd-comp.c:1012-1045 | an entry made after a code that no entry has is its own prefix, so the dictionary would no longer be well formed |
| `PppLimit.FaithfulIff` | netbsd/net/bsd-comp.c:956-979 | every stream between two fresh peers is delivered if and only if the unit size is below a buffer (2048 bytes) or codes have at most 11 bits |
| `PppLimit.LastLost` | netbsd/net/bsd-comp.c:956-979 | otherwise the stream that fails: packets of one letter, each a byte longer than the last, and then one more of the longest |
| `PppLink.Carry` | netbsd/net/if_ppp.c:1427-1464 | the two in-place databases: the receiver delivers exactly the packet the sender was given, under the condition on sizes, and both databases represent the same state again |
| `PppLink.CarryAll` | netbsd/net/if_ppp.c:1172-1196 | any number of such packets through the in-place databases are delivered unchanged, in order, and the databases stay in step |
| `PppLink.BytesOutBound` | netbsd/net/bsd-comp.c:614-618 | a packet counted as n bytes in, its protocol byte and data, is counted as at most 2n bytes out |
| `PppLink.CountersBounded` | netbsd/net/bsd-comp.c:224-259 | counters that are within the check gap and the ratio limit stay so over every packet of up to 64 Kbytes; none reaches 32 bits, and the count that the ratio shifts is at most RATIO_MAX, as the source claims |
| `BsdPacket.RoundTrip` | netbsd/net/bsd-comp.c:795-1074 | decompressing what the compressor produced for a packet gives back the packet and the compressor's own next state, through width growth, padding and CLEAR, if and only if no code of the packet stands for more than a buffer of the receiver holds |
| `BsdPacket.DecompressCompressed` | netbsd/net/bsd-comp.c:795-1074 | with no such code, every eligible packet within the receiver's unit size comes back, whatever the output limit of the compressor |
| `BsdPacket.DecompressTooLong` | netbsd/net/bsd-comp.c:960-976 | with such a code the receiver reports an error, delivers nothing, and has counted the packet in its sequence number |
| `BsdPacket.SizedCodes` | netbsd/net/bsd-comp.c:942-976 | there is no such code in a packet no longer than a buffer, nor in any packet when codes have at most 11 bits |
| `BsdPacket.DecodePacket` | netbsd/net/bsd-comp.c:873-1054 | with no such code, decoding the padded bit string of a packet's codes yields the protocol byte and data, ends where the padding starts, and clears exactly when the sender cleared |
| `BsdPacket.AfterPacketOk` | netbsd/net/bsd-comp.c:614-640 | the state after any packet is well formed, also across a clear and a widening of the codes |
| `BsdPacket.CheckClears` | netbsd/net/bsd-comp.c:224-259 | a clear is asked for only with a full dictionary, and leaves the cleared state; otherwise dictionary and width stay; code size and number always do |
| `BsdPacket.CheckDecides` | netbsd/net/bsd-comp.c:224-259 | the check in terms of the counters alone: before the checkpoint nothing changes; at it both counts are cut to three quarters, rounded up, if one is large, and the next check is set; with room left the ratio stays; a full dictionary is cleared if and only if 256 times the bytes in are below the recorded ratio times the bytes out, or fewer bytes came in than went out; otherwise the ratio r recorded has r times the bytes out at most 256 times the bytes in, and r + 1 times above it |
| `BsdPacket.JudgedOnce` | netbsd/net/bsd-comp.c:224-259 | that leaves one outcome |
| `BsdPacket.CompressSends` | netbsd/net/bsd-comp.c:452-660 | every packet: one that is not eligible is not touched; for one that is, the counts grow by its protocol byte and data and by the bytes its match codes fill, the check decides as above, and what is put out is the header, the number, the match codes, CLEAR exactly if the check cleared, and ones to the next byte; it is given up exactly if it is longer than allowed or than the packet |
| `BsdPacket.DecompressSays` | netbsd/net/bsd-comp.c:795-1074 | a packet too short or with another number changes nothing and is an error; a code that cannot be or a packet beyond the unit size is fatal, a string beyond a buffer an error, and a delivered packet has at most the unit size behind its protocol byte |
| `LzwEnds.DecodeEnds` | netbsd/net/bsd-comp.c:884-979 | from every state the bits of every packet are codes read without complaint and a rest that ends it: too few bits, CLEAR with less than a byte behind it, a code more than two above the largest or above the largest at the start, a string too long for the unit or a buffer, or a code after one that no entry has; each with its outcome |
| `LzwEnds.NeverLonger` | netbsd/net/bsd-comp.c:942-957 | what is written never exceeds the unit size and the protocol byte |
| `BsdPacket.SettleFinished` | netbsd/net/bsd-comp.c:1055-1066 | the receiver that reaches the end of the data counts the same bytes in and out as the sender and ends in its state |
| `BsdPacket.SettleCleared` | netbsd/net/bsd-comp.c:898-917 | the receiver that meets CLEAR ends in the state the sender cleared to |
| `BsdPacket.BytesBitsPack` | netbsd/net/bsd-comp.c:492-500 | packing a whole number of octets of bits into bytes loses nothing: the bytes have exactly those bits |
| `BsdPacket.BytesBitsInjective` | netbsd/net/bsd-comp.c:884-896 | byte strings with the same bits are the same |
| `Lzw.ReadEncoded` | netbsd/net/bsd-comp.c:873-1054 | a decoder in step with an encoder that reads the codes of any data, none standing for more than a buffer holds, reproduces the data and catches up with the encoder's dictionary, including codes that name the entry still being made |
| `Lzw.ReadCode` | netbsd/net/bsd-comp.c:919-1003 | one code is read as the string it stands for, also when it is the entry not yet complete |
| `Lzw.DecodeFollows` | netbsd/net/bsd-comp.c:884-896 | reading codes off a bit string at the widths the reader itself keeps is reading the codes one after the other |
| `Lzw.EncodeKeeps` | netbsd/net/bsd-comp.c:562-614 | encoding only adds to the dictionary, keeps it well formed and within its limit, and every code put out fits its width and is not CLEAR |
| `Lzw.EncodeDistinct` | netbsd/net/bsd-comp.c:562-612 | a dictionary without duplicates stays so: the encoder never enters a string twice |
| `LzwGreedy.FirstIsLongest` | netbsd/net/bsd-comp.c:552-612 | from every dictionary without duplicates, whatever was matched so far: the code put out stands for that and the next n bytes, no code stands for more of them, and unless the data ends there the match and the next byte are entered while there is room and compression goes on from that byte |
| `LzwGreedy.ExpandInjective` | netbsd/net/bsd-comp.c:562-612 | in such a dictionary no two codes stand for the same string |
| `Lzw.LookupFinds` | netbsd/net/bsd-comp.c:562-587 | looking up an entry succeeds exactly when it is in the dictionary, and gives its first code |
| `Lzw.ExpandLength` | netbsd/net/bsd-comp.c:1044-1045 | the string of a code is no longer than the code's number among the entries plus one, so a 16-bit length holds it |
| `HashTable.SearchMiss` | netbsd/net/bsd-comp.c:562-587 | a probe sequence that meets a slot not in use has shown the entry absent from the dictionary |
| `HashTable.SearchHit` | netbsd/net/bsd-comp.c:562-587 | a probe sequence that meets the key gives exactly the entry's code |
| `HashTable.ProbeEnds` | netbsd/net/bsd-comp.c:576-587 | probing always meets a slot not in use before it has gone round the table |
| `HashTable.ProbeDistinct` | netbsd/net/bsd-comp.c:576-587 | the probes from one start are all different slots, because the table size is prime |
| `HashTable.HashSizePrime` | netbsd/net/bsd-comp.c:314-333 | all table sizes in the parameter table are prime |
| `HashTable.HashInRange` | netbsd/net/bsd-comp.c:314-342 | hash values index the table, and the table is larger than the code space |
| `HashTable.TakeOverRepresents` | netbsd/net/bsd-comp.c:592-610 | entering a new code in the slot where the search ended extends the stored dictionary by that entry, and no stale entry comes back to life |
| `HashTable.ForgetAll` | netbsd/net/bsd-comp.c:199-209 | lowering the largest code forgets the dictionary whatever the slots still hold |
| `HashTable.SlotEntry` | netbsd/net/bsd-comp.c:984-994 | a slot whose code is in use stores the entry that code names |
| `HashTable.OwnedDistinct` | netbsd/net/bsd-comp.c:592-610 | no two slots carry the same code in use |
| `BsdComp.Database.Compress` | netbsd/net/bsd-comp.c:452-660 | the in-place compressor on a buffer chain: output and new state are those of the packet-level compressor on the flattened packet, and so as `CompressSends` says in terms of bytes, codes and counters |
| `BsdComp.Database.Decompress` | netbsd/net/bsd-comp.c:795-1074 | the in-place decompressor on a buffer chain: status, packet and new state are those of the packet-level decompressor; without a status nothing is claimed of the database, and that is so exactly for packets whose outcome is undetermined |
| `BsdComp.Database.Incomp` | netbsd/net/bsd-comp.c:667-776 | pretending to compress changes the state exactly as compressing the same packet does |
| `BsdComp.Database.Check` | netbsd/net/bsd-comp.c:224-259 | in place; clears, ages and records exactly as the counters decide, see `CheckDecides` |
| `BsdComp.Database.Clear` | netbsd/net/bsd-comp.c:199-209 | in place, forgets the dictionary without touching the table, whatever entries it still holds |
| `BsdComp.Database.Reset` | netbsd/net/bsd-comp.c:289-297 | in place, the cleared state with sequence number 0 |
| `BsdComp.Database.Search` | netbsd/net/bsd-comp.c:562-587 | the in-place probe loop ends, and finds an entry exactly when the dictionary has it, with its code; otherwise it ends at the free slot where the entry belongs |
| `BsdComp.Database.Install` | netbsd/net/bsd-comp.c:592-610 | the in-place insertion extends the represented dictionary by one entry |
| `BsdComp.Database.WriteString` | netbsd/net/bsd-comp.c:984-994 | following prefixes backwards writes exactly the string of a code |
| `BsdComp.Database.Allocate` | netbsd/net/bsd-comp.c:302-366 | refused exactly unless the option is 21, 3 and a third byte of 32 plus a code size of 9 to 15, which is then the size of the database; table and lengths have the sizes it calls for |
| `BsdComp.Database.Init` | netbsd/net/bsd-comp.c:393-428 | accepted exactly for the option 21, 3 and 32 plus the code size of the database, which then represents the reset state |
| `BsdComp.Output` | netbsd/net/bsd-comp.c:492-500 | the 32-bit accumulator puts out exactly the bits of a code after those pending, and fewer than eight bits stay pending |
| `BsdComp.TakeBits` | netbsd/net/bsd-comp.c:889-896 | the 32-bit accumulator takes exactly the next code's bits from the bytes read so far |
| `BpfValidate.Validate` | netbsd/net/bpf_filter.c:469-643 | the one-pass validator accepts a program if and only if every instruction is well formed and no path from the start reaches a scratch load without a store to that word |
| `BpfValidate.Soundness` | netbsd/net/bpf_filter.c:137-454 | an accepted program on any readable packet returns, within as many steps as it has instructions: no jump outside, no scratch index out of range, no unwritten scratch word read, no division by zero |
| `BpfValidate.RunSafe` | netbsd/net/bpf_filter.c:137-454 | the same from every machine state in which the scratch words the validator relies on are written |
| `BpfValidate.UnwrittenHasPath` | netbsd/net/bpf_filter.c:494-636 | where the validator's bookkeeping has a word unwritten there is a path from the start that does not store to it |
| `BpfValidate.PathIsUnwritten` | netbsd/net/bpf_filter.c:494-636 | and conversely, every such path leaves the word unwritten in the bookkeeping |
| `BpfValidate.StepSafe` | netbsd/net/bpf_filter.c:165-454 | one step of an accepted program does not fault and keeps scratch words written wherever the validator says so |
| `BpfMachine.Halts` | netbsd/net/bpf_filter.c:137-454 | every program, accepted or not, ends within the steps left to its end, since the program counter only grows |
| `BpfFilter.Filter` | netbsd/net/bpf_filter.c:137-454 | the interpreter loop on registers and scratch memory returns what the step semantics returns, for every accepted program and readable packet; if the program is that of a rule, the rule's verdict on the bytes of a flat packet; without a program it accepts everything |
| `BpfRules.RuleMeaning` | netbsd/net/bpf_filter.c:137-454 | for every rule, built from comparisons of terms over the packet's bytes by not, and, or and if, with fixed or computed verdicts: its program returns the verdict that the bytes give, and zero when the way to it takes a load outside the packet or a division by zero |
| `BpfRules.ConditionMeaning` | netbsd/net/bpf_filter.c:137-454 | so the program of a condition returns n if and only if the condition holds of the packet, and otherwise zero |
| `BpfRules.CondRuns` | netbsd/net/bpf_filter.c:339-373 | wherever the code of a condition stands, the run goes on at the one target if it holds and at the other if not, near or far, or returns zero |
| `BpfTerms.TermRuns` | netbsd/net/bpf_filter.c:169-451 | wherever the code of a term stands, the run goes on behind it with the term's value in the accumulator and no scratch word in use overwritten, or returns zero; terms are constants, fields, fields at computed offsets, header lengths, the packet length, bound variables, negation and all arithmetic |
| `BpfTerms.OperandsRun` | netbsd/net/bpf_filter.c:323-337 | the same for two terms, into the accumulator and the index register |
| `BpfTerms.LoadReads` | netbsd/net/bpf_filter.c:169-224 | a load gives the number that one, two or four bytes make, the first the most significant, exactly if the packet has them all |
| `BpfOps.ComputeMeans` | netbsd/net/bpf_filter.c:375-443 | addition, subtraction and multiplication up to multiples of 2^32, division by q * b at most a and (q + 1) * b above it, and and or bit by bit, shifts as products and quotients by powers of two; no result exactly for a division by zero |
| `BpfOps.MeansOnce` | netbsd/net/bpf_filter.c:375-443 | there is only one such result |
| `BpfOps.HoldsTruth` | netbsd/net/bpf_filter.c:343-373 | a test holds exactly if the numbers compare so, or have a bit in common |
| `BpfOps.KindRoundTrip` | netbsd/net/bpf_filter.c:154-452 | every kind of instruction is recognised by its code |
| `BpfOps.UnknownCode` | netbsd/net/bpf_filter.c:154-162 | a code of no kind ends the run with zero |
| `BpfAccept.RuleAccepted` | netbsd/net/bpf_filter.c:469-643 | the validator accepts the program of a rule if and only if it has at most 512 instructions |
| `BpfAccept.RuleFilters` | netbsd/net/bpf_filter.c:137-454 | then on a chain, under the conditions of `SameOnChain`, it gives the verdict on the flattened packet |
| `BpfFilter.SameOnChain` | netbsd/net/bpf_filter.c:59-125 | a run over a buffer chain equals the run over the flattened packet when there are no empty buffers, the packet is shorter than a word or its middle buffers have three bytes or more, and no indexed offset overflows |
| `BpfFilter.SameOnChainIff` | netbsd/net/bpf_filter.c:59-125 | exactly then: on a chain without empty buffers all accepted programs whose offsets do not overflow agree if and only if the packet is shorter than a word or every middle buffer has three bytes |
| `BpfFilter.SafeOnChainIff` | netbsd/net/bpf_filter.c:59-125 | every accepted program returns on a chain if and only if no empty buffer directly follows one that holds data |
| `BpfFilter.OverflowDiffers` | netbsd/net/bpf_filter.c:275-293 | why offsets that overflow are excluded: a program and packet for which the chain and the flat form give different results |
| `BpfPacket.WordsAgreeIff` | netbsd/net/bpf_filter.c:74-104 | words read from a chain agree with words of the flattened packet, at all offsets, exactly under that condition |
| `BpfPacket.WordAgrees` | netbsd/net/bpf_filter.c:74-104 | a word that does not span three buffers is read as from the flattened packet |
| `BpfPacket.HalfAgrees` | netbsd/net/bpf_filter.c:106-125 | half words always agree on chains without empty buffers |
| `BpfPacket.ByteAgrees` | netbsd/net/bpf_filter.c:59-69 | bytes always agree |
| `BpfPacket.SplitWord` | netbsd/net/bpf_filter.c:74-104 | a middle buffer that is too short makes some word of the packet unreadable on the chain |
| `BpfPacket.Index` | netbsd/net/bpf_filter.c:59-69 | walking the chain finds the buffer and offset of a byte, or that there is none |
| `WfqFair.Fairness` | netbsd/altq/altq_wfq.c:435-499 | over any run in which two queues of positive weight stay backlogged, their service in quanta differs by less than 3 + L/Qi + L/Qj, L the longest packet and Q 512 hundredths of the weight rounded down, whatever the weights, the other queues, the drops and the polls |
| `WfqFair.RunShared` | netbsd/altq/altq_wfq.c:435-499 | over such a run the visits to the two queues differ by exactly the change in which of them is ahead on the ring, and each quota changed by the quanta granted less the bytes sent |
| `WfqRing.AdvanceValid` | netbsd/altq/altq_wfq.c:495-497 | moving the pointer past a queue without quota keeps every quota on the ring in (-L, Q], and positive at the pointer only |
| `WfqRing.DropValid` | netbsd/altq/altq_wfq.c:450-471 | taking an empty queue off the ring keeps the invariant |
| `WfqRing.SendValid` | netbsd/altq/altq_wfq.c:474-488 | sending from a queue with quota left keeps the invariant |
| `WfqRing.AppendValid` | netbsd/altq/altq_wfq.c:251-290 | queueing a packet, and joining the ring if needed, keeps the invariant |
| `WfqRing.Seek` | netbsd/altq/altq_wfq.c:435-499 | while a queue with packets and a positive weight is on the ring, the pointer reaches a queue with packets and quota left after finitely many moves |
| `WfqRing.Endless` | netbsd/altq/altq_wfq.c:449-498 | otherwise, with packets but none in a queue of positive weight, the pointer is not at a queue that can send, and wherever it moves next the same holds: the loop never ends |
| `WfqRing.LongestMax` | netbsd/altq/altq_wfq.c:415-432 | the queue chosen to lose a packet has the largest share, and is the first such |
| `WfqRing.LongestHeaviest` | netbsd/altq/altq_wfq.c:415-432 | by bytes and weights alone: for some r from 1 on the queue chosen holds at least r hundredths of its weight, no queue on the ring holds r + 1 of its own, and none before it r; and none is chosen exactly if no queue holds a hundredth of its weight |
| `WfqRing.HeaviestOnce` | netbsd/altq/altq_wfq.c:415-432 | there is at most one such queue, and none if all are that light |
| `WfqRing.HeaviestCompares` | netbsd/altq/altq_wfq.c:424-429 | against any queue j on the ring, bytes_j * 100 * weight < (bytes * 100 + weight) * weight_j, and against one before it even bytes_j * weight < bytes * weight_j |
| `WfqRing.SameWeightFewer` | netbsd/altq/altq_wfq.c:424-429 | a queue of the same weight before it holds fewer bytes |
| `WfqRing.LongestExists` | netbsd/altq/altq_wfq.c:294-299 | over the limit, with positive weights that are light enough for it, there is such a queue |
| `WfqLimits.ReturnsIff` | netbsd/altq/altq_wfq.c:251-499 | for any weights and limit: enqueue, dequeue and poll come to an end in every run from the idle scheduler if and only if all weights are positive and the bytes that all queues together can hold with shares that round to 0, the sum of (weight - 1) / 100, are within the limit |
| `WfqLimits.ZeroStops` | netbsd/altq/altq_wfq.c:449-498 | the run that does not end for a weight of 0: one packet in that queue and a dequeue |
| `WfqLimits.HeavyStops` | netbsd/altq/altq_wfq.c:292-311 | the run of arrivals that fails for weights too heavy for the limit: each queue gets what it can hold with a share of 0, until the limit is passed and no queue is found to drop from |
| `WfqRing.Trim` | netbsd/altq/altq_wfq.c:294-311 | dropping ends with the total within the limit, unless there is no weight to divide by or no queue to drop from |
| `WfqRing.TrimDrops` | netbsd/altq/altq_wfq.c:292-311 | each packet dropped is the first of the heaviest queue of that moment, in the sense of bytes and weights above, and the total was over the limit; nothing else changes; dropping fails exactly where all queues are light or one has no weight |
| `WfqRing.DropsKeepLast` | netbsd/altq/altq_wfq.c:292-311 | over such drops every queue keeps its last packets in order |
| `WfqRing.PollThenTake` | netbsd/altq/altq_wfq.c:435-499 | a poll takes nothing, and the next poll or removal gives the same packet and the same state as without it |
| `WfqRing.DequeueTakes` | netbsd/altq/altq_wfq.c:435-499 | a removal takes a packet exactly when there are bytes, the first of one queue, and leaves all other queues as they were |
| `Wfq.Scheduler.Enqueue` | netbsd/altq/altq_wfq.c:251-313 | in place; refused exactly when the flow's own queue lost a packet, and the total ends within the limit; every packet dropped on the way came first in the queue that was heaviest by bytes and weights; it fails exactly when the model has no next state |
| `Wfq.Scheduler.Dequeue` | netbsd/altq/altq_wfq.c:435-499 | in place; from every state in which the search ends, the packet is the one the model shows, and the branch marked as never happening is not reached |
| `Wfq.Scheduler.MaxQueue` | netbsd/altq/altq_wfq.c:415-432 | the loop over the ring finds the queue that is heaviest by bytes and weights, or that all are light, and stops at a queue without weight |
| `HfscExact.MinPointwise` | netbsd/altq/altq_hfsc.c:1547-1606 | in exact arithmetic, for a concave curve, the update at a time x not before the curve's start is, from x on, the pointwise minimum of the old curve and the class's curve restarted there, and stays updatable |
| `HfscExact.AllRestarts` | netbsd/altq/altq_hfsc.c:1547-1606 | after any number of restarts in order of time, the two-piece runtime curve is the pointwise minimum of all restarted curves |
| `HfscRounding.MinRound` | netbsd/altq/altq_hfsc.c:1547-1606 | the fixed-point update stays within 3 bytes above, and 2 bytes plus one tick of slope difference below, that minimum at every time from x on, and can be repeated |
| `HfscRounding.MinProjection` | netbsd/altq/altq_hfsc.c:1526-1606 | the values the code itself projects are within 5 bytes above, and 4 bytes plus one tick of slope difference below, the minimum |
| `HfscRestarts.AllPeriods` | netbsd/altq/altq_hfsc.c:1547-1606 | the fixed-point curve of a concave class, updated at the start of every backlog period, in order of time: from the last on it is at most 3 bytes a period above, and 2 bytes and one tick of slope difference a period below, the pointwise minimum of the class's curve restarted at each of them |
| `HfscRestarts.LeastHeightIs` | netbsd/altq/altq_hfsc.c:1547-1606 | that minimum is one of the restarted heights and no larger than any |
| `HfscRestarts.ErrorsAdd` | netbsd/altq/altq_hfsc.c:1589-1603 | the errors do add up: two periods of a class with slopes of 1001 bytes and 1 byte a tick leave the curve 1200 bytes below the minimum, where one can cost 1002 at most |
| `HfscRestarts.ConvexPeriods` | netbsd/altq/altq_hfsc.c:1553-1562 | a convex curve is always the class's own from the origin or from one of the periods |
| `HfscRestarts.RestartsIff` | netbsd/altq/altq_hfsc.c:1553-1606 | the curve starts anew at the bytes served, and then gives them no earlier than now, if it was above them, and if convex also if it was at them; otherwise it stays |
| `HfscRounding.X2YRound` | netbsd/altq/altq_hfsc.c:1526-1541 | a projected value is the exact height less rounding of under two bytes |
| `HfscCurve.SegX2YExact` | netbsd/altq/altq_hfsc.c:1394-1406 | splitting the product to avoid overflow gives the floor of the whole product |
| `HfscCurve.SegY2XExact` | netbsd/altq/altq_hfsc.c:1408-1422 | the same for the inverse |
| `HfscCurve.SlopeProduct` | netbsd/altq/altq_hfsc.c:1424-1443 | rounded slope times rounded inverse slope is at most 2^34 |
| `HfscCurve.Sc2IscOk` | netbsd/altq/altq_hfsc.c:1472-1481 | curves converted from rates with a positive second rate are well formed |
| `HfscCurve.Y2XMono` | netbsd/altq/altq_hfsc.c:1505-1524 | the inverse projection never decreases, also across the break between the pieces |
| `HfscCurve.MinOk` | netbsd/altq/altq_hfsc.c:1547-1606 | the update keeps what the inverse projection needs to never decrease |
| `Hfsc.ContinueLater` | netbsd/altq/altq_hfsc.c:946-959 | within a backlog period the eligible time never decreases; eligible time and deadline stay those of the curves at the service so far and the next packet |
| `Hfsc.BeginOk` | netbsd/altq/altq_hfsc.c:918-944 | a new backlog period has eligible time and deadline as the updated curves give them for the first packet |
| `Hfsc.BeginStarts` | netbsd/altq/altq_hfsc.c:918-944 | a class whose curve is above its bytes, or at them if convex, is eligible from now on and not before, and its curve starts here; any other goes on with its curve |
| `Hfsc.EligibleLinear` | netbsd/altq/altq_hfsc.c:928-937 | for a convex curve eligible times are those of its second slope from the start |
| `Hfsc.Scheduler.DeadlineNear` | netbsd/altq/altq_hfsc.c:918-944 | over every run in which the clock does not go back: the deadline curve of a concave class is as near as `AllPeriods` says to the pointwise minimum of its curve restarted at the start of each of its backlog periods at the bytes served by real-time criteria by then |
| `Hfsc.Scheduler.LimitNear` | netbsd/altq/altq_hfsc.c:1026-1038 | the same for its upper-limit curve, at all bytes it was served |
| `Hfsc.Scheduler.FairNear` | netbsd/altq/altq_hfsc.c:1007-1016 | the same for its fair curve in virtual time, counted on over the periods of its parent, wherever those times come in order |
| `HfscPast.InitKnown` | netbsd/altq/altq_hfsc.c:961-1050 | after the walk up from a newly backlogged leaf every fair and upper-limit curve is still what the periods of its class make of it, one period having been added for exactly the classes that become active, at the virtual time, or the clock, and the bytes of each |
| `HfscPast.UpdateCurves` | netbsd/altq/altq_hfsc.c:1052-1135 | service changes no curve |
| `HfscVirtual.ServedLater` | netbsd/altq/altq_hfsc.c:1087-1104 | a class that is on course, its curve having reached its virtual time by the bytes served, stays so, and its virtual time never decreases, whatever it is served and however it lagged |
| `HfscVirtual.ServedFollows` | netbsd/altq/altq_hfsc.c:1090-1102 | the virtual time is where the curve reaches the bytes, less the offset, with an adjustment that grows exactly by what is missing to the least lately served |
| `HfscVirtual.JoiningBetween` | netbsd/altq/altq_hfsc.c:979-992 | a class joins half way between the least lately served and the last of its siblings, or at the last, but within its parent's period not before its own virtual time |
| `HfscVirtual.BegunOnCourse` | netbsd/altq/altq_hfsc.c:1007-1016 | a class that becomes active is on course if and only if the curve it starts with gives its bytes no earlier than the virtual time it joins at |
| `HfscVirtual.RisesIff` | netbsd/altq/altq_hfsc.c:1087-1104 | whatever a class is served, its virtual time never decreases and never goes below 0 in the backlog period if and only if it is on course |
| `HfscVirtual.BegunRises` | netbsd/altq/altq_hfsc.c:1007-1104 | so, for a class that becomes active, if and only if its curve reaches the virtual time it joins at, which can be computed before |
| `HfscVirtual.RestartReaches` | netbsd/altq/altq_hfsc.c:1009-1015 | so it is whenever its curve was above its bytes and is restarted |
| `HfscVirtual.FallsBack` | netbsd/altq/altq_hfsc.c:1318-1325 | the virtual time does not always increase in a backlog period, as a comment says: of two classes of 4.27 Gbit per second one joins again at the virtual time of the other, 120700, and falls back to 120684 |
| `HfscVirtual.ServedOrder` | netbsd/altq/altq_hfsc.c:1313-1348 | a served class that is on course moves behind those it has overtaken, and every active list is in order again |
| `HfscVirtual.FirstIsLeast` | netbsd/altq/altq_hfsc.c:1350-1360 | the first class that fits, of a list in order, has the least virtual time of those that fit |
| `HfscList.Insert` | netbsd/altq/altq_hfsc.c:1184-1204 | insertion adds exactly the class, keeps a sorted list sorted, and does not reach the line marked unreachable |
| `HfscList.Update` | netbsd/altq/altq_hfsc.c:1214-1249 | moving a class whose key grew keeps the same classes and a sorted list sorted, and does not reach the line marked unreachable |
| `HfscList.MinDeadline` | netbsd/altq/altq_hfsc.c:1252-1264 | the scan of the sorted head returns a class of least deadline among all eligible ones, and none only if none is eligible |
| `HfscList.FirstFit` | netbsd/altq/altq_hfsc.c:1350-1360 | the first class of the list whose fit time has come, and none only if there is no such class |
| `HfscTree.ActiveIff` | netbsd/altq/altq_hfsc.c:961-1135 | a class is on its parent's active list if and only if some leaf at or below it has packets |
| `HfscTree.RootActive` | netbsd/altq/altq_hfsc.c:729-827 | a packet anywhere makes the count of the root positive: its list is not empty, or it is itself the leaf |
| `HfscTree.JoinRight` | netbsd/altq/altq_hfsc.c:970-978 | a class that becomes active and joins its parent's list leaves only the parent's count to correct |
| `HfscTree.LeaveRight` | netbsd/altq/altq_hfsc.c:1060-1085 | a class that becomes passive and leaves its parent's list leaves only the parent's count to correct |
| `Hfsc.Scheduler.InitVf` | netbsd/altq/altq_hfsc.c:961-1050 | the walk up from a newly backlogged leaf does what the steps on values do at every class; activity counts, lists and fit times are right again, and lists stay in order of virtual time while every class that joined was on course |
| `Hfsc.Scheduler.UpdateVf` | netbsd/altq/altq_hfsc.c:1052-1135 | the walk up from a served or emptied leaf does what the steps on values do at every class; counts, lists and fit times are right again, and lists in order of virtual time stay so |
| `HfscWalk.ClimbedWalk` | netbsd/altq/altq_hfsc.c:961-1050 | one class of the walk up from a leaf that became active leaves only its parent to correct: count, list, order of virtual times and fit times |
| `HfscWalk.SteppedWalk` | netbsd/altq/altq_hfsc.c:1052-1135 | the same for a class that was served or became passive |
| `HfscWalk.FitBelow` | netbsd/altq/altq_hfsc.c:769-790 | where an active inner class fits, one of its active children fits, so that the descent goes on |
| `HfscWalk.NeverBlocked` | netbsd/altq/altq_hfsc.c:769-790 | without upper limits there is always a child of the root to take |
| `Hfsc.Scheduler.UpdateLeast` | netbsd/altq/altq_hfsc.c:1137-1158 | the loop over the active children finds their earliest fit time |
| `HfscLinks.TightIff` | netbsd/altq/altq_hfsc.c:1020-1048 | the time a class keeps for its active children stays their earliest when one joins if and only if that one does not fit from 0 on, or the time is 0 already |
| `HfscLinks.OpenedOwn` | netbsd/altq/altq_hfsc.c:1026-1038 | a limit is read where its curve reaches the bytes, from now on if it was above them |
| `HfscLinks.PassedOwn` | netbsd/altq/altq_hfsc.c:1107-1122 | after a service the limit's time is where its curve reaches the bytes with the adjustment, at most a tick behind the clock, and the adjustment grows only to bring it up to that; without wrap-around |
| `HfscLinks.RetiredMax` | netbsd/altq/altq_hfsc.c:1073-1078 | a class that becomes passive leaves its virtual time with its parent, if that is the largest of the period so far |
| `HfscLinks.RenewedLater` | netbsd/altq/altq_hfsc.c:992-1006 | in a new period of the parent no child behind that largest starts earlier, offset counted, than it ended |
| `HfscRuns.Waits` | netbsd/altq/altq_hfsc.c:1040-1048 | a run in which it does not: a class without a limit, and without one above, waits for the limit of its sibling, and a dequeue gives nothing |
| `Hfsc.Scheduler.Enqueue` | netbsd/altq/altq_hfsc.c:668-718 | refused exactly when the packet's class is full or there is none, misplaced exactly when it goes to a default class that has children, and otherwise last in its queue, the class becoming active if it was empty: the start of its period is then remembered with the clock and the bytes served, its curves are those of all periods so far, and if its deadline curve was above the bytes it is not eligible before now; counts, lists, fit times and deadlines hold, and other backlogged classes keep their deadlines |
| `Hfsc.Scheduler.Choose` | netbsd/altq/altq_hfsc.c:758-790 | by least deadline among eligible classes if there is one, otherwise down the tree over the first child that fits, which is the fitting child of least virtual time at every level while every class joined on course, to a non-empty leaf; nothing if and only if no class is eligible and no active child of the root fits |
| `Hfsc.Scheduler.Dequeue` | netbsd/altq/altq_hfsc.c:729-827 | removes or shows the first packet of a backlogged class: least deadline if any class is eligible, else the class that link sharing chooses; nothing if and only if none is eligible and no child of the root fits, so never without upper limits; a removal gives the polled class; panics if and only if the polled class was emptied in between, so never without a purge; the whole new state of link sharing and real-time service is stated |
| `HfscRuns.PassedOver` | netbsd/altq/altq_hfsc.c:1313-1360 | a run in which a class joined off course: link sharing takes a class of virtual time 120700 although its sibling fits and has 120684 |
| `HfscRuns.PollPurgeRemove` | netbsd/altq/altq_hfsc.c:745-803 | the run that does panic: poll, purge, another packet, removal |
| `Hfsc.Scheduler.PurgeClass` | netbsd/altq/altq_hfsc.c:875-893 | empties exactly one queue, as a service of 0 bytes that leaves nothing; counts, lists, fit times and deadlines stay right |
| `Hfsc.Scheduler.Purge` | netbsd/altq/altq_hfsc.c:371-381 | empties all queues and leaves no packet counted |
| `Hfsc.Scheduler.constructor` | netbsd/altq/altq_hfsc.c:383-562 | an empty tree of classes satisfies the invariant, every class idle |
| `StpUpdate.UpdateLeast` | netbsd/net/bridgestp.c:402-458 | there is a root port exactly if some enabled port hears of a root before this bridge from another bridge or port; it is such a port, no such port comes before it by root, total cost, bridge, port and own port, and its root and total cost become the bridge's; without one the bridge is the root at cost 0 |
| `StpUpdate.LessMeans` | netbsd/net/bridgestp.c:285-309 | one vector comes before another exactly if it is smaller at the first place where they differ |
| `StpUpdate.PickLeast` | netbsd/net/bridgestp.c:402-458 | the selection loop's choice is the first of the least candidates |
| `StpUpdate.NoWorse` | netbsd/net/bridgestp.c:460-497 | afterwards no port has heard anything worse than this bridge would announce there, and a port is designated exactly when nothing better was heard |
| `StpUpdate.IdempotentIff` | netbsd/net/bridgestp.c:395-497 | updating twice is updating once if and only if the bridge does not claim its own root port; so always with path costs of at least 1 |
| `StpUpdate.FreePath` | netbsd/net/bridgestp.c:395-497 | a path cost of 0 for which updating twice makes the bridge the root |
| `StpUpdate.RootKept` | netbsd/net/bridgestp.c:460-497 | the root port is taken over exactly when its path cost is 0 and this bridge and port rank no later than those heard there |
| `Stp.Bridge.ConfigurationUpdate` | netbsd/net/bridgestp.c:395-497 | the two loops over the ports compute that update; the root is never above the own id and the root port is missing exactly when the bridge is root |
| `Stp.Bridge.PortStateSelection` | netbsd/net/bridgestp.c:499-546 | afterwards only the root port and designated ports are listening, learning or forwarding, and such ports are not blocked; a state changes only to listening for them and to blocking for others; the forward-delay timer runs exactly in listening and learning |
| `Stp.Bridge.TopologyChangeDetection` | netbsd/net/bridgestp.c:554-565 | the root announces the change itself, others notify; the notification has a root port to go to |
| `Stp.Bridge.ReceivedConfig` | netbsd/net/bridgestp.c:670-705 | by the order of vectors: a message whose root, cost and bridge come before what the port has heard is recorded with its port and age, one that comes after changes no information, and an equal one is recorded unless it is from a later port of this bridge; then configuration, states and times follow; no port hears worse than before unless the bridge takes it over; the invariant holds in every case |
| `Stp.Bridge.Hear` | netbsd/net/bridgestp.c:670-705 | over every stretch of messages, from any moment to any later one, what a port has heard of root, cost and bridge does not get worse while the bridge does not take the port over |
| `Stp.SupersedesLess` | netbsd/net/bridgestp.c:285-309 | the comparison is that order |
| `Stp.Bridge.ReceivedTcn` | netbsd/net/bridgestp.c:707-716 | a change reported on a designated port is taken up; the configuration stays |
| `Stp.Bridge.TransmitConfig` | netbsd/net/bridgestp.c:176-209 | an announcement is sent exactly if none was sent within the hold time and the root's information, a step older, is younger than its limit; it carries the bridge's root, cost and id, the port, that age, the times, and the acknowledgement due, which is then cleared; within the hold time it is marked pending |
| `Stp.Bridge.MessageAgeExpiry` | netbsd/net/bridgestp.c:725-746 | a port whose information expired is taken over and the configuration follows |
| `Stp.Bridge.AgeTick` | netbsd/net/bridgestp.c:1071-1077 | information on a port is given up when, and only when, its timer runs out |
| `Stp.Bridge.DelayTick` | netbsd/net/bridgestp.c:748-761 | listening, learning, forwarding: one step each time the timer runs out |
| `Stp.Bridge.TcnTick` | netbsd/net/bridgestp.c:778-783 | a due notification is sent and the timer keeps running; it fails exactly when there is no root port |
| `Stp.Bridge.ConfigGeneration` | netbsd/net/bridgestp.c:332-344 | announces on every enabled designated port and on no other |
| `Stp.Bridge.HelloTick` | netbsd/net/bridgestp.c:718-723 | exactly when due, announces on every enabled designated port; the timer keeps running |
| `Stp.Bridge.HoldTick` | netbsd/net/bridgestp.c:792-797 | exactly when the hold time ends, a pending announcement is sent; other ports are untouched |
| `Stp.Bridge.EnablePort` | netbsd/net/bridgestp.c:886-903 | an enabled port is designated and listening, also if it was in use; the invariant holds |
| `Stp.Bridge.DisablePort` | netbsd/net/bridgestp.c:906-930 | a disabled port is out of the selection and the configuration follows |
| `Stp.Bridge.SetBridgeId` | netbsd/net/bridgestp.c:933-962 | under a new identity designated ports are renamed and the configuration follows |
| `Stp.Bridge.SetPathCost` | netbsd/net/bridgestp.c:980-987 | a new path cost takes effect in the configuration |
| `Stp.Bridge.Links` | netbsd/net/bridgestp.c:1002-1031 | exactly the ports with a link are enabled |
| `Stp.Bridge.Tick` | netbsd/net/bridgestp.c:1034-1090 | a clock tick keeps the invariant; with positive path costs and no echoed messages no notification ever lacks a root port, and with steady links one does exactly when it is due without a root port |
| `Stp.Bridge.constructor` | netbsd/net/bridgestp.c:799-863 | from disabled ports the bridge comes up as root, its ports in use designated, with the invariant |
| `Stp.Bridge.Restart` | netbsd/net/bridgestp.c:799-863 | a start with ports in any state keeps the invariant; the bridge takes itself for the root if no member without the protocol comes before a port that still knows a better root, and if there is one such member only, exactly then; it keeps the old root if the best port behind the first such member comes after all of them and costs something to cross |
| `Stp.StaleStart` | netbsd/net/bridgestp.c:853-858 | a start of the other kind: the bridge ends with a root port that it is itself designated for, following a root it hears nothing of |
| `Stp.EchoUproots` | netbsd/net/bridgestp.c:311-320 | the run that fails with an echoed message: a notifying bridge hears itself on its root port, and at the next tick its notification has no root port |
| `Stp.FreePathUproots` | netbsd/net/bridgestp.c:460-488 | the run that fails with a path cost of 0: the bridge takes over its own root port, the next update leaves it without one, and the next notification fails |
| `Stp.Advance` | netbsd/net/bridgestp.c:1106-1118 | a timer runs out exactly when its value, a tick later in 16 bits, reaches the limit, and then stops |
| `Meter.Since` | netbsd/altq/altq_cdnr.c:554-584 | tokens never exceed the depth, and what is charged since any moment is at most the tokens then plus the rate over the time since the last refill and one tick per refill |
| `Meter.Window` | netbsd/altq/altq_cdnr.c:554-584 | over any window at most twice the depth plus the rate over the window and one tick per refill |
| `Meter.RefillBound` | netbsd/altq/altq_cdnr.c:563-574 | a refill credits at most the rate over the time since the last one and one tick more, which is what rounding the fill time down costs |
| `Meter.CoversIff` | netbsd/altq/altq_cdnr.c:554-584 | a packet is in profile if and only if the tokens at hand cover it, or the bucket is deep enough and was idle for its fill time or for long enough at its rate; a refill gives all of that time's credit, up to the depth |
| `Meter.KeepersPass` | netbsd/altq/altq_cdnr.c:554-584 | the other direction over whole runs: every packet of a flow that keeps to the profile by the letter, topped up at every packet, is in profile |
| `Meter.ImportOk` | netbsd/altq/altq_cdnr.c:503-514 | a bucket made from a profile is full; its depth is the profile's, its rate the bytes per tick rounded down, and its fill time the ticks to fill it rounded down |
| `Meter.TwoBuckets` | netbsd/altq/altq_cdnr.c:647-707 | each bucket of the three-color marker behaves as a bucket of its own, charged with green, and with green and yellow packets |
| `Meter.MarkerSince` | netbsd/altq/altq_cdnr.c:647-707 | green is bounded by the committed profile, green and yellow together by the peak profile |
| `Meter.MarkerWindow` | netbsd/altq/altq_cdnr.c:647-707 | the same over any window with twice the depths |
| `Meter.TokenBucket.Input` | netbsd/altq/altq_cdnr.c:554-584 | in place; in profile exactly as `CoversIff` says, and then charged |
| `Meter.ColorMarker.Input` | netbsd/altq/altq_cdnr.c:647-707 | in place; red exactly if it came red or the peak bucket does not cover it, green exactly if it came neither red nor yellow and both buckets cover it; both buckets as in the model |
| `Conditioner.NewestFree` | netbsd/altq/altq_cdnr.c:426-459 | nothing leads to the newest block, since links lead to blocks created earlier |
| `Conditioner.Top.Create` | netbsd/altq/altq_cdnr.c:464-478 | a block is created unless an action is bad; reference counts stay the numbers of links, and links lead to live blocks created earlier |
| `Conditioner.Top.Destroy` | netbsd/altq/altq_cdnr.c:480-490 | a block is destroyed exactly when nothing leads to it, and the counts of the blocks it led to follow |
| `Conditioner.Top.DestroyAll` | netbsd/altq/altq_cdnr.c:426-459 | the loop always finds a block to destroy and ends with none left |
| `Conditioner.Top.Input` | netbsd/altq/altq_cdnr.c:132-205 | the packet loop ends; its verdict is the action at the end of the links that the meters choose, and it has none exactly when they lead to an element, so never while every link leads to a meter |
| `Conditioner.VerdictIff` | netbsd/altq/altq_cdnr.c:132-205 | from every block and whatever the meters choose a packet has a verdict, if and only if every link leads to a meter |
| `Conditioner.LinkToElement` | netbsd/altq/altq_cdnr.c:196-199 | a handle that names an element is accepted, and then a packet arrives at a block without an input function |
| `Conditioner.Top.ImportAll` | netbsd/altq/altq_cdnr.c:369-388 | each handle becomes a link and is counted once |
| `Classifier.Table.Classify` | netbsd/altq/altq_subr.c:1239-1298 | by TOS only, by protocol and ports only, or by hash and then wildcards: the class is that of the foremost of all filters that apply (whole destination first, then rule number, then the newest), and none only if no filter applies |
| `Classifier.FirstForemost` | netbsd/altq/altq_subr.c:1273-1297 | the first filter that applies in the bucket looked at is the foremost of the whole table, when nothing applies in the buckets that come before |
| `Classifier.WhereApplies` | netbsd/altq/altq_subr.c:1071-1187 | a filter that applies is in the packet's bucket or the wildcard bucket |
| `Classifier.OnlyLast` | netbsd/altq/altq_subr.c:1253-1272 | when no filter looks at destination addresses only the wildcard bucket is in use |
| `Classifier.Table.Add` | netbsd/altq/altq_subr.c:1071-1187 | adds exactly one filter, with a handle no live filter has, that applies to exactly the packets the rule asks for; refused exactly for other than IPv4 filters; the search for a handle does not end exactly when all are taken |
| `Classifier.GivenApplies` | netbsd/altq/altq_subr.c:1336-1364 | a filter made from a rule applies to a packet if and only if each value asked for is 0 or the packet's, and each address asked for is 0 or agrees with the packet's on the bits of its mask, all of them if there is none |
| `Classifier.Table.Delete` | netbsd/altq/altq_subr.c:1189-1207 | removes exactly the filter with the handle, reports failure if there is none, and says when the handle's bucket number is outside the table |
| `Classifier.Table.Discard` | netbsd/altq/altq_subr.c:1213-1237 | removes exactly the filters of a class, or all |
| `Classifier.Table.FreshHandle` | netbsd/altq/altq_subr.c:1453-1475 | gives a handle of the bucket that none of its filters has, or says that all identities are taken, exactly when they are |
| `Classifier.FullIff` | netbsd/altq/altq_subr.c:1460-1472 | which is so if and only if the bucket holds 2^20 filters |
| `Classifier.Unique` | netbsd/altq/altq_subr.c:1453-1491 | no two filters have the same handle |
| `Classifier.InsertOk` | netbsd/altq/altq_subr.c:1167-1182 | insertion behind higher rule numbers keeps a bucket in order of precedence |
| `CaptureFormat.Walk` | netbsd/net/bpf.c:1559-1662 | walking a buffer by header and captured length, rounded up to words, gives exactly the records written, in order |
| `CaptureFormat.HoldsAppend` | netbsd/net/bpf.c:1590-1654 | a record written at the next word boundary is appended to those a buffer holds |
| `CaptureFormat.HeaderWritten` | netbsd/net/bpf.c:1626-1648 | each header field reads back as it was written |
| `CaptureFormat.HeaderLengthOk` | netbsd/net/bpf.c:1533-1549 | the header has room for its fields and puts the network header on a word boundary |
| `CaptureFormat.AlignRounds` | netbsd/net/bpf.c:1587-1597 | rounding up gives the next multiple of the word size |
| `Capture.Descriptor.Catch` | netbsd/net/bpf.c:1559-1662 | a packet is stored as the longest beginning of it within the snapshot length and the buffer's room behind a header, or dropped exactly when that does not fit and no buffer is free; accepted packets stay delivered, held and stored in order |
| `Capture.Descriptor.Kept` | netbsd/net/bpf.c:1569-1583 | that length is none of packet, snapshot and room exceeded, and one of them reached |
| `Capture.Descriptor.Rotate` | netbsd/net/bpf.c:475-480 | the records stored so far become those to read, the buffer that was free is filled next, and no record is lost |
| `Capture.Descriptor.Read` | netbsd/net/bpf.c:484-584 | hands over the next records, at least one, or nothing exactly when nothing is ready; refused exactly when the size asked for is not the buffer size; captured stays accepted plus dropped |
| `Capture.Descriptor.Reset` | netbsd/net/bpf.c:698-711 | forgets packets and counts, and a buffer held for reading becomes the free one |
| `Capture.Descriptor.constructor` | netbsd/net/bpf.c:1667-1682 | fresh buffers hold nothing |
| `Capture.ReadPackets` | netbsd/net/bpf.c:484-584 | a reader that walks what it reads sees the next accepted packets in order |
| `CbqTree.DepthIsHeight` | netbsd/altq/altq_rmclass.c:460-530 | the depth kept in a class is the length of the longest path down from it |
| `CbqTree.Raise` | netbsd/altq/altq_rmclass.c:460-476 | raising ancestors after adding a leaf, stopping early, makes every depth right |
| `CbqTree.Recompute` | netbsd/altq/altq_rmclass.c:486-530 | recomputing upward after removing a leaf, stopping early, makes every depth right |
| `Cbq.CountChange` | netbsd/altq/altq_rmclass.c:746-806 | a change of one queue changes its priority's count so that it stays the number of non-empty queues |
| `Cbq.RingBusy` | netbsd/altq/altq_rmclass.c:990-992 | a count is 0 exactly when no class on the priority's ring has packets |
| `Cbq.Scheduler.NewClass` | netbsd/altq/altq_rmclass.c:194-345 | adds a leaf to tree and ring; depths, rings and counts hold |
| `Cbq.Scheduler.DeleteClass` | netbsd/altq/altq_rmclass.c:541-642 | removes a leaf from tree and ring; depths, rings and counts hold |
| `Cbq.Scheduler.Enqueue` | netbsd/altq/altq_rmclass.c:746-806 | queues a packet and drops the first one when over the limit; the cutoff comes down as below |
| `Cbq.Scheduler.LowerCutoff` | netbsd/altq/altq_rmclass.c:754-780 | the walk up the classes borrowed from makes the cutoff the least of what it was and the depths of all those that are within their limits |
| `Cbq.Scheduler.DropAll` | netbsd/altq/altq_rmclass.c:1439-1449 | empties a queue and corrects the count |
| `Cbq.Scheduler.Round` | netbsd/altq/altq_rmclass.c:1003-1034 | a round finds a backlogged class within its limit unless there is none, or all such have used up their share, which the second round ignores |
| `Cbq.Scheduler.Search` | netbsd/altq/altq_rmclass.c:990-1035 | the class found has the highest priority among backlogged classes within their limits; none is found only if there is none |
| `Cbq.Scheduler.Choose` | netbsd/altq/altq_rmclass.c:988-1068 | raising the cutoff ends; the class chosen is backlogged, and is within its limit and of the highest such priority, or else the first that may borrow when the link must not idle |
| `Cbq.Scheduler.Dequeue` | netbsd/altq/altq_rmclass.c:955-1103 | removes or shows the first packet of a backlogged class, of the highest priority among those within their limits if there is one, and a removal gives the polled class; panics if and only if that class was emptied in between, and uses a freed class if and only if it was deleted |
| `Cbq.PollDropRemove` | netbsd/altq/altq_rmclass.c:1439-1449 | the run that panics: poll, drop all, removal |
| `Cbq.PollDeleteRemove` | netbsd/altq/altq_rmclass.c:541-642 | the run that uses a freed class: poll, delete, removal |
| `Cbq.Scheduler.Advance` | netbsd/altq/altq_rmclass.c:1087-1090 | the ring goes on from the class served or from the next, and holds the same classes |

## Left out

- BSD-Compress: buffer allocation failures, how output is split into buffers, the debug-only checks and the statistics. A buffer of the decompressor holds MCLBYTES (2048) bytes, as the definition of M_TRAILINGSPACE says that special_includes/sys/mbuf.h has disabled; the one in force there, 0, would make every decompression fail.
- BSD-Compress: what the code does after a code that no entry has is not modelled, since it depends on memory never set; `UndeterminedIff` says for which packets.
- BSD-Compress: counters are unbounded integers; `CountersBounded` shows that 32 bits suffice for packets up to 64 Kbytes.
- BPF: shifts by 32 or more, which C leaves undefined, give 0 here. The validator's bit masks are sets of word numbers.
- WFQ: the ring of linked queues is the sequence of queue numbers from the round-robin pointer on; hashing of flows to queues and changing weights while running are not modelled. Packets have at least one byte.
- Wfq.Scheduler.Dequeue: only for states in which the search ends; `Endless` shows that in all others it does not.
- H-FSC: changing a class's curves while it runs is not modelled; nothing is claimed about the rates that upper limits allow.
- H-FSC: the pointwise minimum is claimed for concave curves and restarts in order of time only; for convex curves the code keeps the old curve where it is lower at the restart. That virtual times come in order over the periods of a class is not shown.
- Hfsc.Scheduler.FairNear: for the curve as it would be had it never been moved; a restarted curve is moved back by the offset that has added up since.
- H-FSC: every class below the root has a fair curve, and 64-bit arithmetic does not overflow, except that virtual times below 0 and the times of upper limits wrap. What follows a packet in a default class that has children is not modelled.
- H-FSC and CBQ: RED and RIO queues, and class queues other than drop-tail and drop-head.
- Spanning tree: encoding and decoding of messages on the wire, the choice of the bridge id and port ids, and changing a port's priority; path costs are unbounded integers, so a sum of costs does not wrap.
- Stp.Bridge.Restart: with several members without the protocol the outcome is not stated where the best port behind the first of them comes before the last, or costs nothing to cross, since it then depends on which ports each of them makes the bridge take over.
- Traffic conditioner: the sliding-window marker, packet counters, marking of IPv6 packets; handles name blocks of the same interface, and the clock stays below its 64-bit limit.
- Classifier: IPv6 filters, and the extraction of the fields from a packet.
- Capture buffers: sleeping, wakeups and select, and buffer allocation failures; numbers in headers are written least significant byte first, and a read is one step.
- Capture.Descriptor.constructor: a buffer has room for a header, which its least size of 32 bytes ensures for all link headers except those of 7 bytes modulo 8; with those the code stores the header only.
- CBQ: estimators, sleeping classes, borrowing times and the weights of the round; whether a class is within its limit, now or at a given cutoff, is asked of a parameter. The limit of packets handed to the driver at once is not modelled. A class borrows from its parent or not at all, as netbsd/altq/altq_cbq.c:351-362 demands.
- RED, RIO, BLUE, JoBS, PRIQ, FIFOQ, AFMAP and the local queue: simpler queues or random drops.
- Attach, detach, ioctl, sysctl and module code; the socket, service and logging layers; statistics counters and traces.
