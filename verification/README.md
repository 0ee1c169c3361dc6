# XDMA scatter-gather driver: a verified model

A Dafny model of the Linux driver for the Xilinx XDMA scatter-gather engine
(`wireless_paper/wimiv1/driver`), with proofs of what the driver is for: that a
user buffer, pinned page by page, mapped, coalesced into descriptors and
executed by the engine, is copied exactly once and in order; that the queue of
transfers and the hardware stay in step over every interleaving; that the
receive ring delivers the hardware's packets as long as it has room for them;
and that a bitstream file is parsed exactly, with the exact condition under
which all its words are streamed.

`dafny verify dfyconfig.toml` checks the whole project.

## How the model is built

| file | what it models |
|---|---|
| `Words.dfy`, `Arith.dfy` | 32-bit and 64-bit wrap-around, address words, masks, ring positions |
| `Control.dfy` | the control register: what starts and stops the engine, and its addressing mode |
| `Descriptors.dfy` | the 32-byte descriptor and the `xdma_desc_*` helpers, in place on an array |
| `Hardware.dfy` | two interpreters of a descriptor table: following `next`, and prefetching `extra_adj` neighbours |
| `Scatter.dfy` | scatter lists as host byte addresses, descriptors as byte moves, and the coalescing rule |
| `Transfers.dfy` | `struct xdma_transfer`: `transfer_build`, `transfer_create`, and what the finished chain means |
| `CyclicTransfers.dfy` | the endless receive transfer, its setup and its stop |
| `Pages.dfy` | `xdma-sgm.c`: page splitting and page references |
| `UserTransfers.dfy` | a transfer for a user buffer: pinned, mapped, built, executed, released |
| `Requests.dfy` | alignment check, 8 MiB chunks, `transfer_data`, `char_sgdma_read_write` |
| `QueueModel.dfy` | the engine queue as a state machine with hardware steps; invariants over all runs |
| `Engines.dfy` | `struct xdma_engine` and the functions under `engine->lock`, refining that machine |
| `RxModel.dfy` | the receive stream, its packets, and the steps of handler and reader |
| `RxRing.dfy` | the result ring in place, refining those steps |
| `BitHeader.dfy` | bitstream header: printer, parser, round trip |
| `BitStream.dfy` | word streaming to the ICAP with FIFO back-pressure |
| `Mcap.dfy` | downloads through the MCAP and its control register |

Code that updates structures in place is modelled by classes and arrays whose
methods are proved against specification functions; the properties are then
proved about those functions. A `BUG_ON` of the source is an `assert` in a
method, and an outcome of its own (`Bug`) in the queue model. What hardware,
kernel and user memory do is a parameter that the theorems quantify over:
pinned pages, DMA addresses, register reads, FIFO vacancies, copy faults, the
order of steps. Where a theorem needs more of them than the driver ensures, the
need is shown to be exact and is named under "Left out": the times at which the
queue is serviced and polled, and a clear slot for each result the hardware
reports.

## Findings

Where a promise does not hold of the code for all inputs, the code is kept and
the exact condition is proved; inputs and runs that fail are given as lemmas
where the condition does not already name them.

* **Running lengths are 32-bit.** A chain means one plain copy of its scatter
  list if and only if no coalesced group reaches 4 GiB
  (`Scatter.MeaningPreservedIff`, `Scatter.TooLongIsLost`). The driver's own
  callers never pass such a list: request chunks are at most 8 MiB and the
  receive buffer is 1 MiB (`Scatter.TotalFits`).
* **A fixed endpoint address moves.** In non-incremental mode every chunk starts
  at the advanced file position; and in poll mode `engine_start_mode_config` does
  not program the addressing mode (`Control.FixedMode`), while descriptors are
  still laid out for a fixed address. So a request is a copy to one fixed address
  if and only if it fits one chunk of 8 MiB and, in poll mode, has at most one
  byte, or two that do not lie one behind the other on the bus
  (`Requests.RequestIsPlainCopyIff`; one page fails in
  `Requests.PolledPageMoves`).
* **Merged entries make descriptors longer than `XDMA_DESC_MAX_BYTES`.** The
  threshold is looked at before the last entry is added, so a descriptor of
  several entries may exceed it by the length of its last one less a page
  (`Scatter.DescriptorSizeBound`, `Scatter.MergedIsTooLong`); with entries of at
  most a page it never does (`Scatter.DescriptorSizes`).
* **An interrupted request keeps the pages of its chunk.** Its transfer may
  still be in flight and is not destroyed; every other outcome releases all
  pages (`Requests.TransferData`).
* **Servicing a busy engine** keeps the queue invariant if and only if the
  engine is not busy (`QueueModel.BusyServiceBreaksInv`); two such services of
  one transfer run into `BUG_ON(!transfer)` (`QueueModel.BusyServiceRun`).
* **Reading packets** from a non-empty ring keeps the ring consistent if and
  only if the end of a packet is pending (`RxModel.CompleteKeepsInvIff`);
  otherwise a partial packet is lost with result 0
  (`RxModel.PartialPacketLost`) or the head overtakes the tail
  (`RxModel.HeadPassesTail`).
* **Nothing keeps the hardware from writing over a full receive ring.** The
  engine executes the slots round and round (`CyclicTransfers.EndlessExecution`);
  a result keeps the ring in order if and only if a slot is clear
  (`RxModel.WriteKeepsInvIff`). In a ring of two the third packet replaces the
  first: it is read first, the first one is never read, and no read reports it,
  since the overrun is only noted (`RxRing.LostPacketRun`).
* **The overrun flag is cleared without the lock.** No packet is harmed, whenever
  that happens (`RxModel.RingIsFifo`); but from a full ring whose flag was
  cleared the handler counts waiting packets again: what it returns is right if
  and only if a full ring is flagged or no end of packet waits
  (`RxModel.ReturnedIsNewIff`, `RxModel.FlagLostIff`, `RxModel.RecountRun`).
* **The header parser accepts exactly the printed headers**, except that the
  byte after the magic is never looked at (`BitHeader.AcceptsExactlyPrinted`).
* **`MCapClearRequestByConfigure` is off by one**: it fails exactly when the
  request is seen cleared on the very last poll, and passes when it never
  clears (`Mcap.Device.ClearRequestByConfigure`).
* **A cut-short ICAP download returns 0.** The vacancies and polls that cut it
  short are characterised exactly (`BitStream.Icap.Download`, with
  `StreamBursts`), and an empty-handed one is shown
  (`BitStream.CutShortDownload`).

## Model

| member | source | states |
|---|---|---|
| Words.SplitJoin | wireless_paper/wimiv1/include/xdma-core.h:165-168 | splitting a bus address into its low and its high 32 bits loses nothing |
| Control.FixedMode | wireless_paper/wimiv1/driver/xdma-core.c:808-831 | a started engine leaves the endpoint address alone if and only if non-incremental addressing was asked for and interrupts are used |
| Control.StartedWith | wireless_paper/wimiv1/driver/xdma-core.c:784-831 | the start word bit for bit: RUN_STOP, the error interrupts, and either writeback or the completion interrupts |
| Control.StoppedWith | wireless_paper/wimiv1/driver/xdma-core.c:697-726 | the stop writes what the start wrote without RUN_STOP and without the addressing mode |
| Descriptors.WithExtraAdj | wireless_paper/wimiv1/driver/xdma-core.c:2137-2140 | merging the adjacent count keeps the control byte and yields magic and count |
| Descriptors.CappedExtraAdj | wireless_paper/wimiv1/driver/xdma-core.c:2118-2136 | the stored count never exceeds 15 nor the descriptors that follow |
| Descriptors.DescInit | wireless_paper/wimiv1/driver/xdma-core.c:2016-2050 | one descriptor gets its next address, no bytes, magic and its adjacent count; all others stay |
| Descriptors.DescSet | wireless_paper/wimiv1/driver/xdma-core.c:2210-2235 | the two words of source and of destination by direction -- host memory is the source of a write to the device -- and the length; link, control word and all other descriptors stay |
| Descriptors.DescSetSource | wireless_paper/wimiv1/driver/xdma-core.c:2237-2242 | only the source address of one descriptor changes |
| Descriptors.DescLink | wireless_paper/wimiv1/driver/xdma-core.c:2074-2103 | one descriptor's next address becomes the given one with no adjacent count; the move it describes and its control byte stay |
| Descriptors.DescAdjacent | wireless_paper/wimiv1/driver/xdma-core.c:2116-2141 | one descriptor gets the capped count; link, move and control byte stay |
| Descriptors.DescControl | wireless_paper/wimiv1/driver/xdma-core.c:2144-2154 | one descriptor's control byte is replaced; magic, count, link and move stay |
| Descriptors.DescControlClear | wireless_paper/wimiv1/driver/xdma-core.c:2157-2167 | of one descriptor's control byte exactly the given bits become 0; magic, adjacent count, link, move and all other descriptors stay |
| Descriptors.DescControlSet | wireless_paper/wimiv1/driver/xdma-core.c:2170-2180 | of one descriptor's control byte exactly the given bits become 1; magic, adjacent count, link, move and all other descriptors stay |
| Hardware.ChainWalk | wireless_paper/wimiv1/driver/xdma-core.c:2999-3014 | from any descriptor of a stopped chain the engine executes exactly the rest of it, in order, and halts |
| Hardware.RingWalk | wireless_paper/wimiv1/driver/xdma-core.c:2106-2113 | around a ring without STOPPED the engine never halts; the k-th descriptor executed is the one k slots on |
| Hardware.AnnouncedFetch | wireless_paper/wimiv1/driver/xdma-core.c:2116-2141 | the block a descriptor announces at its next address is exactly its own successors in the chain |
| Hardware.PrefetchRefinesWalk | wireless_paper/wimiv1/driver/xdma-core.c:2116-2141 | with any prefetched part of a chain or ring in its queue, the prefetching engine does what the plain one does |
| Hardware.CappedBlockWithinPage | wireless_paper/wimiv1/driver/xdma-core.c:2118-2136 | a capped block stays within a 4 KiB page if and only if its first descriptor does |
| Hardware.CappedIsLargest | wireless_paper/wimiv1/driver/xdma-core.c:2118-2136 | the capped count is the largest that the field, the following descriptors and the page allow |
| Hardware.StraddlingIsUncapped | wireless_paper/wimiv1/driver/xdma-core.c:2118-2136 | a block whose first descriptor straddles a page boundary is not capped by the page: the unsigned page count wraps around |
| Scatter.GroupIsSpan | wireless_paper/wimiv1/driver/xdma-core.c:2850-2872 | contiguous entries, 64-bit wrap-around included, are one span of host memory |
| Scatter.CutsAreNeeded | wireless_paper/wimiv1/driver/xdma-core.c:2861-2874 | a descriptor boundary falls exactly at a discontinuity, at the size threshold, or where each entry has its own descriptor |
| Scatter.MeaningPreservedIff | wireless_paper/wimiv1/driver/xdma-core.c:2850-2923 | a coalesced table moves each byte of the list to or from its endpoint address once and in order, if and only if no 32-bit group length overflows |
| Scatter.SourceToDestination | wireless_paper/wimiv1/driver/xdma-core.c:2210-2235 | byte k of a descriptor goes from source + k to destination + k, except for the side in the FPGA in fixed mode |
| Scatter.CopyDirection | wireless_paper/wimiv1/driver/xdma-core.c:2217-2225 | a plain copy goes from host memory to the endpoint for a write to the device, and the other way for a read |
| Scatter.TooLongIsLost | wireless_paper/wimiv1/driver/xdma-core.c:2858-2871 | a list of two entries and 4 GiB whose one descriptor announces 0 bytes: the copy is lost |
| Scatter.TotalFits | wireless_paper/wimiv1/driver/xdma-core.c:3269-3276 | a list below 4 GiB never overflows a group |
| Scatter.DescriptorSizes | wireless_paper/wimiv1/driver/xdma-core.c:2867-2871 | from entries of 1 to 4096 bytes every descriptor has 1 to XDMA_DESC_MAX_BYTES bytes |
| Scatter.DescriptorsMove | wireless_paper/wimiv1/driver/xdma-core.c:2876-2879 | from non-empty entries every descriptor moves at least one byte |
| Scatter.DescriptorSizeBound | wireless_paper/wimiv1/driver/xdma-core.c:2861-2879 | for any entries: a descriptor has the length of its only entry, or at most XDMA_DESC_MAX_BYTES less a page plus the length of its last one |
| Scatter.MergedIsTooLong | wireless_paper/wimiv1/driver/xdma-core.c:2867-2871 | two merged entries whose one descriptor has 323583 bytes, more than XDMA_DESC_MAX_BYTES |
| Scatter.IncrementingEngineIff | wireless_paper/wimiv1/driver/xdma-core.c:2891-2897 | descriptors laid out for a fixed address and executed by an incrementing engine stay at it if and only if none moves more than one byte |
| Transfers.XdmaTransfer.DescAlloc | wireless_paper/wimiv1/driver/xdma-core.c:1999-2064 | a fresh table linked in order, last link 0, magic set, adjacent counts min(number - i - 2, 15) and 0 at the end |
| Transfers.XdmaTransfer.MustEnd | wireless_paper/wimiv1/driver/xdma-core.c:2861-2874 | the local test decides the boundary rule of the whole group |
| Transfers.XdmaTransfer.NextEp | wireless_paper/wimiv1/driver/xdma-core.c:2891-2897 | the endpoint address runs on by the block, except at a fixed address for user buffers |
| Transfers.XdmaTransfer.Lay | wireless_paper/wimiv1/driver/xdma-core.c:2876-2904 | filling descriptor j extends the laid-out groups by the open one and touches no link or control word |
| Transfers.XdmaTransfer.AddEntry | wireless_paper/wimiv1/driver/xdma-core.c:2850-2911 | one turn of the loop keeps the table laid out for all closed groups and the open block equal to the rest |
| Transfers.XdmaTransfer.Build | wireless_paper/wimiv1/driver/xdma-core.c:2827-2926 | the table holds exactly one descriptor for each group, endpoint addresses running on (or fixed); links and control words untouched; the last index is below the number of entries |
| Transfers.XdmaTransfer.FillAdjacent | wireless_paper/wimiv1/driver/xdma-core.c:3010-3014 | every used descriptor gets the count capped by what follows, the field and the page; no move changes |
| Transfers.XdmaTransfer.FinishChain | wireless_paper/wimiv1/driver/xdma-core.c:2991-3014 | only the last used descriptor carries STOPPED, EOP and COMPLETED and ends the links |
| Transfers.XdmaTransfer.Create | wireless_paper/wimiv1/driver/xdma-core.c:2928-3020 | the new transfer's table is a finished chain, stops at its last descriptor and coalesces the mapped list; descriptor count between 1 and the number of entries |
| Transfers.ChainMeansPlainCopy | wireless_paper/wimiv1/driver/xdma-core.c:2827-3020 | main result: walking the finished chain from desc_bus executes exactly desc_num descriptors and halts, and what they do is one plain copy if and only if no group length overflows |
| Transfers.ChainMovesByte | wireless_paper/wimiv1/driver/xdma-core.c:2827-3020 | main result byte by byte: byte k of entry i is moved to or from the endpoint byte that is as far behind ep_addr as the entries before it are long |
| Transfers.FinishedControl | wireless_paper/wimiv1/driver/xdma-core.c:2991-3014 | magic and adjacent count in every control word; STOPPED, EOP and COMPLETED in the last one only |
| Transfers.FirstExtraAdj | wireless_paper/wimiv1/driver/xdma-core.c:889-896 | the first adjacent count is the largest that the field and the chain allow |
| Transfers.PrefetchIsInvisible | wireless_paper/wimiv1/driver/xdma-core.c:889-896 | started with the count engine_start writes, the prefetching engine executes the same as the plain one after any number of steps |
| Transfers.PrefetchStaysInPage | wireless_paper/wimiv1/driver/xdma-core.c:2116-2141 | every prefetched block of a chain stays in its 4 KiB page if and only if its first descriptor does; 32-byte alignment is enough |
| Transfers.FirstBlockInPage | wireless_paper/wimiv1/driver/xdma-core.c:889-896 | the uncapped first block stays in its page for the page-aligned memory the coherent allocator returns |
| CyclicTransfers.OneDescriptorPerEntry | wireless_paper/wimiv1/driver/xdma-core.c:2873-2874 | in one-per-entry mode descriptor i carries exactly entry i |
| CyclicTransfers.SetResultAddresses | wireless_paper/wimiv1/driver/xdma-core.c:2244-2255 | descriptor i gets result slot i as source; destinations, lengths, links and control words stay |
| CyclicTransfers.SetAllControl | wireless_paper/wimiv1/driver/xdma-core.c:2257-2266 | the control byte of every used descriptor is replaced, nothing else |
| CyclicTransfers.RingControl | wireless_paper/wimiv1/driver/xdma-core.c:4049-4092 | every control word of the ring has magic, EOP and COMPLETED without STOPPED, and its adjacent count |
| CyclicTransfers.TransferCyclic | wireless_paper/wimiv1/driver/xdma-core.c:2106-2113 | only the last descriptor changes: linked to the first, no adjacent count |
| CyclicTransfers.CyclicSetup | wireless_paper/wimiv1/driver/xdma-core.c:4072-4099 | setup leaves a receive ring: descriptor i fills page i, reports to slot i, and no descriptor stops |
| CyclicTransfers.MapReceiveBuffer | wireless_paper/wimiv1/driver/xdma-core.c:2955-2973 | entry i of the mapped receive buffer is its page i, whole |
| CyclicTransfers.ReceiveSetup | wireless_paper/wimiv1/driver/xdma-core.c:4065-4099 | from the vmalloc()ed buffer to the ring: descriptor i fills page i of the buffer and reports to slot i |
| CyclicTransfers.EndlessExecution | wireless_paper/wimiv1/driver/xdma-core.c:4072-4099 | for every k, the k-th descriptor the engine executes writes page k mod N and the result slot 32 * (k mod N) bytes into the result buffer |
| CyclicTransfers.EndlessPrefetch | wireless_paper/wimiv1/driver/xdma-core.c:2106-2113 | the prefetching engine runs around the ring in the same way |
| CyclicTransfers.CyclicStop | wireless_paper/wimiv1/driver/xdma-core.c:734-771 | stopping turns the ring into a chain that halts at its last descriptor, which keeps COMPLETED and gets STOPPED; the other descriptors and all moves stay |
| CyclicTransfers.StopsWithinOneRound | wireless_paper/wimiv1/driver/xdma-core.c:734-771 | after the stop, an engine with nothing prefetched halts within N descriptors from anywhere in the ring |
| CyclicTransfers.FetchedBeforeStop | wireless_paper/wimiv1/driver/xdma-core.c:734-771 | descriptors fetched before the stop lead to the slot behind them in the stopped ring: slot 0 if the old last descriptor is among them |
| CyclicTransfers.PrefetchingEngineStops | wireless_paper/wimiv1/driver/xdma-core.c:734-771 | a prefetching engine drains its queue and then halts at the end of the chain from there: in this round, or N descriptors later if it had already fetched the old last one |
| Pages.NrPagesBound | wireless_paper/wimiv1/driver/xdma-sgm.c:107-116 | for a non-empty range the page count is the number of pages touched, at most count/4096 + 2, and fits the byte count tightly |
| Pages.WrapsIff | wireless_paper/wimiv1/driver/xdma-sgm.c:127-128 | the overflow test fires exactly when the range reaches the end of the address space |
| Pages.SgMapper.Create | wireless_paper/wimiv1/driver/xdma-sgm.c:40-72 | arrays for max_len/4096 + 2 pages, none mapped |
| Pages.SgMapper.PopulateMany | wireless_paper/wimiv1/driver/xdma-sgm.c:176-208 | for more than one page, the entries describe exactly the run of count bytes from the offset on |
| Pages.SgMapper.SetPage | wireless_paper/wimiv1/driver/xdma-sgm.c:186-206 | one more entry, from the start of its page, extends the run of bytes described |
| Pages.SgMapper.Populate | wireless_paper/wimiv1/driver/xdma-sgm.c:172-215 | one entry for each page, each of 1 to 4096 bytes within its page, describing exactly the bytes start .. start+count-1; neither BUG_ON on count fires |
| Pages.SgMapper.GetUserPages | wireless_paper/wimiv1/driver/xdma-sgm.c:102-226 | for every outcome of pinning: the exact result, the described range and the references taken on success, none kept on failure |
| Pages.SgMapper.PutAll | wireless_paper/wimiv1/driver/xdma-sgm.c:242-246 | exactly the mapped pages lose one reference each; none stays mapped |
| Pages.SgMapper.DirtyAll | wireless_paper/wimiv1/driver/xdma-sgm.c:250-258 | exactly the mapped pages are marked dirty |
| Pages.SgMapper.PutUserPages | wireless_paper/wimiv1/driver/xdma-sgm.c:235-258 | every mapped page is put exactly once and marked dirty if asked; none stays mapped |
| Pages.SgMapper.LookupPages | wireless_paper/wimiv1/driver/xdma-sgm.c:294-301 | all frames of the buffer are looked up, or the first one that is not mapped ends the loop |
| Pages.SgMapper.KernelPages | wireless_paper/wimiv1/driver/xdma-sgm.c:261-354 | the same description for vmalloc()ed memory; fails exactly when a frame is not mapped or the mapper is too small |
| Pages.WholePages | wireless_paper/wimiv1/driver/xdma-sgm.c:312-345 | a page-aligned range of whole pages: entry i is page i from its start to its end |
| Pages.MapperSuffices | wireless_paper/wimiv1/driver/xdma-sgm.c:49-50 | a mapper created for count bytes is large enough wherever the buffer starts |
| Pages.TransferPages | wireless_paper/wimiv1/driver/xdma-core.c:2668-2693 | over the life of a transfer the page references are conserved, and the BUG_ON of sg_destroy_mapper cannot fire |
| UserTransfers.MapEachBytes | wireless_paper/wimiv1/driver/xdma-core.c:2971-2973 | mapping entry by entry maps the bytes of the page list, in entries of at most a page |
| UserTransfers.MapEachKeepsBytes | wireless_paper/wimiv1/driver/xdma-core.c:2971-2973 | so it is one of the mappings the theorems quantify over |
| UserTransfers.PinnedRangeIsMapped | wireless_paper/wimiv1/driver/xdma-core.c:2955-2973 | a pinned and mapped range, however merged, is the user range byte by byte |
| UserTransfers.OffsetsSurvive | wireless_paper/wimiv1/driver/xdma-sgm.c:186-208 | pages mapped at page boundaries keep the page offset of every byte |
| UserTransfers.TinyTableIff | wireless_paper/wimiv1/driver/xdma-core.c:2850-2923 | the descriptors of n user bytes have at most one byte each if and only if n is at most 1, or 2 with bytes that do not lie one behind the other on the bus |
| UserTransfers.UserRangeIsCopied | wireless_paper/wimiv1/driver/xdma-core.c:2928-3020 | main result: pinned, mapped, coalesced and executed in the mode the engine was started in, n bytes of user memory are copied exactly once and in order; at a fixed address in poll mode if and only if they are copied byte by byte |
| UserTransfers.CreateUserTransfer | wireless_paper/wimiv1/driver/xdma-core.c:2928-3020 | from pinning to the finished chain: the engine executes exactly its table, laid out for the user bytes, and executing it in the engine's mode copies them under the same exact condition; the pages are held; BUG_ON(rc < 0) cannot fire when the pages can be pinned |
| UserTransfers.DestroyUserTransfer | wireless_paper/wimiv1/driver/xdma-core.c:2668-2693 | every pinned page is released once, and marked dirty exactly if the device wrote it |
| Requests.RequestIsPlainCopyIff | wireless_paper/wimiv1/driver/xdma-core.c:3269-3330 | what the hardware does with a request is one plain copy in incremental mode; at a fixed address if and only if it fits one chunk and, in poll mode, is copied byte by byte |
| Requests.RequestMovesByte | wireless_paper/wimiv1/driver/xdma-core.c:3269-3330 | byte by byte, the descriptors executed for a request are laid out between user byte k and the endpoint byte k behind the position, or the start of its 8 MiB chunk at a fixed address |
| Requests.PolledPageMoves | wireless_paper/wimiv1/driver/xdma-core.c:808-826 | one page for a fixed address in poll mode: laid out for the fixed address, moved to or from consecutive ones |
| Requests.ChunkContinues | wireless_paper/wimiv1/driver/xdma-core.c:3324-3329 | the copy of chunk c continues the copy of the chunks before it with no gap or overlap |
| Requests.RunChunk | wireless_paper/wimiv1/driver/xdma-core.c:3278-3316 | from the user buffer on: 0 exactly for a completed transfer, -ERESTARTSYS exactly for one in flight and -EIO otherwise; the descriptors of the hardware's run for a completed one; the pages kept, only those in flight; and the pages marked dirty, only those the device wrote |
| Requests.ExecuteChunk | wireless_paper/wimiv1/driver/xdma-core.c:3286-3302 | what was executed for a completed chunk is the run of the hardware for its transfer, as the queue model records it |
| Requests.CompletedTransferIsCopied | wireless_paper/wimiv1/driver/xdma-core.c:3286-3302 | over every run of the queue, the hardware copied the user bytes of a transfer that was completed, under the exact condition of its mode |
| Requests.NextChunk | wireless_paper/wimiv1/driver/xdma-core.c:3268-3330 | a chunk that succeeds continues address, position, remainder and copy by exactly one chunk; any other ends the request |
| Requests.NextTurn | wireless_paper/wimiv1/driver/xdma-core.c:3268-3331 | one turn of the loop, with an account of the pages marked dirty |
| Requests.TransferData | wireless_paper/wimiv1/driver/xdma-core.c:3254-3335 | terminates for every count; success returns count with all chunks completed; otherwise position, executed descriptors, page references and dirty pages account for exactly the chunks before the first one that was not completed, whose error is returned |
| Requests.AcceptsIff | wireless_paper/wimiv1/driver/xdma-core.c:3022-3067 | what the alignment check accepts in each mode, as residues |
| Requests.OneCheckCoversEveryDescriptor | wireless_paper/wimiv1/driver/xdma-core.c:3055-3064 | in incremental mode the check accepts a request if and only if any descriptor of any chunk has congruent host and endpoint addresses |
| Requests.ReadWrite | wireless_paper/wimiv1/driver/xdma-core.c:3353-3412 | -EINVAL exactly for a wrong direction or alignment, with nothing moved; success returns the count, or 0 for one that is negative as an ssize_t, and moves position and bytes by it; errors stop at the first chunk that was not completed; page references and dirty pages in every case |
| QueueModel.ServiceHead | wireless_paper/wimiv1/driver/xdma-core.c:1384-1475 | one service of a stopped engine takes off exactly the head, completed if and only if its last descriptor is done, and ends one run of the hardware |
| QueueModel.StepKeepsInv | wireless_paper/wimiv1/driver/xdma-core.c:1384-1475 | no step at a proper time fires a BUG_ON or breaks the invariant |
| QueueModel.AllRunsSafe | wireless_paper/wimiv1/driver/xdma-core.c:2320-2373 | main result: over every interleaving of queueing, service and hardware steps at proper times, running iff the queue is non-empty, the hardware started on the head, nothing dequeued in this run, transfers leave once and in submission order, one hardware run for each, which executed the whole chain iff the transfer was completed; no BUG_ON |
| QueueModel.EachRun | wireless_paper/wimiv1/driver/xdma-core.c:1255-1316 | over every such interleaving: the hardware executed the whole chain of a completed transfer, and of a failed one a smaller part from its first descriptor on; in poll mode all that left were completed |
| QueueModel.CompletedMeansMoved | wireless_paper/wimiv1/driver/xdma-core.c:1255-1316 | main result: over every such interleaving, what the hardware moved for completed transfers is what their chains mean in the engine's mode, whole, once each and in submission order |
| QueueModel.PollMatchMeansDone | wireless_paper/wimiv1/driver/xdma-core.c:1510-1559 | a matching poll proves that every descriptor of the current run is done |
| QueueModel.PollKeepsInv | wireless_paper/wimiv1/driver/xdma-core.c:1465-1472 | poll service leaves a cleared writeback and never starts the engine on a stale one; polled transfers leave completed |
| QueueModel.BusyServiceBreaksInv | wireless_paper/wimiv1/driver/xdma-core.c:1275-1285 | servicing a running engine keeps the invariant if and only if it is not busy |
| QueueModel.BusyServiceRun | wireless_paper/wimiv1/driver/xdma-core.c:1275-1285 | a run from a new engine: queue, service, service while busy ends in BUG_ON(!transfer) |
| QueueModel.PollVerdictIff | wireless_paper/wimiv1/driver/xdma-core.c:1561-1581 | for any queue length: poll service completes the head if and only if the count written back is the head's own, and fails it otherwise |
| QueueModel.SecondPollerRun | wireless_paper/wimiv1/driver/xdma-core.c:1561-1581 | a run from a new engine in which a second requester finds its smaller count written back in the middle of the first transfer, and fails it |
| QueueModel.ServiceBugIff | wireless_paper/wimiv1/driver/xdma-core.c:1189-1191 | BUG_ON(!transfer) fires if and only if the queue is empty or the count exceeds all its descriptors |
| QueueModel.ServiceAccounts | wireless_paper/wimiv1/driver/xdma-core.c:1186-1316 | exactly the longest prefix with at most c descriptors completes, at most one more fails, the rest stays in order, and desc_dequeued rises by what was removed |
| Engines.XdmaEngine.EngineStart | wireless_paper/wimiv1/driver/xdma-core.c:855-910 | programs the hardware with the head of the queue, control register included, as the state machine does; neither BUG_ON fires |
| Engines.XdmaEngine.Program | wireless_paper/wimiv1/driver/xdma-core.c:880-905 | the address words and adjacent count of the given transfer, the control word, and a fresh run of the hardware in the mode that word selects |
| Engines.XdmaEngine.StartModeConfig | wireless_paper/wimiv1/driver/xdma-core.c:784-831 | the control word of a start: RUN_STOP, and the addressing mode only when interrupts are used |
| Engines.XdmaEngine.EngineStop | wireless_paper/wimiv1/driver/xdma-core.c:697-726 | the control word of a stop, without RUN_STOP |
| Engines.XdmaEngine.ServiceShutdown | wireless_paper/wimiv1/driver/xdma-core.c:981-990 | the stop step: the hardware's run ends and the engine is not running |
| Engines.XdmaEngine.TransferQueue | wireless_paper/wimiv1/driver/xdma-core.c:2320-2373 | takes the queueing step and leaves the transfer SUBMITTED at the tail |
| Engines.XdmaEngine.Dequeue | wireless_paper/wimiv1/driver/xdma-core.c:1199-1208 | the head leaves the list in the given state and its descriptors are accounted for |
| Engines.XdmaEngine.ServiceTransferList | wireless_paper/wimiv1/driver/xdma-core.c:1186-1226 | the list loop takes its step and sets the recorded state of every transfer it removes |
| Engines.XdmaEngine.ServiceFinalTransfer | wireless_paper/wimiv1/driver/xdma-core.c:1255-1316 | the final transfer takes its step: completed or failed, removed and accounted |
| Engines.XdmaEngine.ReadStatus | wireless_paper/wimiv1/driver/xdma-core.c:1410-1424 | the engine is shut down exactly if it is no longer busy or a count was written back |
| Engines.XdmaEngine.ServiceResume | wireless_paper/wimiv1/driver/xdma-core.c:1344-1374 | a stopped engine restarts exactly if transfers are queued |
| Engines.XdmaEngine.EngineService | wireless_paper/wimiv1/driver/xdma-core.c:1384-1475 | takes the service step of the state machine; -1 exactly for a reported error on a running engine |
| RxModel.PacketsConcat | wireless_paper/wimiv1/driver/xdma-core.c:3588-3630 | a stream that ends with a packet continues without changing its packets |
| RxModel.ResultBound | wireless_paper/wimiv1/driver/xdma-core.c:3602-3618 | a read returns at most 4096 bytes a slot, and something positive if and only if a good record ends the packet |
| RxModel.ResultOf | wireless_paper/wimiv1/driver/xdma-core.c:3588-3631 | what a read takes and returns, by magic, length and EOP bit of the records: the sum of lengths, -EIO for a faulty end, 0 for none |
| RxModel.BytesDelivered | wireless_paper/wimiv1/driver/xdma-core.c:3612-3614 | whole packets of good records carry every received byte once |
| RxModel.WriteKeepsInvIff | wireless_paper/wimiv1/driver/xdma-core.c:1009-1062 | a reported result keeps the ring in order if and only if a slot is clear and its status is not zero |
| RxModel.ProcessKeepsInv | wireless_paper/wimiv1/driver/xdma-core.c:1009-1062 | the handler keeps the ring in order |
| RxModel.CompleteKeepsInvIff | wireless_paper/wimiv1/driver/xdma-core.c:3569-3640 | a read of a non-empty ring keeps the invariant if and only if the end of a packet is pending |
| RxModel.PartialPacketLost | wireless_paper/wimiv1/driver/xdma-core.c:3588-3640 | a run in which a reader comes before the end of a packet and takes the partial packet away with result 0 |
| RxModel.HeadPassesTail | wireless_paper/wimiv1/driver/xdma-core.c:3595-3601 | a run in which a reader comes before the handler and the head passes the tail |
| RxModel.ClearKeepsInv | wireless_paper/wimiv1/driver/xdma-core.c:3681-3687 | clearing the overrun flag, at whatever time, harms no packet |
| RxModel.ReturnedIsNewIff | wireless_paper/wimiv1/driver/xdma-core.c:1021-1031 | the handler returns the number of newly seen EOPs if and only if a full ring is flagged or no EOP waits; otherwise it counts the waiting ones again |
| RxModel.EopCountIs | wireless_paper/wimiv1/driver/xdma-core.c:1021-1031 | the EOP count is additive, counts a record with status bit 0 once and others not at all |
| RxModel.EopsArePackets | wireless_paper/wimiv1/driver/xdma-core.c:1021-1031 | among good records it is the number of packets that end among them |
| RxModel.FlagLostIff | wireless_paper/wimiv1/driver/xdma-core.c:3681-3687 | of all steps, exactly clearing the flag on a full ring makes it wrong |
| RxModel.RecountRun | wireless_paper/wimiv1/driver/xdma-core.c:3681-3687 | a run in which the ring fills up between the read and the clearing of the flag, and the handler counts two packets twice |
| RxModel.Run | wireless_paper/wimiv1/driver/xdma-core.c:1009-1062 | every interleaving of the handler, readers of whole packets, unlocked clearing of the flag, and hardware that reports to clear slots keeps the invariant; the head never passes the tail |
| RxModel.RingIsFifo | wireless_paper/wimiv1/driver/xdma-core.c:3569-3640 | main result: as long as the hardware finds clear slots, over every interleaving, any number of wraps, and the flag cleared at any time, delivered and waiting packets are exactly the packets of the hardware's stream |
| RxRing.Ring.constructor | wireless_paper/wimiv1/driver/xdma-core.c:4056-4059 | the ring starts empty and in order |
| RxRing.Ring.HwWrite | wireless_paper/wimiv1/include/xdma-core.h:397-401 | a result goes to the next slot, clear or not: it is appended to the stream, or, when the ring is full, replaces the first waiting record |
| RxRing.Ring.RingPositions | wireless_paper/wimiv1/driver/xdma-core.c:1033-1037 | the tail is p slots after the head modulo N, pending slots have non-zero status, record k goes to slot k mod N |
| RxRing.Ring.Process | wireless_paper/wimiv1/driver/xdma-core.c:1009-1062 | from any ring the driver can find, flagged or not: terminates, sees everything written unless overrun, flags exactly a full ring, and returns what the receive model says; from a flagged or not full one the number of newly seen packet ends |
| RxRing.Ring.Scan | wireless_paper/wimiv1/driver/xdma-core.c:1021-1060 | the loop from a flagged ring sees each unseen record once and counts its EOP |
| RxRing.Ring.AdvanceTail | wireless_paper/wimiv1/driver/xdma-core.c:1033-1040 | the tail moves on by one record, and overrun is set exactly when the ring is then full |
| RxRing.Ring.Examine | wireless_paper/wimiv1/driver/xdma-core.c:3602-3618 | fault and EOP of one record by magic, length bounds and status bit 0 |
| RxRing.Ring.ClearHead | wireless_paper/wimiv1/driver/xdma-core.c:3621-3625 | the head slot is cleared and the head moves on by one record; the rest of the ring stays |
| RxRing.Ring.TakePacket | wireless_paper/wimiv1/driver/xdma-core.c:3588-3631 | consumes exactly the first waiting packet, with its fault, EOP and length |
| RxRing.Ring.CompleteCyclic | wireless_paper/wimiv1/driver/xdma-core.c:3569-3640 | clears and passes exactly the records of the first waiting packet and returns its length sum, -EIO for a faulty end, 0 for none; at most N * 4096 |
| RxRing.Ring.ClearOverrun | wireless_paper/wimiv1/driver/xdma-core.c:3681-3687 | only the overrun flag is cleared |
| RxRing.LostPacketRun | wireless_paper/wimiv1/driver/xdma-core.c:3679-3692 | a ring of two and three packets: the third is read first, the first one never |
| BitHeader.MagicIff | wireless_paper/wimiv1/driver/xdma-bit.c:222-246 | the magic part is accepted if and only if it is the printed one, up to one byte |
| BitHeader.NameIff | wireless_paper/wimiv1/driver/xdma-bit.c:249-271 | a tagged name is accepted if and only if it is printed so: non-empty and ending in NUL |
| BitHeader.LengthIff | wireless_paper/wimiv1/driver/xdma-bit.c:329-340 | the payload length is accepted if and only if it is printed big-endian behind its tag |
| BitHeader.AcceptsExactlyPrinted | wireless_paper/wimiv1/driver/xdma-bit.c:207-347 | main result: fields and header length are returned if and only if the input begins with them printed |
| BitHeader.RoundTrip | wireless_paper/wimiv1/driver/xdma-bit.c:207-347 | parsing a printed header followed by any payload gives back its fields and its length |
| BitHeader.VerdictStays | wireless_paper/wimiv1/driver/xdma-bit.c:207-347 | a verdict within the input stays when the input goes on |
| BitHeader.ExampleHeader | wireless_paper/wimiv1/driver/xdma-bit.c:207-347 | 38 bytes, written out, and the fields they are parsed to |
| BitHeader.ScanMagic | wireless_paper/wimiv1/driver/xdma-bit.c:222-246 | the byte loop decides exactly what the grammar says, unsigned loop bound included |
| BitHeader.ScanName | wireless_paper/wimiv1/driver/xdma-bit.c:249-271 | one tagged name is read exactly as the grammar says |
| BitHeader.ScanLength | wireless_paper/wimiv1/driver/xdma-bit.c:329-340 | the payload length is shifted in exactly as the grammar says |
| BitHeader.ScanNames | wireless_paper/wimiv1/driver/xdma-bit.c:250-325 | the four names are stored as they are read, or the verdict of the first that fails |
| BitHeader.ParseHeader | wireless_paper/wimiv1/driver/xdma-bit.c:207-347 | accepts, rejects or reads outside exactly as the grammar says; the length stays at the failure value unless accepted |
| BitStream.SwapLoadsBigEndian | wireless_paper/wimiv1/driver/xdma-bit.c:188-190 | loading and swapping a word decodes it big-endian |
| BitStream.SyncWord | wireless_paper/wimiv1/driver/xdma-bit.c:188-190 | the synchronisation word as it stands in a file |
| BitStream.WordsConcat | wireless_paper/wimiv1/driver/xdma-bit.c:408-416 | cutting a payload at a word boundary cuts its words |
| BitStream.Icap.HwicapWrite | wireless_paper/wimiv1/driver/xdma-bit.c:183-205 | writes exactly the words given, never more than there is room for, and tells the core to take all of them; 0 if and only if one of ten polls shows them taken |
| BitStream.TakenIs | wireless_paper/wimiv1/driver/xdma-bit.c:195-201 | words are taken if and only if one of the reads has bit 0 clear, and the polls stop behind the first such read |
| BitStream.BurstDecides | wireless_paper/wimiv1/driver/xdma-bit.c:350-371 | one burst ends the download without room, or when ten reads show its words not taken; otherwise the next one follows the read that shows them taken |
| BitStream.Icap.Helper | wireless_paper/wimiv1/driver/xdma-bit.c:350-371 | every burst fits the vacancy just read; the register reads decide exactly how many words reach the FIFO, in order, and whether all do |
| BitStream.Icap.Stream | wireless_paper/wimiv1/driver/xdma-bit.c:504-516 | chunked equals one-shot: the FIFO gets a prefix of the payload's words; it is complete, all floor(L/4) words, if and only if the vacancies, polls and copies allow it, and its length is exact otherwise; -EFAULT exactly if a copy faults before the FIFO fails |
| BitStream.StreamCompletes | wireless_paper/wimiv1/driver/xdma-bit.c:408-416 | a core that always has room and takes the words completes every download |
| BitStream.FaultDecides | wireless_paper/wimiv1/driver/xdma-bit.c:496-516 | with such a core the stream ends in a fault if and only if the copy of one of its chunks faults |
| BitStream.NeverTaken | wireless_paper/wimiv1/driver/xdma-bit.c:413-414 | a core with room that never takes the words gets exactly one burst |
| BitStream.FullFifoCutsShort | wireless_paper/wimiv1/driver/xdma-bit.c:357-362 | a FIFO without room at the first look takes nothing of a payload of a word or more |
| BitStream.CutShortDownload | wireless_paper/wimiv1/driver/xdma-bit.c:413-414 | a download of such a file to such a core returns 0 with nothing written |
| BitStream.Icap.WaitForDone | wireless_paper/wimiv1/driver/xdma-bit.c:165-181 | 0 if and only if bit 0 or bit 2 is set in one of ten status reads |
| BitStream.Open | wireless_paper/wimiv1/driver/xdma-bit.c:390-404 | accepted, refused or read outside the buffer exactly as the header and the 32-bit sum of its lengths say |
| BitStream.OutsideIff | wireless_paper/wimiv1/driver/xdma-bit.c:397-400 | bad headers and too long sums are refused; the payload is read outside the buffer if and only if the announced sum wraps around below the file length |
| BitStream.Icap.Download | wireless_paper/wimiv1/driver/xdma-bit.c:374-430 | refuses bad files untouched; otherwise the register reads decide exactly what is written; -EIO if and only if all words were written and none of the ten status reads behind them has bit 0 or bit 2 set, 0 otherwise; no written word is left unstarted; a core with room that takes the words gets them all |
| BitStream.PrintedPayload | wireless_paper/wimiv1/driver/xdma-bit.c:390-404 | what is downloaded from a printed file is its payload |
| Mcap.Device.ClearRequestByConfigure | wireless_paper/wimiv1/driver/xdma-bit.c:83-111 | when exactly it fails, and what it leaves in the control register |
| Mcap.Device.CheckForCompletion | wireless_paper/wimiv1/driver/xdma-bit.c:114-135 | succeeds if and only if one of the first eleven reads shows end of startup; writes exactly 100 no-ops for each read before |
| Mcap.FirstEosIs | wireless_paper/wimiv1/driver/xdma-bit.c:114-135 | the deciding status read is the first that shows end of startup, and none before it does |
| Mcap.Device.FullReset | wireless_paper/wimiv1/driver/xdma-bit.c:137-163 | leaves the control register as it was on every path; fails exactly where `ClearRequestByConfigure` does, or if the read behind it shows an error |
| Mcap.Device.Setup | wireless_paper/wimiv1/driver/xdma-bit.c:536-566 | hands back the entry value; succeeds if and only if the request clears in time and three reads show a ready device; restores the register on failure; the exact programming value on success |
| Mcap.ProgrammingIs | wireless_paper/wimiv1/driver/xdma-bit.c:556-563 | that value bit for bit: 0, 8 and 16 set, 1, 4 and 5 clear, and 12 clear on request |
| Mcap.Device.Helper | wireless_paper/wimiv1/driver/xdma-bit.c:568-583 | one-shot writer: exactly the given number of words, in order |
| Mcap.Device.WriteClearing | wireless_paper/wimiv1/driver/xdma-bit.c:589-625 | writes the clearing payload in one go and drops it, or leaves everything alone when it is refused |
| Mcap.Device.WriteChunks | wireless_paper/wimiv1/driver/xdma-bit.c:686-697 | the chunk loop writes the same words as a one-shot writer; it succeeds if and only if the memory is long enough and no copy of a chunk faults |
| Mcap.Device.Finish | wireless_paper/wimiv1/driver/xdma-bit.c:699-707 | fails exactly when the status reads show no end of startup, an error or an overflow; then the entry value is put back, and otherwise the register is left alone |
| Mcap.Device.IoctlDownload | wireless_paper/wimiv1/driver/xdma-bit.c:633-720 | unless the parser reads outside a buffer, every path leaves the control register at its entry value; success wrote clearing and payload words once and in order, copied every chunk, and saw good status reads before and after; bad heads are refused with everything untouched; a healthy device and good files succeed |
| Mcap.Device.BootDownload | wireless_paper/wimiv1/driver/xdma-bit.c:902-958 | success leaves the entry value with only DESIGN_SWITCH added and saw good status reads before and after, failure the entry value; the payload is written once and in order |
| Mcap.HeadDecides | wireless_paper/wimiv1/driver/xdma-bit.c:656-664 | a header accepted in the first 1024 bytes is the header of the file |
| Mcap.UserPayloadIsPayload | wireless_paper/wimiv1/driver/xdma-bit.c:656-676 | what is downloaded from user memory is the payload of the same file in a kernel buffer |

## Left out

- Kernel plumbing: PCI probe and removal, character devices, mmap, interrupt registration, register dumps, sleeps and wait queues; a wait is a step that is possible when its condition holds.
- Failed allocations, except that a transfer cannot be created: the source hits a BUG_ON or unwinds.
- A user range that cannot be pinned: `transfer_create` stops in BUG_ON(rc < 0); the mapper's own result for it is in `Pages.SgMapper.GetUserPages`.
- The hardware error path (`engine_err_handle`) and polling timeouts: the status reads of the queue model carry no error bits.
- Chained mode (`CHAIN_MULTIPLE_TRANSFERS` 1): multi-transfer accounting is proved for a stopped engine, the queue runs for the compiled setting 0.
- QueueModel.StepKeepsInv: at proper times only: an interrupt service finds the engine idle, and one request at a time polls; what happens otherwise is in `QueueModel.BusyServiceBreaksInv` and `QueueModel.PollVerdictIff`.
- QueueModel.AllRunsSafe: the same times, and no error bits, which the error path would need.
- QueueModel.CompletedMeansMoved: the same times; descriptor memory does not change while a transfer is queued, as in the driver.
- Engines.XdmaEngine.StartModeConfig: without the performance test, and without the ADDRMODE_SET ioctl, which changes the addressing mode between requests; an engine keeps its mode here.
- Engines.XdmaEngine.EngineStop: without the performance test.
- Engines.XdmaEngine.TransferQueue: without the refusal while a shutdown is requested, which nothing in the driver does.
- QueueModel.SecondPollerRun: holds for hardware that writes a count back in the middle of a transfer; whether it does, when only the last descriptor carries COMPLETED, is not for the driver to say.
- Engines.XdmaEngine.ServiceFinalTransfer: without the branch for error bits in the status.
- Engines.XdmaEngine.ServiceResume: without the branch for a requested shutdown, which nothing in the driver sets.
- Engines.XdmaEngine.EngineService: without error bits in the status and without the performance counters.
- Asynchronous I/O, and the fields that only it reads (`last_in_request`, `size_of_request`).
- The bytes `copy_cyclic_to_user` delivers: packet lengths and framing only.
- RxModel.Run: readers take a packet when its end is pending; readers that are woken earlier are in `RxModel.CompleteKeepsInvIff`. The hardware reports to clear slots only, which nothing in the driver ensures; a write into an unread slot is in `RxModel.WriteKeepsInvIff` and `RxRing.LostPacketRun`.
- RxModel.RingIsFifo: the same readers and the same clear slots.
- RxRing.Ring.HwWrite: the first write into an unread slot, from a ring in order; what further ones do is not modelled.
- CyclicTransfers.MapReceiveBuffer: a mapping that keeps one entry for each page; one that merges pages would leave fewer descriptors than slots.
- CyclicTransfers.ReceiveSetup: the success path, for a page-aligned buffer; a frame that is not mapped stops transfer_create in BUG_ON(rc < 0).
- CyclicTransfers.CyclicSetup: the success path from the mapped list on; its error exits, buffer allocation and page lookup are not part of it.
- CyclicTransfers.StopsWithinOneRound: for an engine with nothing prefetched; the other case is `CyclicTransfers.PrefetchingEngineStops`.
- Transfers.XdmaTransfer.Create: from the mapped list on; pinning and mapping of a user buffer come with `UserTransfers.CreateUserTransfer`.
- UserTransfers.CreateUserTransfer: a mapping call that fails, returning 0 entries, is not looked at by the source and not modelled.
- Pages.SgMapper.Create: the same bound as `Pages.NrPagesBound`.
- Pages.NrPagesBound: the page count is a C int, so ranges of 2^43 - 8192 bytes and more, where it truncates, are not modelled.
- Pages.SgMapper.GetUserPages: the same bound; the entry loop that `sgm_get_user_pages` and `sgm_kernel_pages` both spell out is one method, `Populate`.
- Pages.SgMapper.KernelPages: the same bound.
- Requests.RunChunk: the state in which a wait leaves the transfer, and how far the engine got with a failed one, are parameters; that they fit together as `QueueModel.EachRun` proves is what `Requests.QueueAndWait` hands on. An uninterrupted wait ends only when the transfer has left the engine, as in interrupt mode.
- Requests.TransferData: executed descriptors are counted for completed chunks.
- Requests.OneCheckCoversEveryDescriptor: for alignments that are powers of two dividing the page size.
- Hardware.ChainWalk: the interpreters are the engine as the driver's comments and structures describe it; timing and partial descriptors are not modelled.
- BitHeader.ParseHeader: for inputs below 4 GiB; the empty magic, whose loop bound wraps around, and empty names end as reads outside the input.
- BitStream.Icap.Download: nothing is said about a file for which the source reads outside the buffer; the AXI gate and the clearing download around it are not modelled.
- Mcap.Device.IoctlDownload: nothing is said about a parser that reads outside a buffer; MCAP_CONTROL is a plain register; the AXI gate is not modelled.
- Mcap.Device.WriteClearing: nothing is said about a stash that is read outside the buffer.
- Mcap.Device.BootDownload: nothing is said about a file that is read outside the buffer.
- Clock scaling, hot reset, performance loops, self-tests, register scripts and the user-space tools.
