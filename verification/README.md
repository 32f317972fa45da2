# Verified model of the emulator's hard state machines

This project models twelve parts of a PC emulator and its network disk server and
proves what they are for. Each Dafny module stands for one of them.

| module | what it models |
|---|---|
| `NetDiskLayers`, `NetDiskWindows`, `NetDiskModel`, `NetDisk` | the network disk client: read windows, write buffer and write-back table in front of a remote image, refining a flat disk |
| `NetDiskLink` | the client's requests over the served connection of `Wrbp`, seen as sectors |
| `Wrbp` | the block protocol: client request and server handler over two byte streams |
| `LazyFlags` | lazily evaluated arithmetic flags against EFLAGS (Intel SDM volume 1, section 3.4.3.1) |
| `Tlb` | the two-layer TLB against a page walk (Intel SDM volume 3A, sections 4.3, 4.6 and 4.8) |
| `RepString`, `RepScan` | REP string instructions in chunks and slices against one element at a time |
| `Checksum` | the native checksum loop against the twelve guest instructions it replaces |
| `Pic` | the cascaded pair of 8259 interrupt controllers |
| `Atapi`, `AtaAddress`, `AtaTransfer`, `Ata` | packet and sector transfers through the IDE data port |
| `DataPort` | what the host sees of such a transfer |
| `Ne2000` | the network card's receive ring and remote DMA |
| `Pit`, `Mouse` | the 8254's interrupt arithmetic and byte accesses; the PS/2 mouse packets and queue |
| `Arithmetic`, `Sequences` | products and quotients by variables, and facts about sequences, that the proofs share |

Code that changes things step by step is modelled by classes and methods with the
same fields and loops; each is proved against a specification function or states its
new state outright, and the lemmas and run methods prove what the specification
means. Time, the network, memory mapping and device callbacks are parameters.

Where a property the code suggests is false, it is kept false, with the condition
under which it holds and an input for which it does not. A network read can miss an
earlier write (`NetDiskModel.StaleReadExample`), and with a small write-back table a
write can be lost under an older one (`NetDiskModel.ShadowExample`); requests that
carry what the server does not read lose the framing (`Wrbp.Framed`,
`Wrbp.LostFraming`); an interrupt can be lost when the master is initialised or polled
past a pending cascade (`Pic.LostAtInitialisation`, `Pic.LostAtPoll`); a byte count
limit of 0 or 1 stops an ATAPI transfer for good (`Atapi.Drive.Stuck`); a sector
transfer that comes to a block past what the address registers can name goes on at the
front of the disk (`AtaTransfer.MovedIsPlain`, `AtaTransfer.WrapExample`); a frame that
ends on the boundary makes the full receive ring look empty (`Ne2000.FilledAtOnce`);
and the checksum replacement differs from the guest when a word it sums overlaps the
accumulator, as segments with different bases allow, or the accumulator is outside
memory (`Checksum.RightIffHarmless`, `Checksum.OverlapExample`).

`dafny verify dfyconfig.toml` checks the whole project.

## Model

| member | source | states |
|---|---|---|
| `NetDisk.RunScript` | source/winspire/ide.c:2539-3055 | over every script of reads, writes and flushes, over the connection to the server, state and replies are exactly the model's; with no shadowed write the disk is the flat disk, and with no stale fetch every reply is the flat disk's too |
| `NetDiskModel.RunIsFlat` | source/winspire/ide.c:2723-3055 | over every run without a shadowed write image, buffer and table together are the flat disk; while the windows stay right, every reply is the flat disk's |
| `NetDiskModel.CoherentIff` | source/winspire/ide.c:2665-3005 | from right windows, they are right after every operation of a run, shadowed writes or not, if and only if no read leaves a stale fetch in them |
| `NetDiskModel.NoPrefetchNeverStale` | source/winspire/ide.c:2952-2958 | with a prefetch of one sector no run has a stale fetch |
| `NetDiskModel.RoomyNeverShadows` | source/winspire/ide.c:3031-3033 | with a table as large as the writes offered to it, as the default sizes make it, no run has a shadowed write |
| `NetDiskModel.OneSectorStaysRightIff` | source/winspire/ide.c:2914-2975 | reading one sector keeps right windows right if and only if a window covers it, it is itself pending, or nothing that the miss would fetch is pending with other contents |
| `NetDiskModel.ReadKeeps` | source/winspire/ide.c:2901-3005 | a read changes nothing on the flat disk, answers right from windows that are right about it, and keeps right windows right if and only if no fetch they then hold is stale |
| `NetDiskModel.ReadAnswers` | source/winspire/ide.c:2912-2915 | from right windows a read is answered with its sectors of the flat disk if they lie on the disk and one request may ask for as many, and refused otherwise |
| `NetDiskModel.WriteAnswers` | source/winspire/ide.c:3018-3021 | a write is taken exactly on a writable disk, for a range on it of at most the largest request; otherwise refused with nothing changed |
| `NetDiskModel.HasPendingIs` | source/winspire/ide.c:2876-2899 | a range has something pending exactly if a sector of it is in the buffer or in a dirty entry |
| `NetDiskModel.WriteKeeps` | source/winspire/ide.c:3008-3055 | a write replaces exactly its sectors of the flat disk unless it is shadowed, and then exactly those without a dirty entry; right windows stay right |
| `NetDiskModel.WriteIsRightIff` | source/winspire/ide.c:3008-3055 | an accepted write replaces exactly its sectors of the flat disk if and only if it is not shadowed, or every dirty entry in its range already holds what it writes |
| `NetDiskModel.ShadowExample` | source/winspire/ide.c:3031-3054 | with a table of one sector a two-sector write over a dirty sector is lost on it, for any three sector contents of which the two written there differ |
| `NetDiskModel.StaleReadExample` | source/winspire/ide.c:2914-2972 | for any two different sector contents the run write 1, read 0, read 1 on a client just opened answers the second read with the old one: the prefetch for its neighbour fetched the pending sector, and the later drain leaves that window alone |
| `NetDisk.Client.Read` | source/winspire/ide.c:2901-3005 | accepted exactly for ranges on the disk of at most the largest request, 0 sectors included; drains first if a requested sector is pending; reply and new state are the model's; windows turn wrong exactly through a stale fetch they hold |
| `NetDisk.Client.ReadWindows` | source/winspire/ide.c:2919-3005 | the loop, with its READs over the connection, computes what `Serve` does for every state of the windows |
| `NetDisk.Client.Write` | source/winspire/ide.c:3008-3055 | accepted exactly on a writable disk for ranges on it of at most the largest request; leaves the model's state: its sectors of the flat disk replaced unless shadowed, overlapping windows dropped; a refused one changes nothing |
| `NetDisk.Client.StoreWrite` | source/winspire/ide.c:2847-2874 | the table takes all sectors of a write or none, draining only when a new slot is due and none is left |
| `NetDisk.Client.WriteBuffered` | source/winspire/ide.c:3034-3055 | without the table: a direct request after a drain, or the contiguous buffer, flushed when it does not continue or is full |
| `NetDisk.Client.DrainWrites` | source/winspire/ide.c:2751-2799 | leaves the image equal to the flat disk and both layers empty; the WRITEs sent are the buffer, if it holds anything, and then runs that cover every dirty sector once, each within the buffer size, at strictly increasing addresses |
| `NetDiskLink.Link.Read` | source/winspire/ide.c:2539-2616 | a READ over the connection brings exactly the sectors of the server's image |
| `NetDiskLink.Link.Write` | source/winspire/ide.c:2539-2616 | a WRITE over the connection replaces exactly those sectors, leaves the bytes past the last whole sector, and is logged with its extent |
| `NetDiskLink.SpliceSectors` | source/server/netblock_server.c:606-627 | replacing a byte range on sector boundaries replaces the sectors and nothing else |
| `NetDiskLink.BytesOfRange` | source/server/netblock_server.c:557-585 | the bytes of a range are the bytes of its sectors |
| `NetDisk.Client.DrainRun` | source/winspire/ide.c:2760-2792 | one turn of the drain sends one WRITE, from the lowest dirty sector up to a gap or the buffer size, keeps the flat disk and leaves fewer dirty sectors |
| `NetDisk.Client.FindLowestDirty` | source/winspire/ide.c:2761-2770 | the search finds the entry of the lowest dirty sector, or none |
| `NetDisk.Client.GatherRun` | source/winspire/ide.c:2773-2784 | gathers and cleans exactly the consecutive dirty sectors, stopping at a gap or the buffer size |
| `NetDisk.Client.FlushWrites` | source/winspire/ide.c:2736-2749 | the buffer goes to the image and the flat disk does not change |
| `NetDisk.Client.Flush` | source/winspire/ide.c:2801-2813 | afterwards the server's image holds the flat disk's bytes and nothing is pending; fails exactly on a writable disk whose server flushes strictly and cannot |
| `NetDisk.Client.Invalidate` | source/winspire/ide.c:2665-2684 | drops exactly the windows that overlap the written range |
| `NetDisk.Client.WriteOverlaps` | source/winspire/ide.c:2876-2899 | true exactly when a sector of the range is pending |
| `NetDiskLayers.StoreWritesOverlay` | source/winspire/ide.c:2847-2874 | storing a sector in its dirty slot or a new one overwrites just that sector of the overlay and keeps dirty entries unique |
| `NetDiskLayers.RunKeepsOverlay` | source/winspire/ide.c:2773-2791 | sending a gathered run and cleaning its entries leaves the overlay as it was |
| `NetDiskLayers.DrainStep` | source/winspire/ide.c:2751-2799 | the progress invariant of the drain is kept by one run, and the dirty sectors shrink |
| `NetDiskLayers.NothingDirtyBehind` | source/winspire/ide.c:2761-2784 | whatever stays dirty lies behind the run just sent |
| `NetDiskLayers.FlushKeepsOverlay` | source/winspire/ide.c:2736-2749 | sending the buffer changes no visible sector |
| `NetDiskLayers.AppendWritesOverlay` | source/winspire/ide.c:3041-3054 | appending to the buffer writes those sectors of the overlay that no dirty entry hides |
| `NetDiskWindows.FetchExtent` | source/winspire/ide.c:2942-2969 | a fetch covers the missing sector and stays within the disk, the request limit and the window buffer; with a prefetch of one it stays inside the request |
| `NetDiskWindows.FetchExtentIs` | source/winspire/ide.c:2942-2969 | a miss that reaches the end of the request short of the prefetch size fetches from the last multiple of it, as much as prefetch, request, window and disk allow; any other just what is missing |
| `NetDiskWindows.OverlapsIs` | source/winspire/ide.c:2665-2684 | a window overlaps a range exactly if it covers a sector of it |
| `NetDiskWindows.NextStartIsNearest` | source/winspire/ide.c:2705-2721 | the next cached start found is the nearest one, or the end of the request |
| `NetDiskWindows.FirstCoveringIsFirst` | source/winspire/ide.c:2686-2703 | the window found is the first in slot order that covers the sector |
| `NetDiskWindows.StepMoves` | source/winspire/ide.c:2919-3005 | the read loop's measure, sectors left and then whether the current one is cached, falls at every turn |
| `NetDiskWindows.ServeIsRight` | source/winspire/ide.c:2919-3005 | with nothing requested pending and the windows right about it, the output is exactly the requested sectors, each once |
| `NetDiskWindows.ReadStaysRightIff` | source/winspire/ide.c:2914-2975 | a read of any size leaves all windows right if and only if none of its last fetches, as many as there are windows, covered a sector pending with other contents; every fetch fits its limits |
| `NetDiskWindows.FetchesBySpans` | source/winspire/ide.c:2922-2972 | what a read fetches depends only on where the windows lie, so the condition can be told before the read |
| `NetDiskWindows.ServeStaysHeld` | source/winspire/ide.c:2981-2991 | every slot holds the last fetch that went to it, in rotation, or what it held before |
| `NetDiskWindows.FreshIsWrongIff` | source/winspire/ide.c:2981-2991 | a window just fetched is wrong if and only if a sector of it is pending with other contents |
| `NetDiskWindows.NoPrefetchNothingStale` | source/winspire/ide.c:2952-2958 | with a prefetch of one sector no fetch is stale |
| `NetDiskWindows.ServeOne` | source/winspire/ide.c:2919-3005 | what a one-sector read returns, fetches and leaves in the windows |
| `NetDiskModel.DroppedStaysRight` | source/winspire/ide.c:2665-2684 | changing a range and dropping the windows on it keeps all windows right |
| `Wrbp.UnpackPacked` | source/winspire/ide.c:2460-2475 | a packed 32-byte header unpacks to itself |
| `Wrbp.PackUnpacked` | source/server/netblock_server.c:37-46 | and any 32 bytes are the packing of what they unpack to |
| `Wrbp.HeaderOnTheWire` | source/server/netblock_server.c:37-46 | the 32 bytes of every message: letters, version 1 and each number with its lowest byte first |
| `Wrbp.RequestOnTheWire` | source/winspire/ide.c:2460-2475 | the header of every request the client sends, number by number, lowest byte first, and the payload behind it |
| `Wrbp.ReadOnTheWire` | source/winspire/ide.c:2460-2475 | a READ of three sectors from sector 5 as 32 bytes |
| `Wrbp.ReadServed` | source/server/netblock_server.c:557-585 | READ, operation 2: the sectors it names, if they are in the image and one request may ask for as many, else status 3 |
| `Wrbp.WriteServed` | source/server/netblock_server.c:586-627 | WRITE, operation 3: those sectors replaced by the payload, or status 4 after up to 512 KiB, or the connection closed |
| `Wrbp.OthersServed` | source/server/netblock_server.c:517-695 | HELLO, FLUSH, PING, TIME, unknown operations and versions by their numbers, with their replies |
| `Wrbp.ReceivedWhen` | source/winspire/ide.c:2587-2614 | the client takes exactly replies with the letters, version 1, its own operation, status 0 and the size it has room for |
| `Wrbp.Pipe.RecvAll` | source/server/netblock_server.c:272-287 | takes exactly the asked bytes in order, however the transport splits them; fails only when the peer goes away first |
| `Wrbp.Pipe.SendAll` | source/server/netblock_server.c:211-226 | hands over all bytes in order, however few the transport takes at a time |
| `Wrbp.Session.RecvDiscard` | source/server/netblock_server.c:289-301 | consumes exactly the rejected payload, for any scratch size |
| `Wrbp.Session.RecvImageWrite` | source/server/netblock_server.c:403-420 | replaces exactly the range, for any scratch size; if the peer leaves early, the whole chunks received by then are in the image |
| `Wrbp.Session.ServeReadRequest` | source/server/netblock_server.c:557-585 | a range error, or the header and the image's bytes |
| `Wrbp.Session.RejectWrite` | source/server/netblock_server.c:589-605 | the payload is discarded and the failure reported, unless it is too large to resynchronise |
| `Wrbp.Session.AcceptWrite` | source/server/netblock_server.c:606-627 | the image range is replaced and acknowledged |
| `Wrbp.Session.ServeOtherRequest` | source/server/netblock_server.c:646-695 | PING and unknown operations consume a payload that fits the buffer and answer |
| `Wrbp.Session.ServeOne` | source/server/netblock_server.c:485-699 | one turn of the server does to streams, image and connection what the case definition `Serve` says |
| `Wrbp.Session.ReceiveAnswer` | source/winspire/ide.c:2587-2614 | the client's checks of header and size, and the payload read |
| `Wrbp.RangeInImage` | source/server/netblock_server.c:563-569 | an accepted range, tested on 64 bits with wrap and sized on 32, lies inside the image |
| `Wrbp.RangeIsExact` | source/server/netblock_server.c:563-564 | the wrapping range test is exactly the test on unbounded numbers |
| `Wrbp.SizeWraps` | source/server/netblock_server.c:587-591 | a size field that matches only by 32-bit wrap belongs to a payload past the protocol limit |
| `Wrbp.AcceptedRead` | source/server/netblock_server.c:557-585 | an accepted READ stays in step exactly when the client asks for the sectors it has room for, and delivers them |
| `Wrbp.RejectedWrite` | source/server/netblock_server.c:589-605 | a rejected WRITE stays in step exactly up to the protocol's payload limit, and changes nothing |
| `Wrbp.AcceptedWrite` | source/server/netblock_server.c:606-627 | an accepted WRITE stays in step exactly when its payload is its sectors, and replaces just those |
| `Wrbp.ExchangeIsRight` | source/server/netblock_server.c:485-699 | from empty streams, one call and its handling leave both streams empty with nobody waiting if and only if the call is framed; then image and answer are a plain disk's |
| `Wrbp.ClientCallsAreFramed` | source/winspire/ide.c:2539-2657 | every call the client itself makes is framed, whatever PING puts into status and flags |
| `Wrbp.LostFraming` | source/server/netblock_server.c:628-645 | a FLUSH that carries a byte is answered as any FLUSH, but the next request, whatever it is, is read one byte late and the server closes the connection without an answer |
| `Wrbp.ReadsBack` | source/server/netblock_server.c:557-627 | reading a written range gives what was written; ranges apart are unaffected |
| `Wrbp.Session.Exchange` | source/winspire/ide.c:2539-2616 | the same for the running client and server |
| `Wrbp.Session.RunScript` | source/winspire/ide.c:2539-2616 | over every script of framed calls, accepted or rejected, both streams end empty and answers and image are those of a plain disk |
| `LazyFlags.TableIsEvenParity` | source/winspire/i386.c:472-489 | the 256 table entries are exactly the bytes of even parity |
| `LazyFlags.CarryFromOrder` | source/winspire/i386.c:421-470 | comparing sign-extended operand and sum finds the carry at every width |
| `LazyFlags.BorrowFromOrder` | source/winspire/i386.c:421-470 | comparing sign-extended operands finds the borrow at every width |
| `LazyFlags.SumOverflow` | source/winspire/i386.c:558-560 | the sign formula is signed overflow of the sum |
| `LazyFlags.DiffOverflow` | source/winspire/i386.c:561-563 | and of the difference |
| `LazyFlags.DigitCarry` | source/winspire/i386.c:500-534 | bit 4 of operands and result is the carry or borrow between digits |
| `LazyFlags.BitwiseByBit` | source/winspire/i386.c:2260-2263 | bit k of AND, OR and XOR is set if it is set in both operands, in either, in exactly one |
| `LazyFlags.LogicExample` | source/winspire/i386.c:2260-2263 | 12 AND 10 stores 8, 12 OR 10 stores 14, 12 XOR 10 stores 6, at every width |
| `LazyFlags.ByteExamples` | source/winspire/i386.c:2244-2268 | flags and results of 0x7F + 1, 0xFF + 1, 0 - 1 and 0x80 - 1 on bytes |
| `LazyFlags.CarryInExamples` | source/winspire/i386.c:2244-2251 | carry and borrow come into ADC and SBB |
| `LazyFlags.CarryExamples` | source/winspire/i386.c:2273-2280 | INC and DEC at the ends of 16 bits keep the carry |
| `LazyFlags.NegExamples` | source/winspire/i386.c:2281-2286 | NEG of 0, 1 and the smallest number |
| `LazyFlags.ExecShows` | source/winspire/i386.c:2244-2286 | each instruction takes a lazy state that shows some flags to one that shows the architecture's next flags, with the right result stored |
| `LazyFlags.RunShows` | source/winspire/i386.c:421-611 | over every instruction sequence at every width, reading the lazy flags gives the eager EFLAGS |
| `LazyFlags.RefreshChangesNothing` | source/winspire/i386.c:603-611 | refresh_flags and clearing the mask change no readable flag and no other bit |
| `LazyFlags.SettingKeepsOthers` | source/winspire/i386.c:2914-2925 | storing one flag changes the reading of no other |
| `LazyFlags.FlagUnit.AddOrSubWithCarry` | source/winspire/i386.c:2244-2252 | the statements of ADC and SBB are the state change `Exec` gives them |
| `LazyFlags.FlagUnit.AddOrSub` | source/winspire/i386.c:2265-2268 | likewise ADD, SUB and CMP |
| `LazyFlags.FlagUnit.IncOrDec` | source/winspire/i386.c:2273-2280 | likewise INC and DEC, whose carry moves to the register first |
| `LazyFlags.FlagUnit.Negate` | source/winspire/i386.c:2281-2286 | likewise NEG |
| `LazyFlags.FlagUnit.LogicInstruction` | source/winspire/i386.c:2269-2272 | likewise AND, OR and XOR; each stored bit is the AND, OR or XOR of the operands' bits |
| `LazyFlags.FlagUnit.SetCarry` | source/winspire/i386.c:2914-2925 | likewise CMC, CLC and STC |
| `LazyFlags.FlagUnit.StoreAh` | source/winspire/i386.c:2908-2912 | likewise SAHF |
| `LazyFlags.FlagUnit.LoadAh` | source/winspire/i386.c:2903-2906 | likewise LAHF, and AH is the low byte |
| `Tlb.LookupIsDenied` | source/winspire/i386.c:654-667 | the rights table is the architecture's protection rule for every write-protect bit, rights, mode and access |
| `Tlb.FreshByAddress` | source/winspire/i386.c:669-736 | the answer in bits of the linear address: bits 31 to 22 choose the directory entry, 21 to 12 the table entry, the rest passes through; which accesses both levels and CR0.WP refuse, with error code and CR2 |
| `Tlb.XaddrTranslates` | source/winspire/i386.c:690 | exclusive-or with the stored value yields frame and offset |
| `Tlb.WalkIgnoresMarks` | source/winspire/i386.c:669-695 | setting accessed and dirty bits changes no walk |
| `Tlb.MarksKeepCaches` | source/winspire/i386.c:669-700 | nor makes any cached entry wrong |
| `Tlb.Mmu.Clear` | source/winspire/i386.c:637-652 | an empty cache is right whatever the tables are |
| `Tlb.Mmu.SetRoot` | source/winspire/i386.c:2815-2817 | writing CR3 leaves a right cache |
| `Tlb.Mmu.SetWriteProtect` | source/winspire/i386.c:2807-2812 | writing CR0.WP leaves a right cache |
| `Tlb.Mmu.Remap` | source/winspire/i386.c:4482 | INVLPG after a change of the tables leaves a right cache |
| `Tlb.Mmu.Refill` | source/winspire/i386.c:669-695 | succeeds exactly when the walk does, puts the page in its slot and sets no bits but accessed ones of the entries it reads |
| `Tlb.Mmu.TranslateMain` | source/winspire/i386.c:703-736 | address or fault with error code of a fresh walk; success leaves accessed bits, and for writes the dirty bit, set, and nothing else |
| `Tlb.Mmu.LookInSlots` | source/winspire/i386.c:747-765 | a hit in the fast layer gives the same answer |
| `Tlb.Mmu.Remember` | source/winspire/i386.c:788-809 | what is remembered or forgotten keeps the fast layer right |
| `Tlb.Mmu.Translate` | source/winspire/i386.c:738-815 | the two layers together answer as a fresh walk; success leaves accessed bits, and for writes the dirty bit, set, and no other bit of any entry is set |
| `Tlb.Run` | source/winspire/i386.c:637-815 | for any history of hits, misses, evictions, faults, privilege changes, writes to CR3 and CR0.WP and new tables announced by INVLPG, the answers are those of fresh walks with no cache, the tables only gain accessed and dirty bits, and every access that succeeded since they were last replaced has left its accessed bits, and every write its dirty bit |
| `RepString.ChunkIsElements` | source/winspire/i386.c:3262-3298 | a chunk inside its pages equals that many single elements, for either direction and any overlap |
| `RepString.BulkIsElements` | source/winspire/i386.c:3269-3289 | under its guard the bulk fill or memmove equals storing the elements in order |
| `RepString.PageCountFits` | source/winspire/i386.c:3264-3267 | the page count formula keeps every element of a chunk inside its page, going up or down |
| `RepString.AddTimesIsProduct` | source/winspire/i386.c:3295-3296 | moving an index register by count times step equals stepping it, modulo 2^32 |
| `RepString.StringUnit.StepMany` | source/winspire/i386.c:3251-3261 | the slow path is the elements one at a time, stopping at the first fault |
| `RepString.StringUnit.StoreBulk` | source/winspire/i386.c:3269-3289 | the bulk path, in place on memory, equals the elements in order |
| `RepString.StringUnit.StoreChunk` | source/winspire/i386.c:3388-3462 | one chunk moves memory and registers exactly as its elements would |
| `RepString.StringUnit.Execute` | source/winspire/i386.c:3246-3299 | one pass, possibly yielding after a slice, leaves the outcome of the whole instruction unchanged |
| `RepString.FaultsExactly` | source/winspire/i386.c:3242-3262 | an element faults exactly if its source or destination cannot be translated, the source first |
| `RepString.MovesByte` | source/winspire/i386.c:3172-3193 | one element: each byte of ES:EDI gets the fill's byte or DS:ESI's, both found through the page of its own linear address |
| `RepString.MovesNothingElse` | source/winspire/i386.c:3172-3205 | no other byte changes; EDI and, but for STOS, ESI move by the element size, forwards or backwards |
| `RepString.MissingIsFirst` | source/winspire/i386.c:3172-3193 | translating an element fails exactly if the page of one of its bytes is missing, at the first such byte |
| `RepString.FaultIsFirst` | source/winspire/i386.c:3187-3193 | the source is translated before the destination, and the fault names the first byte that cannot be |
| `RepString.StringUnit.ExecuteAll` | source/winspire/i386.c:3218-3299 | repeated until done, the instruction ends exactly as ECX single elements, with the same fault: address, and read or write |
| `RepScan.ScanFinds` | source/winspire/i386.c:3340-3386 | stops right after the first element that fails the condition, ECX counts what remains, flags are those of the last comparison, and ECX = 0 changes nothing |
| `RepScan.ScanByFlags` | source/winspire/i386.c:3373-3384 | every comparison before the last sets ZF under REPE and clears it under REPNE; if ECX has not run out and nothing faults, the last does the opposite |
| `RepScan.OperandByte` | source/winspire/i386.c:3182-3201 | each byte compared is the accumulator's or DS:ESI's, and ES:EDI's, found through the page of its own linear address |
| `RepScan.EqualIffZeroFlag` | source/winspire/i386.c:3376-3382 | the zero flag of the SUB that the helper makes of two elements is their equality, at every width |
| `RepScan.ScanUnit.Execute` | source/winspire/i386.c:3474-3519 | one slice leaves the outcome of the whole instruction unchanged |
| `RepScan.ScanUnit.ExecuteAll` | source/winspire/i386.c:3226-3241 | sliced CMPS and SCAS end exactly as the unsliced instruction, with the same fault |
| `Checksum.NativeIsGuest` | source/winspire/i386.c:2146-2212 | in a harmless placement, running the guest's instructions to loop exit reaches exactly the replacement's state: accumulator, EAX, ECX, EDX, ESI, six flags, memory, exit address and cycles |
| `Checksum.RightIffHarmless` | source/winspire/i386.c:2173-2200 | the replacement equals the guest for every content of memory, registers and flags if and only if the accumulator is in memory and no word after the first overlaps it, or there is but one word |
| `Checksum.Counterexample` | source/winspire/i386.c:2173-2200 | for every other placement, a memory with a single bit set for which the guest ends with another EDX |
| `Checksum.GuestEnds` | source/winspire/i386.c:2146-2153 | the guest's EDX at the end is that of passes that store the accumulator and read it back |
| `Checksum.OnePass` | source/winspire/i386.c:2187-2195 | twelve instructions are one turn of the native loop, or come to 0 where the accumulator is outside memory |
| `Checksum.NativeOfRest` | source/winspire/i386.c:2187-2200 | after a pass that is not the last, the shorter loop has the same end |
| `Checksum.FlagsAtExit` | source/winspire/i386.c:2201 | the flags written at the end are those of counting down from one after an addition without carry |
| `Checksum.SumSeesOnlySource` | source/winspire/i386.c:2173-2181 | memory apart from the source does not affect the sum |
| `Checksum.SignatureIsLoop` | source/winspire/i386.c:2148-2153 | the recognised bytes encode these twelve instructions and are as long as the skip over them |
| `Checksum.Processor.InRam` | source/winspire/i386.c:1949-1967 | the range test is exactly that the first byte and the first byte of each further page of offsets are in memory and no device's |
| `Checksum.Processor.AlignedRange` | source/winspire/i386.c:1949-1967 | for a base at the start of a page that is the whole range |
| `Checksum.Processor.FastLoop` | source/winspire/i386.c:2168-2211 | taken exactly when count, guard and range test allow; then the state is `Native`'s, and in a harmless placement the one the guest's instructions reach; equal bases make it harmless exactly if the accumulator is in memory; otherwise nothing changes |
| `Checksum.OverlapExample` | source/winspire/i386.c:2173-2181 | with DS one above SS and two words, the second of them the accumulator, the guest comes to 2 and the replacement to 1 |
| `Checksum.OverlapTaken` | source/winspire/i386.c:2168-2211 | and the replacement takes just that input |
| `Checksum.Processor.SumWords` | source/winspire/i386.c:2185-2195 | the native loop computes the folded sum and its last high half |
| `Pic.FindPriority` | source/winspire/i8259.c:72-81 | the search finds the least rank among the lines of a mask |
| `Pic.PriorityIsLeast` | source/winspire/i8259.c:72-81 | that rank is the least, and 8 exactly for an empty mask |
| `Pic.GetIrqIsMostUrgent` | source/winspire/i8259.c:84-107 | a line is chosen exactly when some unmasked request beats everything that blocks, and it is the most urgent such request |
| `Pic.BlockingIs` | source/winspire/i8259.c:92-99 | which lines in service hold requests back, in the plain and the special modes |
| `Pic.MaskIsBits` | source/winspire/i8259.c:265-269 | a mask write masks line k exactly if bit k is set |
| `Pic.ReadWords` | source/winspire/i8259.c:218-224 | the words 0x0A, 0x0B and 0x0C select a register and poll |
| `Pic.MaskModeWords` | source/winspire/i8259.c:218-224 | 0x68 and 0x48 turn special mask mode on and off |
| `Pic.RotationWords` | source/winspire/i8259.c:225-231 | 0x80 and 0x00 turn rotation on automatic end of interrupt on and off, and 0x40 does nothing |
| `Pic.NamedWords` | source/winspire/i8259.c:243-257 | 0x60, 0xC0 and 0xE0 plus a line end its interrupt, make it the least urgent, or both |
| `Pic.EndWords` | source/winspire/i8259.c:232-242 | 0x20 retires the most urgent line in service, and 0xA0 also makes it the least urgent |
| `Pic.EndOfNothing` | source/winspire/i8259.c:232-242 | with nothing in service they do nothing |
| `Pic.InitWords` | source/winspire/i8259.c:210-286 | the four initialisation words reset the controller and set base and modes |
| `Pic.OneRequestPerEdge` | source/winspire/i8259.c:55-68 | a line asks once for each rising edge |
| `Pic.TakenLine` | source/winspire/i8259.c:136-145 | what taking a line does to requests, lines in service and priorities |
| `Pic.UpdateTells` | source/winspire/i8259.c:109-127 | a slave request becomes one on line 2 of the master, and the CPU is told exactly when the master wants service |
| `Pic.VectorIs` | source/winspire/i8259.c:147-174 | the vector is the base of the controller that owns the line served plus the line; spurious ones are line 7 of the controller they happened on |
| `Pic.BaseAfterInit` | source/winspire/i8259.c:270-273 | after the four words the vectors start at the second one, rounded down to eight |
| `Pic.ClockExample` | source/winspire/i8259.c:129-174 | with bases 0x08 and 0x70 a rising edge on line 0 of the slave is delivered as 0x70, with lines 2 and 0 in service |
| `Pic.UpdateLosesNothing` | source/winspire/i8259.c:111-127 | after an update the CPU flag and the cascade show what the controllers want |
| `Pic.AcknowledgeLosesNothing` | source/winspire/i8259.c:147-174 | taking an interrupt, spurious or not, loses no other |
| `Pic.WritePortLosesNothingIff` | source/winspire/i8259.c:200-288 | which port writes keep every request visible |
| `Pic.ReadPortLosesNothingIff` | source/winspire/i8259.c:290-337 | which port reads, polls included, keep every request visible |
| `Pic.StepLosesNothingIff` | source/winspire/i8259.c:56-337 | an operation without special modes loses nothing if and only if it is not one of the named cases that drop the cascade request |
| `Pic.RunLosesNothing` | source/winspire/i8259.c:56-287 | no interrupt is lost in any state reached by operations outside those cases |
| `Pic.LostAtInitialisation` | source/winspire/i8259.c:205-218 | one slave request, then ICW1 to the master: an ordinary operation after which the request is not visible |
| `Pic.LostAtPoll` | source/winspire/i8259.c:290-311 | the same for a polled read of the master that reports the cascade line |
| `Pic.TopIsMostUrgent` | source/winspire/i8259.c:84-107 | the most recently acknowledged line is the most urgent in service |
| `Pic.EndOfInterruptPops` | source/winspire/i8259.c:232-242 | a non-specific end of interrupt retires it |
| `Pic.AcknowledgePushes` | source/winspire/i8259.c:136-145 | only a more urgent request is acknowledged over it |
| `Pic.StepKeepsNest` | source/winspire/i8259.c:136-242 | every fully nested operation, selecting a register to read included, keeps both controllers' in-service lines a strictly rising stack |
| `Pic.RunKeepsNest` | source/winspire/i8259.c:136-242 | so does every run of them |
| `Pic.InitIsNested` | source/winspire/i8259.c:205-282 | after ICW1 to ICW4 for both controllers, from any state, nothing is in service and the invariant holds |
| `Pic.StartIsNested` | source/winspire/i8259.c:339-352 | and so at the start |
| `Pic.Controllers.SetIrq` | source/winspire/i8259.c:56-68 | the method is the step the run theorems are about |
| `Pic.Controllers.UpdateIrq` | source/winspire/i8259.c:111-127 | likewise pic_update_irq |
| `Pic.Controllers.ReadIrq` | source/winspire/i8259.c:147-174 | the acknowledge cycle, and the vector: base of the owning controller plus the line, or plus 7 when spurious |
| `Pic.Controllers.Write` | source/winspire/i8259.c:200-288 | likewise port writes |
| `Pic.Controllers.Read` | source/winspire/i8259.c:312-337 | likewise port reads, with the value read |
| `Atapi.BlocksCarryData` | source/winspire/ide.c:1070-1144 | the words of a transfer are the data in order, each byte once |
| `Atapi.CountsHold` | source/winspire/ide.c:1112-1141 | every announced byte count is even, at least 2, within the host's limit, and is the number of bytes read up to the next interrupt |
| `Atapi.ChunkIsLargest` | source/winspire/ide.c:1114-1130 | the size announced is the largest there can be within what is left and the limit |
| `Atapi.FlatAt` | source/winspire/ide.c:1070-1086 | sector i of a transfer is the disc's sector at the start plus i |
| `Atapi.PendingIsBlocks` | source/winspire/ide.c:1070-1144 | what the state machine still has to do, with every sector there, is the block sequence |
| `Atapi.PendingCarriesData` | source/winspire/ide.c:1087-1095 | if the disc ends early the host still gets every sector there is, and the end is an error exactly then |
| `Atapi.Drive.ChooseSize` | source/winspire/ide.c:1113-1129 | the size announced in the cylinder registers: the rest, or the limit made even, 0xffff counting as 0xfffe |
| `Atapi.Drive.Announce` | source/winspire/ide.c:1112-1141 | with a limit of at least 2 the host can read on; with 0 or 1 it is told to read and never can |
| `Atapi.Drive.StartBurst` | source/winspire/ide.c:1100-1110 | a burst stays inside the sector buffer |
| `Atapi.Drive.CommandReplyEnd` | source/winspire/ide.c:1070-1144 | the callback keeps events so far and events to come equal to the plan |
| `Atapi.Drive.CommandRead` | source/winspire/ide.c:1162-1173 | a READ starts the plan, or gets stuck exactly for limits below 2 |
| `Atapi.Drive.DataReadWord` | source/winspire/ide.c:1755-1778 | each word read is the next two bytes of the plan |
| `Atapi.Drive.HostRead` | source/winspire/ide.c:1162-1173 | the host reads exactly the sectors asked for in blocks of the announced sizes and the transfer ends; or the sectors there are and an error |
| `AtaAddress.GetAfterSet` | source/winspire/ide.c:588-619 | ide_get_sector after ide_set_sector reads the sector number modulo all that the registers can name, in LBA and CHS |
| `AtaAddress.LbaRegisters` | source/winspire/ide.c:588-619 | which register holds which bits of an LBA, in both directions |
| `AtaAddress.ChsRegisters` | source/winspire/ide.c:588-619 | sectors from 1 run fastest, then heads, then the 16-bit cylinder, in both directions |
| `AtaAddress.GetInvertsSet` | source/winspire/ide.c:588-619 | so it reads back what was set if and only if the number fits the registers |
| `AtaAddress.SetInvertsGet` | source/winspire/ide.c:588-619 | writing back what was read changes nothing if and only if the registers name a position of the drive |
| `AtaAddress.SetTwice` | source/winspire/ide.c:603-619 | only the last position set matters |
| `AtaTransfer.MovedIsPlain` | source/winspire/ide.c:621-735 | the blocks that the registers lead to are consecutive sectors, as far as the disk has them, if and only if no block after the first that the transfer comes to starts at or past the registers' capacity |
| `AtaTransfer.WithinIsStraight` | source/winspire/ide.c:621-735 | that holds for every transfer that ends within the capacity and on every disk smaller than it |
| `AtaTransfer.WrapsRound` | source/winspire/ide.c:657-661 | past the capacity the next block is there, but somewhere else |
| `AtaTransfer.LastThenFirst` | source/winspire/ide.c:657-661 | from the last position that the registers can name, the second single sector read or written is sector 0 |
| `AtaTransfer.WrapExample` | source/winspire/ide.c:588-619 | with one head and one sector per track, position 65535 and count 2 read sectors 65535 and 0 of a larger disk |
| `AtaTransfer.PlainBlocks` | source/winspire/ide.c:657-667 | consecutive blocks adjoin, none is over the block size and only the last of the transfer can be under it |
| `AtaTransfer.AllFit` | source/winspire/ide.c:642-645 | every sector is moved if and only if the disk has them all |
| `AtaTransfer.PlainArrives` | source/winspire/ide.c:657-661 | the registers come to stand past the sectors moved |
| `AtaTransfer.ReadIsPlain` | source/winspire/ide.c:621-682 | a straight READ brings exactly the sectors from where the registers stand, as far as whole blocks are there, with the final registers and the number not moved |
| `AtaTransfer.WriteIsPlain` | source/winspire/ide.c:684-748 | a straight WRITE replaces exactly those sectors, with the same final registers; a read-only disk takes none |
| `AtaTransfer.ReadLogCarries` | source/winspire/ide.c:656-668 | the words that cross the port in a READ are its blocks, in order |
| `AtaTransfer.WriteLogCarries` | source/winspire/ide.c:714-748 | the words asked for in a WRITE are the first of the host's data, in order |
| `AtaTransfer.PutReplaces` | source/winspire/ide.c:695-696 | exactly the written sectors change, and read back as written |
| `AtaTransfer.FlatAt` | source/winspire/ide.c:636-641 | sector i of a block is the disk's sector at its start plus i |
| `Ata.Drive.SetMultiple` | source/winspire/ide.c:774-786 | SET MULTIPLE takes powers of two up to the buffer, and 0; any other value keeps the setting and aborts; an interrupt either way |
| `Ata.Drive.Advance` | source/winspire/ide.c:657-663 | count and address registers move past a block together |
| `Ata.Drive.ReadCallback` | source/winspire/ide.c:650-668 | a fetched block is announced by an interrupt with its size, and its bytes are the next to be read |
| `Ata.Drive.SectorRead` | source/winspire/ide.c:621-655 | the next block is in the buffer and announced, or the command aborts with the registers at that block; what has been seen and what is to come are the READ's outcome |
| `Ata.Drive.DataReadWord` | source/winspire/ide.c:1755-1778 | each word read is the next of the outcome, across block boundaries |
| `Ata.Drive.CommandRead` | source/winspire/ide.c:787-805 | READ and READ MULTIPLE start on the way to the outcome, with 0 standing for 256; refused when no multiple is set |
| `Ata.Drive.HostRead` | source/winspire/ide.c:621-682 | data, log, address and count registers are those of the blocks the registers lead to, each announced with its size; the drive ends idle, without an interrupt, or aborts; a straight READ gets the consecutive sectors |
| `Ata.Drive.AskForBlock` | source/winspire/ide.c:714-748 | the next block is asked for with its size, with an interrupt but for the first |
| `Ata.Drive.WriteBlock` | source/winspire/ide.c:684-735 | a full block replaces its sectors and the next is asked for, or the command ends with an interrupt |
| `Ata.Drive.DataWriteWord` | source/winspire/ide.c:1734-1753 | each word sent is stored in the buffer, and the last of a block writes it or fails |
| `Ata.Drive.HostWrite` | source/winspire/ide.c:684-748 | disk, log, address and count registers are those of the blocks the registers lead to, each asked for with its size; the drive ends idle or aborts; a straight WRITE replaces the consecutive sectors |
| `Ne2000.Card.Receive` | source/winspire/ne2000.c:306-402 | a frame is taken exactly if it is short enough, wanted and there is room; then header and padded frame lie at the current page and nothing outside the free pages is touched |
| `Ne2000.PassesWhen` | source/winspire/ne2000.c:324-349 | which frames the filter lets through: promiscuous, broadcast, multicast by hash, station address |
| `Ne2000.Card.StationAddress` | source/winspire/ne2000.c:228-242 | the station's address is every other byte of the copied PROM |
| `Ne2000.PacketInMemory` | source/winspire/ne2000.c:352-395 | status, next page and size in the header, and the frame filled up to 60 bytes with zeros |
| `Ne2000.RoundTheRing` | source/winspire/ne2000.c:360-394 | pages and addresses go round the ring |
| `Ne2000.FreeIs` | source/winspire/ne2000.c:280-293 | the space free is what lies from the current page up to the boundary, all of it if they are equal |
| `Ne2000.Card.CopyAround` | source/winspire/ne2000.c:379-394 | the copy loop stores the bytes around the ring's end and writes nothing else |
| `Ne2000.Card.NextAddress` | source/winspire/ne2000.c:360-366 | the next packet address is a page of the ring |
| `Ne2000.FrontStays` | source/winspire/ne2000.c:360-395 | packets between boundary and current page are not affected |
| `Ne2000.QueueAppends` | source/winspire/ne2000.c:360-395 | an accepted packet that leaves a page free joins the end of the queue |
| `Ne2000.FullLooksEmpty` | source/winspire/ne2000.c:280-293 | the card counts the whole ring free exactly when the current page is the boundary, and a queue between them is empty exactly then |
| `Ne2000.TakenInQueue` | source/winspire/ne2000.c:360-402 | an accepted packet in memory joins the queue if and only if it does not fill the ring; if it does, the ring reads as empty |
| `Ne2000.NothingLostIff` | source/winspire/ne2000.c:280-402 | over any run the driver has taken and still finds exactly the packets waiting at first and the accepted ones, in order, if and only if no accepted frame fills the ring; never more |
| `Ne2000.FilledAtOnce` | source/winspire/ne2000.c:360-402 | an empty ring of six pages and a frame of 1514 bytes: accepted, and the driver finds nothing |
| `Ne2000.Card.Deliver` | source/winspire/ne2000.c:280-402 | acceptance and new state are the model's; the waiting packets survive and the new one waits behind them if and only if it does not fill the ring |
| `Ne2000.Card.PortRead` | source/winspire/ne2000.c:981-999 | a read gives the byte or aligned word and moves address and count, wrapping at the ring's end |
| `Ne2000.Card.DmaUpdate` | source/winspire/ne2000.c:943-959 | address and count after a transfer, and when it is complete |
| `Ne2000.Card.RemoteRead` | source/winspire/ne2000.c:943-999 | remote DMA reads ring bytes in order across the wrap, in 8- and 16-bit mode |
| `Ne2000.Card.TakePacket` | source/winspire/ne2000.c:909-999 | a driver following the headers gets the oldest waiting packet whole |
| `Ne2000.Card.Run` | source/winspire/ne2000.c:280-402 | over any run of arrivals and takes the packets the driver takes and those left are exactly the model's |
| `Pit.GapFits` | source/winspire/i8254.c:276 | calls under 1.4e9 microseconds apart leave neither the time nor the tick product over 32 bits |
| `Pit.Advanced` | source/winspire/i8254.c:281-284 | a boundary is a period past the last interrupt exactly if the period index is higher |
| `Pit.Channel.ExactTime` | source/winspire/i8254.c:274-276 | the 32-bit time difference and tick count are the true ones |
| `Pit.Channel.UpdatePeriodic` | source/winspire/i8254.c:272-297 | pulses exactly when the period has advanced in true time; the last interrupt stays a multiple of the count; time restarts past half the clock's range |
| `Pit.Channel.Fire` | source/winspire/i8254.c:286-293 | the pulse and the restart keep the invariant |
| `Pit.OnePeriod` | source/winspire/i8254.c:281-284 | calls within a period of each other pass one boundary at most |
| `Pit.Channel.UpdateOnce` | source/winspire/i8254.c:299-306 | the other modes pulse when the counter is found expired and no pulse was given since the count; the invariant is kept for the next call |
| `Pit.Channel.RunOnce` | source/winspire/i8254.c:299-306 | over any calls one pulse, at the first that finds the counter expired, and no other |
| `Pit.PulsesOnce` | source/winspire/i8254.c:299-306 | so no two calls of a run pulse |
| `Pit.ExpiredTruly` | source/winspire/i8254.c:274-276 | until the tick count wraps, expiry on 32 bits is expiry in true time |
| `Pit.Channel.RunPeriodic` | source/winspire/i8254.c:272-297 | over any calls which of them pulse is exactly as in true time, with the two bounds below |
| `Pit.PulsesBound` | source/winspire/i8254.c:281-293 | pulses never exceed the whole periods elapsed since programming, however the calls fall and however often time restarts |
| `Pit.PulsesKeepUp` | source/winspire/i8254.c:281-293 | with calls less than a period apart, each restart of time costs less than one period and nothing else is lost |
| `Pit.PulseAtBoundary` | source/winspire/i8254.c:281-284 | until time restarts a call pulses exactly if a boundary was passed since the call before |
| `Pit.Channel.Latch` | source/winspire/i8254.c:130-136 | a latch holds the counter of its moment, and a second is ignored until it is read |
| `Pit.Channel.ReadPort` | source/winspire/i8254.c:205-255 | which byte each read gives, latched or live |
| `Pit.Channel.CountsDown` | source/winspire/i8254.c:63-85 | the value a guest reads in each mode, from the ticks of 1193182 Hz since the count was loaded |
| `Pit.Channel.ReadLatched` | source/winspire/i8254.c:205-255 | a latched count is read whole however late its bytes are read |
| `Pit.Channel.WritePort` | source/winspire/i8254.c:183-202 | one byte, or two in turn, load the count |
| `Pit.Channel.ProgramWord` | source/winspire/i8254.c:167-200 | a control word and two bytes program the value, 0 as 65536 |
| `Mouse.PacketsDecode` | source/winspire/i8042.c:700-774 | decoding an event's packets gives its whole motion back, the wheel for the types that have one |
| `Mouse.PacketOnTheWire` | source/winspire/i8042.c:700-746 | a packet bit by bit: buttons, signs, axes of at most 127 and wheel of at most 127 or 7 in two's complement, and what stays for the next |
| `Mouse.PacketExample` | source/winspire/i8042.c:700-746 | 5 right and 3 down with the left button is 0x29 0x05 0xFD |
| `Mouse.PacketMoves` | source/winspire/i8042.c:764-772 | every packet with motion in it brings the end nearer, so the loop ends |
| `Mouse.PacketCount` | source/winspire/i8042.c:764-772 | k packets are enough exactly if each axis fits in k times its range |
| `Mouse.NothingDropped` | source/winspire/i8042.c:494-499 | no byte of an event is dropped if and only if its packets fit in the queue, as they do for five 3-byte or four 4-byte packets |
| `Mouse.Ps2Mouse.Put` | source/winspire/i8042.c:485-506 | a byte joins the queue unless it is full |
| `Mouse.Ps2Mouse.ReadData` | source/winspire/i8042.c:589-621 | the oldest byte leaves the queue and the line stays up while more wait; an empty queue repeats the last byte |
| `Mouse.Ps2Mouse.SendPacket` | source/winspire/i8042.c:700-746 | one packet is queued and its motion subtracted |
| `Mouse.Ps2Mouse.SendAll` | source/winspire/i8042.c:764-772 | all packets are queued and no motion is left |
| `Mouse.Ps2Mouse.Event` | source/winspire/i8042.c:748-774 | an event is reported exactly if the mouse is enabled and not remote, fewer than 240 bytes wait, and there is motion or a button changed; otherwise its motion stays pending |
| `Mouse.Ps2Mouse.Run` | source/winspire/i8042.c:589-774 | over any run of events and reads the bytes read, the queue, the pending motion and the buttons are exactly the model's |
| `Mouse.NothingDroppedIff` | source/winspire/i8042.c:485-506 | over any run, what was read and is queued is all that was queued and reported, in order, if and only if every reported event's packets fit at its state; never more |
| `Mouse.ReportedIsMotion` | source/winspire/i8042.c:700-774 | what a run reports decodes, with what is left pending, to all its motion |
| `Mouse.RunKeepsMotion` | source/winspire/i8042.c:589-774 | so where the packets fit, what was read and is queued decodes to all motion save what is pending |
| `Mouse.SmallMotionsFit` | source/winspire/i8042.c:494-499 | they fit when every reported motion is within five 3-byte or four 4-byte packets |

## Left out

- NetDisk.RunScript: transport failures are not modelled; the drain clears dirty bits before sending (ide.c:2782-2790) and a failed store is taken as success (ide.c:3031-3033), so the property needs a transport that works.
- NetDisk.Client.Read: statistics, diagnostics and the environment settings are parameters of the configuration or left out.
- Wrbp.Session.ServeOne: disk errors while reading or writing the image are not modelled; a failing flush is. Logging, socket options and the final flush on disconnect are left out.
- Wrbp.Pipe.RecvAll: a receive that times out is taken as the peer going away.
- Wrbp.Session.ReceiveAnswer: the PING exchange uses the same checks with no room for a payload.
- LazyFlags.RunShows: multiplications, shifts, rotates and bit scans are not modelled; the auxiliary flag is not compared after AND, OR and XOR, where it is undefined.
- Tlb.Run: page structures are entries rather than bytes, and the guest is not modelled editing tables without INVLPG or a write to CR3 behind it; large pages and the instruction fetch path are left out.
- Tlb.Mmu.SetRoot: the emulator flushes on both control registers; the model keeps the effect, not the instruction.
- RepString.StringUnit.ExecuteAll: 32-bit addressing in plain memory with the page tables untouched; 16-bit addressing, memory-mapped devices, elements that cross a page at the end of memory and LODS, INS and OUTS are left out.
- RepScan.ScanUnit.ExecuteAll: page faults of the operands are modelled by a partial load; 16-bit addressing is left out.
- Checksum.Processor.FastLoop: memory is flat and no address wraps. Left out are a word or accumulator that lies across the end of memory, where the emulator reads past its array, an accumulator among devices, and a device inside the source where a base inside a page makes the range test look past it; also code fetch and the mode checks before the loop.
- Checksum.NativeIsGuest: AND with 0xffff is written as a remainder.
- Pic.StepLosesNothingIff: special mask and special fully nested modes are excluded, a CPU reset that clears the flag (i386.c:6832) is not modelled, and line 2 of the master is driven by the slave only.
- Pic.RunKeepsNest: rotation, specific ends of interrupt, automatic end of interrupt, polling and a second initialisation in the middle of a run are outside fully nested mode.
- Atapi.Drive.HostRead: 16-bit data reads only; a 32-bit read of a burst that is not a multiple of four bytes is ignored by the drive. Replies from memory such as INQUIRY, logical addresses of 2^31 and more, and raw 2352-byte sectors are left out.
- Ata.Drive.HostRead: the disk answers at once; completion after a delay and 32-bit data accesses are left out. Interrupts are those raised with the disable bit clear.
- Ata.Drive.HostWrite: as for reads.
- Ata.Drive.SetMultiple: IDENTIFY, the other commands and the control register are left out.
- Ne2000.Card.Receive: the multicast hash is a parameter, and a frame has at least its destination address; the emulator reads past shorter ones. The ring is well formed and page-aligned.
- Ne2000.Card.Run: interrupts, transmission and remote writes are left out.
- Pit.Channel.UpdatePeriodic: for the channel that drives the interrupt line; the status latch, the gate and the speaker output are left out.
- Pit.Channel.ProgramWord: a mode set without a new count keeps the old time base, which the invariant does not cover.
- Mouse.Ps2Mouse.Run: deltas are unbounded, and replies to commands share the queue in the emulator but not in the run; scaling and the keyboard are left out.
- The loops that draw the boot screen (i386.c:1971-2143) change the carry flag differently from the guest and are not modelled.
- Protected-mode gates, task switching, floating point, the opcode tables, graphics, sound, PCI and CMOS are left out; they are not where the state is hard, or their code is not part of this model.
