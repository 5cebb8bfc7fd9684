# kaguyaOS in Dafny

A model of the parts of the kaguyaOS kernel and user library whose correctness is hardest to see from the code, with
proofs of what they promise. The model follows the Rust paths built without the `jihoo-kernel` feature. Nothing here
executes the kernel. `dafny verify dfyconfig.toml` checks the contracts of every member named below.

| files | models | main results |
|---|---|---|
| `FatLayout`, `FatDisk`, `FatChain`, `FatContent`, `FatVolume`, `FatFiles` | the KAGFAT16 filesystem | from the bytes of the disk up: `write_at` is a byte-string splice, every operation keeps the chains apart, clusters are conserved except by the failed creations named below, stale handles touch nothing |
| `TcpSeq`, `TcpTcb`, `TcpWire`, `Checksum` | the TCP client, its wire format and the Internet checksum | over every interleaving of calls, segments and timeouts: right bytes at right numbers, prefix delivery, a timer exactly when something is outstanding, bounded giving up; the one acknowledgement that breaks this; parse undoes transmit |
| `Pipe` | pipes, descriptor tables, event generations | no lost wakeup for any number of readers and writers, stream order, reference counts |
| `Scheduler`, `SchedulerRuns` | the SMP scheduler and the publications of its context switch | every task in exactly one place on any number of CPUs; exactly when a wakeup breaks that, when a task taken up has its stack pointer stored, and when a freed stack is still in use |
| `Alignment`, `LargeList`, `KernelHeap` | the kernel heap | live payloads aligned and disjoint, full coalescing; once everything is freed the large list is its original block exactly when no slab was cut |
| `UserHeap` | the user-space allocator | free and live blocks partition the memory obtained from the kernel; once everything is freed the free list is that memory in maximal pieces, the only such list |
| `Frames`, `TableTree`, `AddressSpace`, `Paging` | physical frames and page tables | dropping an address space returns exactly what it took, all-or-nothing heap growth, `map_page` changes one translation, and for each the exact number of frames it needs |
| `Url` | dot-segment removal in wget | equality with section 5.2.4 of RFC 3986, idempotence, exact limits |
| `Basics` | | options, bytes and the minimum, for the rest |

## How to read the model

- State the source updates in place is a class whose fields are the source's fields. `Valid()` is the invariant, ghost
  fields hold what the source leaves implicit (chains, stream offsets, places of tasks, lists of blocks, trees of
  tables), and every method states its whole effect on them.
- Integers are unbounded except where the source wraps: sequence numbers are modulo 2^32, slot generations modulo 2^32,
  event generations modulo 2^64. Beside each wrapping number stands an unbounded ghost count.
- Concurrency is interleaving. One lock section is one method; the stores `context_switch` makes after the scheduler
  lock is released (stack pointer, handed-over task, retired stack) are methods of their own that happen later.
  `TcpTcb.Tcb.Run`, `Pipe.System.Run`, `Scheduler.Kernel.Run`, `FatFiles.FileSystem.Run`, `KernelHeap.Heap.Life`,
  `UserHeap.Heap.Life` and `AddressSpace.AddressSpace.Live` take an arbitrary list of such steps.
- Panics and terminations of the source (`expect`, `assert_eq!`, wget's `fail`) are results, not preconditions. The
  release build is modelled: a `debug_assert!` does nothing.
- Clocks, the answers of `heap_grow`, initial sequence numbers and the number of CPUs that are online are parameters.
- The block device is the RAM disk: total and in bounds.

## What does not hold

Where a property fails, the code is modelled as it is, a member reaches the failure on concrete or given input, and the
exact condition is proved.

- **Acknowledgements.** With nothing in flight, an acknowledgement number 2^31 past `snd_una` passes both serial
  comparisons and is taken as new. `TcpSeq.AckExact` says this is the only wrong value accepted,
  `TcpSeq.StrayAckAccepted` that it is accepted, and `TcpTcb.AckKeeps` that every other accepted value is right.
  `TcpTcb.Tcb.OnSegment`: the invariant survives the whole of `on_segment` exactly when the segment is not that one or
  ends the connection, and otherwise no reading of the stream fits.
- **Maximum segment size 0.** A peer that announces it gets no data. `TcpTcb.ZeroMss` opens such a connection and
  writes to it; `TcpTcb.Tcb.Starve` sends nothing from there until it times out. `TcpTcb.Tcb.OnTimer`: the segment at
  `snd_una` is resent exactly when it is the SYN, the size is not 0, or no data is left.
- **File names with NUL.** A name is looked up whole but stored up to its first NUL. `FatFiles.TwoOfOneName` makes a
  duplicate this way on a formatted device; `FatVolume.UniqueAfterCreate` gives the exact condition under which names
  stay unique.
- **Failed creation.** `create_file` deletes the old file first and strands the clusters of a half-built new one.
  `FatFiles.FileSystem.Create` counts the clusters that are free after the deletion: it succeeds exactly when a slot is
  free and they suffice, and strands clusters exactly when a slot is free and there are some but too few.
  `FatFiles.StrandAll` does it.
- **Event generations.** A reader that is slow by 2^64 wakeups sleeps on a pipe that has data. `Pipe.WrapLoses` is the
  run, with 2^63 + 1 writes and 2^63 - 1 reads in between; `Pipe.System.Wait` gives the exact condition.
- **Wakeups of a task that is still current.** `wake_sleeping_tasks_locked` and the waiter loop of `terminate_task`
  queue a task without asking whether it has left its CPU, as `wake_waiters` does. `Scheduler.Kernel.WakeSleepers` and
  `Scheduler.Kernel.Terminate`: some assignment of places fits the result if and only if no task they wake is current.
  `SchedulerRuns.SleeperStillCurrent` is a run that gets there. `Scheduler.Kernel.Run` stops exactly at such a step,
  and never does if sleeps, deadlines and joins are marked and switched in one step before they are due.
- **Tasks taken up too early.** All three wakeups also queue a task whose CPU has yet to store its stack pointer. A
  woken task that was not taken up early before has a stored stack pointer if and only if no CPU is still on its way
  off its stack (`Resumable`, in every waking method). The ghost set `early` records who was taken up without one:
  `Scheduler.Kernel.SwitchTask` says exactly when a switch adds to it, and `Scheduler.Kernel.Run` that in no run
  anything else does, and nothing at all if every CPU stores the outgoing stack pointer before anything else happens. A
  preempted task is always safe (`Scheduler.PreemptedAreSaved`).
- **Stacks freed in use.** When a stack is freed no CPU runs on it, and the CPU its task exited on has left it. It is
  in use exactly when another CPU is still on its way off it, which takes a task that was taken up too early
  (`Scheduler.AckedFreed`, `Scheduler.Kernel.Reap`). `SchedulerRuns.FreedWhileLeft` is a run on three CPUs that frees
  such a stack.
- **Slabs.** A slab that `alloc_small` cuts from the large list is never given back. `KernelHeap.SlabStays` is a heap
  with nothing live whose large list is not whole; `KernelHeap.AllReturned` and `KernelHeap.Heap.Life`: it is whole
  exactly when no slab was cut.
- **Heap growth over a mapped page.** But for a `debug_assert!`, `grow_heap` ignores that `map` refuses an occupied
  slot, and the frame meant for it is never given back (`AddressSpace.AddressSpace.GrowOver`).
  `AddressSpace.AddressSpace.GrowHeap` and `Live`: frames are lost exactly when a page of the range was mapped before.
- **The boot allocator.** A descriptor that starts at address 0 is abandoned after its first frame: `Frames.ZeroStart`
  gets no frame from a map that has nine. `Frames.AllocateAll`: calling `allocate_frame` until it answers nothing
  yields every conventional frame ahead, except frame 0, exactly when no descriptor ahead starts at 0 with more than
  one page.
- **Top of the address space.** `range_mapped` refuses a range that ends with the very last byte, mapped or not
  (`Paging.RangeMapped`); `Paging.TopRefused` asks it about a mapped one.
- **Checksum input.** `calculate_checksum` indexes out of bounds on an empty slice, and the sums of both checksums
  leave 32 bits on some slices of about 128 KiB or more (`Checksum.TooManyOnes`). `Checksum.CalculateChecksum` and
  `Checksum.TransportChecksum` say exactly when.

## Model

| member | source | states |
|---|---|---|
| FatLayout.EntryRoundTrip | src/fs.rs:443-480 | a directory entry stored in its 32 bytes is read back unchanged |
| FatLayout.ClusterInBounds | src/fs.rs:346-348 | every allocatable cluster has its FAT entry inside the FAT and its bytes inside the data region, below the last sector |
| FatLayout.ClustersDisjoint | src/fs.rs:346-348 | two clusters never share a byte of the device |
| FatDisk.Disk.ReadBlocks | src/fs.rs:71-92 | returns exactly the addressed bytes of the device, or fails when they are not all there |
| FatDisk.Disk.WriteBlocks | src/fs.rs:71-92 | replaces exactly the addressed bytes of the device, or fails and changes nothing |
| FatDisk.Disk.ReadFatEntry | src/fs.rs:352-369 | the abstract FAT entry is what the sector bytes say |
| FatDisk.Disk.WriteFatEntry | src/fs.rs:373-391 | the read-patch-write of a sector changes one FAT entry of the abstract volume and nothing else |
| FatDisk.Disk.ReadDirEntry | src/fs.rs:443-457 | the abstract directory slot is what the sector bytes say |
| FatDisk.Disk.StoreDirEntry | src/fs.rs:461-480 | the sector update changes one directory slot and nothing else |
| FatDisk.Disk.ReadCluster | src/fs.rs:263-281 | the abstract cluster is what the eight sectors hold |
| FatDisk.Disk.WriteCluster | src/fs.rs:283-301 | storing a cluster changes its 4096 bytes and nothing else of the volume |
| FatDisk.Disk.FormatRegions | src/fs.rs:522-561 | after the three zeroing loops the boot sector, an empty FAT and an empty directory are what the bytes represent |
| FatChain.ChainsDisjoint | src/fs.rs:396-430 | in every well-formed volume chains are acyclic, pairwise disjoint and inside the data region |
| FatChain.ChainUnique | src/fs.rs:747-758 | the FAT determines each chain: there is one way to read it |
| FatChain.ExtendLayout | src/fs.rs:853-860 | linking a free cluster behind a chain keeps every chain well formed |
| FatChain.FreeWalk | src/fs.rs:415-430 | freeing terminates on every FAT, cyclic or corrupt ones included, with the number of used entries as measure, and only ever frees entries |
| FatChain.FreeWalkChain | src/fs.rs:415-430 | on a well-formed chain exactly its clusters become free |
| FatChain.WalkChain | src/fs.rs:747-758 | walking `n` steps along a chain finds its n-th cluster and the one before it |
| FatContent.SpliceAt | src/fs.rs:821-898 | the splice, byte by byte: new data, else old bytes, else zeros in the gap |
| FatContent.SpliceRead | src/fs.rs:793-898 | reading back the range that was written gives the data written |
| FatContent.PatchedAgrees | src/fs.rs:861-875 | zeroing the gap in a cluster buffer and copying data in gives the bytes the spliced file has there |
| FatContent.NulPrefixSame | src/fs.rs:494-498 | a stored name reads back as given exactly when it has no NUL |
| FatVolume.Conservation | src/fs.rs:396-430 | `Conserved` means: the non-free clusters are exactly the union of the directory's chains |
| FatVolume.SlotUpdateIsMapUpdate | src/fs.rs:485-504 | replacing a slot acts on names like updating a map from names to byte strings |
| FatVolume.UniqueAfterAdd | src/fs.rs:760-790 | adding an entry keeps names unique if and only if no entry shows the stored name |
| FatVolume.UniqueAfterCreate | src/fs.rs:563-643 | storing a name the lookup did not find keeps names unique if and only if it has no NUL or its part before the NUL is also absent |
| FatFiles.TwoOfOneName | src/fs.rs:494-498 | on any formatted device, creating `a` and then `a` followed by NUL leaves two entries that show the same name |
| FatVolume.MidwayFinish | src/fs.rs:821-898 | storing the entry after the cluster loop turns a half-written file into the splice and leaves every other slot alone |
| FatVolume.MidwayAbandon | src/fs.rs:592-604 | a half-built file given up changes no file and strands clusters exactly when it had some |
| FatVolume.EmptyVolume | src/fs.rs:522-561 | a freshly formatted volume is well formed, empty and conserved |
| FatFiles.StaleHandle | src/fs.rs:713-741 | a handle issued before a slot was retired compares equal again only after a multiple of 2^32 retirements |
| FatFiles.FileSystem.RetireSlot | src/fs.rs:715-719 | one more retirement, modulo 2^32 |
| FatFiles.FileSystem.WriteDirEntry | src/fs.rs:461-480 | one slot changes, and storing an unused entry retires the slot's handles |
| FatFiles.FileSystem.FindFile | src/fs.rs:485-504 | the first slot that shows the name, or none; bad lengths are refused |
| FatFiles.FileSystem.FindFreeSlot | src/fs.rs:508-516 | the first unused slot, or none |
| FatFiles.FileSystem.CheckFormatted | src/fs.rs:307-319 | true exactly when the boot sector carries the magic |
| FatFiles.FileSystem.OpenEntry | src/fs.rs:732-741 | a handle is honoured if and only if its slot is in use and has the handle's generation |
| FatFiles.FileSystem.AllocCluster | src/fs.rs:396-410 | the lowest free cluster, marked as the end of a chain; failure means there is none |
| FatFiles.FileSystem.FreeClusterChain | src/fs.rs:415-430 | the loop computes `FreeWalk`, so it ends on every FAT |
| FatFiles.FileSystem.SeekCluster | src/fs.rs:747-758 | the cluster at position `k` of a chain and its predecessor |
| FatFiles.FileSystem.Truncate | src/fs.rs:760-790 | the file becomes empty, its clusters free, nothing else changes |
| FatFiles.FileSystem.Open | src/fs.rs:760-790 | which slot is answered in every case, that only it changes, and that clusters stay conserved |
| FatFiles.FileSystem.Delete | src/fs.rs:676-695 | the slot is empty afterwards, its handles are retired, clusters stay conserved |
| FatFiles.FileSystem.ReadAt | src/fs.rs:793-819 | exactly the slice of the file the request covers; a stale handle gets FileNotFound |
| FatFiles.FileSystem.ReadFile | src/fs.rs:646-674 | the whole byte string stored under the name |
| FatFiles.FileSystem.PutCluster | src/fs.rs:851-885 | one turn of the write loop leaves one more cluster of the file holding the spliced bytes |
| FatFiles.FileSystem.Transfer | src/fs.rs:848-886 | the write loop fills the clusters up to the end of the data, and stops short only on a full disk |
| FatFiles.FileSystem.WriteAt | src/fs.rs:821-898 | for every offset or append: the file is its old bytes, zero-extended and overwritten with what was written; how much that is follows exactly from the clusters free and held before; other files, handles and conservation are kept |
| FatFiles.FileSystem.StoreChain | src/fs.rs:592-629 | the chain built for new data holds it, one cluster per 4096 bytes |
| FatFiles.FileSystem.Create | src/fs.rs:563-643 | decided by the state before: succeeds if and only if a slot is free and the free clusters suffice, and then the name reads exactly the data and nothing else changed; clusters are stranded if and only if a slot is free and some but too few clusters are |
| FatFiles.StrandAll | src/fs.rs:592-604 | a creation that strands every cluster of a formatted device |
| FatFiles.FileSystem.Run | src/fs.rs:522-898 | any calls in any order keep the volume well formed; names stay unique if no name with a NUL is created, clusters stay conserved if no creation meets a free slot and some but too few clusters; no call retires a slot more than once |
| FatFiles.FileSystem.Stale | src/fs.rs:713-741 | after any calls a handle whose slot has been retired since neither reads nor writes, until the generation comes round |
| FatFiles.FileSystem.UseAfterDelete | src/fs.rs:676-741 | open, delete, any calls: the handle neither reads nor writes |
| FatFiles.FileSystem.Format | src/fs.rs:522-561 | from any device contents: an empty, conserved volume with every old handle retired |
| TcpSeq.SerialOrder | src/drivers/net/tcp.rs:105-111 | within half the sequence space the serial comparisons order numbers as their unbounded offsets are ordered |
| TcpSeq.AckExact | src/drivers/net/tcp.rs:354-377 | which acknowledgement numbers the test accepts, exactly: the offsets after snd_una up to snd_max, and one stray value when nothing is in flight |
| TcpSeq.StrayAckAccepted | src/drivers/net/tcp.rs:354-377 | the stray value is accepted |
| TcpTcb.CursorOrder | src/drivers/net/tcp.rs:225-230 | snd_una, snd_nxt and snd_max are in serial order in every reachable state |
| TcpTcb.RoomExact | src/drivers/net/tcp.rs:251-303 | when output finds no room, all data is sent or the peer's window is full; otherwise the bytes it takes exist |
| TcpTcb.AckKeeps | src/drivers/net/tcp.rs:354-377 | every accepted acknowledgement except the stray one keeps the send side sound |
| TcpTcb.StrayBreaks | src/drivers/net/tcp.rs:354-377 | the stray acknowledgement is accepted, drops the data waiting to be sent and parts the cursors |
| TcpTcb.AstrayBreaks | src/drivers/net/tcp.rs:225-230 | once the cursors have parted no stream fits the connection |
| TcpTcb.Tcb.OnStray | src/drivers/net/tcp.rs:354-423 | the rest of on_segment after the stray acknowledgement: the connection ends, or the cursors stay parted |
| TcpTcb.TakeFaithful | src/drivers/net/tcp.rs:387-421 | taking in-order data from an honest segment extends the prefix of the peer's stream the user sees |
| TcpTcb.Resends | src/drivers/net/tcp.rs:442-448 | after a rewind the segment at snd_una is sent again if and only if it is the SYN, the peer's maximum segment size is not 0 or there is no data |
| TcpTcb.Tcb.constructor | src/drivers/net/tcp.rs:187-212 | a new control block meets the invariant |
| TcpTcb.Tcb.Send | src/drivers/net/tcp.rs:214-219 | records the segment with the current acknowledgement and window; the advertised right edge never retreats (section 3.8.6 of RFC 9293) |
| TcpTcb.Tcb.SendData | src/drivers/net/tcp.rs:251-303 | every data segment carries the stream bytes of its own sequence numbers, until window or data run out |
| TcpTcb.Tcb.SendFin | src/drivers/net/tcp.rs:283-299 | sent or resent, the FIN has the one number after the last byte |
| TcpTcb.Tcb.Output | src/drivers/net/tcp.rs:251-303 | afterwards everything the window allows is sent, a queued FIN follows the last byte, and the timer is armed if anything was sent or remains |
| TcpTcb.Tcb.OnSynSent | src/drivers/net/tcp.rs:308-334 | the handshake completes if and only if the segment answers our SYN, and is refused if and only if a reset does |
| TcpTcb.Tcb.Take | src/drivers/net/tcp.rs:387-421 | takes exactly the bytes that fit and the FIN only once all earlier bytes are taken |
| TcpTcb.Tcb.OnData | src/drivers/net/tcp.rs:385-423 | window, payload and FIN of a segment, keeping the invariant and the prefix property |
| TcpTcb.Tcb.OnSegment | src/drivers/net/tcp.rs:305-423 | exactly the acknowledged bytes leave, exactly the in-order bytes that fit enter, a reset counts only inside the window; the invariant is kept if and only if the segment is not the stray acknowledgement or ends the connection |
| TcpTcb.Tcb.OnTimer | src/drivers/net/tcp.rs:425-449 | nothing before the deadline; then a doubled timeout up to MAX_RTO and, if and only if the SYN, a size above 0 or no data allows it, a resend from snd_una; or Closed after MAX_RETRIES or in FinWait2 |
| TcpTcb.Tcb.Connect | src/drivers/net/tcp.rs:487-540 | only an idle socket connects, and its first segment is the SYN with its initial number |
| TcpTcb.Tcb.Write | src/drivers/net/tcp.rs:582-608 | what is accepted is appended to the stream; it blocks only on a full buffer and fails exactly in the wrong states |
| TcpTcb.Tcb.Read | src/drivers/net/tcp.rs:543-579 | what is returned extends what was delivered; an empty answer means the peer's FIN or a closed connection |
| TcpTcb.Tcb.Drop | src/drivers/net/tcp.rs:612-630 | the connection is closed by the user, with a FIN queued where the state still sends |
| TcpTcb.Tcb.Expire | src/drivers/net/tcp.rs:425-449 | left to the timer alone, however late it fires each time, a connection that waits for something is Closed after at most MAX_RETRIES + 1 expiries |
| TcpTcb.Tcb.Starve | src/drivers/net/tcp.rs:425-449 | with maximum segment size 0 and data waiting, the same timer puts nothing on the wire and ends the connection as timed out |
| TcpTcb.ZeroMss | src/drivers/net/tcp.rs:308-334 | a handshake with a peer of maximum segment size 0 and a write, after which the connection times out |
| TcpTcb.Tcb.Run | src/drivers/net/tcp.rs:305-630 | for every sequence of calls, segments and expiries: the invariant holds unless the run has met a stray acknowledgement that left the connection open, and if the peer's segments are pieces of its stream, the bytes read and buffered are a prefix of it in every case |
| TcpWire.ScanEncoded | src/drivers/net/tcp.rs:132-148 | options written one after another, with any padding after their end, are read back; the last maximum segment size counts |
| TcpWire.Parse | src/drivers/net/tcp.rs:124-160 | accepts exactly the byte strings with a whole header and scannable options, and returns their fields |
| TcpWire.RoundTrip | src/drivers/net/tcp.rs:124-184 | parsing what transmit builds gives back every field, the window clamped to 16 bits |
| TcpWire.Transmit | src/drivers/net/tcp.rs:163-184 | the receiver's checksum over the packet is 0 and parsing it gives what was sent |
| Checksum.AddWords | src/drivers/net/helper.rs:29-46 | the running sum is the sum of the big-endian words, odd lengths padded; it leaves 32 bits if and only if that sum does |
| Checksum.Fold | src/drivers/net/helper.rs:18-24 | folding ends and yields the one's complement sum |
| Checksum.CalculateChecksum | src/drivers/net/helper.rs:5-24 | the complement of the one's complement sum (RFC 1071); fails exactly on empty input and on a sum beyond 32 bits, which takes more than 128 KiB |
| Checksum.TransportChecksum | src/drivers/net/helper.rs:29-46 | the complement of the sum over pseudo-header and segment; fails exactly when that sum leaves 32 bits, never for a segment an IPv4 packet can carry |
| Checksum.TooManyOnes | src/drivers/net/helper.rs:5-46 | a slice on which both sums leave 32 bits |
| Checksum.StoredIsValid | src/drivers/net/udp.rs:136-140 | storing the checksum in a zeroed even-offset field makes recomputation 0, also with 0 replaced by 0xFFFF |
| Checksum.AcceptedExactly | src/drivers/net/tcp.rs:634-637 | the receiver accepts a value in the field if and only if it is congruent to the computed one modulo 0xFFFF |
| Checksum.WordChangeDetected | src/drivers/net/tcp.rs:634-637 | a change of one aligned word goes unnoticed if and only if it exchanges 0 and 0xFFFF |
| Pipe.FreeSlot | src/file.rs:254-263 | the first free descriptor, if and only if there is one to be had |
| Pipe.OpenPipe | src/file.rs:100-117 | two descriptors if and only if two are free; otherwise every descriptor is as before |
| Pipe.QuietMeansStuck | src/pipe.rs:33-81 | once no operation is in mid-flight, a sleeping reader faces an empty pipe with a writer, a sleeping writer a full pipe with a reader |
| Pipe.GenerationExact | src/process/mod.rs:791-833 | with fewer than 2^64 wakeups since a snapshot, equal generations mean no wakeup |
| Pipe.WrapLoses | src/process/mod.rs:809-833 | a run of 2^64 wakeups between a reader's snapshot and its wait, after which it sleeps on a pipe with data |
| Pipe.WakeKeeps | src/process/mod.rs:835-870 | a wakeup discharges whatever was owed to sleepers |
| Pipe.System.constructor | src/pipe.rs:90-99 | a new pipe has one reader, one writer and nothing in it |
| Pipe.System.BeginRead | src/file.rs:161-192 | a read counts an end of its own while it is in flight |
| Pipe.System.BeginWrite | src/file.rs:194-224 | a write counts an end of its own while it is in flight |
| Pipe.System.Snapshot | src/process/mod.rs:798-807 | the generation seen at the top of the loop |
| Pipe.System.CheckRead | src/pipe.rs:33-56 | takes a prefix of what is queued, in order; answers 0 exactly when all queued bytes are consumed and no writer exists |
| Pipe.System.CheckWrite | src/pipe.rs:60-81 | queues what fits, in order; fails only without readers and with nothing written |
| Pipe.System.Wait | src/process/mod.rs:809-833 | sleeps only if the generation is unchanged; the no-lost-wakeup property survives if and only if the generation has not come round with the reason gone |
| Pipe.System.Wake | src/process/mod.rs:835-870 | every sleeper returns to the top of its loop |
| Pipe.System.Close | src/file.rs:226-232 | the descriptor is free and its end passes to the closing call |
| Pipe.System.Release | src/pipe.rs:131-153 | the count of that kind drops by one, and the last end of a kind owes the others a wakeup |
| Pipe.System.Inherit | src/file.rs:69-77 | the child's three descriptors are clones, counted, or nothing happens |
| Pipe.System.Run | src/pipe.rs:33-153 | for every interleaving: counts equal live handles, at most 4096 bytes in between, consumed bytes are a prefix of queued ones, no wakeup is lost before the generation wraps |
| Scheduler.WakeSafe | src/process/mod.rs:720-740 | queueing a blocked task is consistent if and only if it is not current on any CPU |
| Scheduler.AllResume | src/process/mod.rs:197-215 | every Ready task not taken up early has its stack pointer stored if and only if no CPU is still saving it |
| Scheduler.OwnCpuDone | src/process/mod.rs:1030-1044 | when a stack is acknowledged the CPU its task exited on has left it, tasks taken up early included |
| Scheduler.PreemptedAreSaved | src/process/mod.rs:523-616 | a preempted task is in no queue while the CPU that preempted it has not stored its stack pointer |
| Scheduler.EntryReady | src/process/mod.rs:197-215 | every queue entry is a Ready task that may run there, so the defensive tests never fire |
| Scheduler.TwoPlaces | src/process/mod.rs:835-870 | no state has a task both current and queued |
| Scheduler.RetiredIsOff | src/process/mod.rs:1030-1044 | when the stack of a zombie that was not taken up early is published, no CPU is on it |
| Scheduler.AckedFreed | src/process/mod.rs:911-955 | an acknowledged stack is run on by nobody, and in use if and only if a CPU other than the one its task exited on is still on its way off it |
| SchedulerRuns.FreedWhileLeft | src/process/mod.rs:911-955 | a run on three CPUs after which the reaper has freed a stack that a CPU is still on |
| SchedulerRuns.SleeperStillCurrent | src/process/mod.rs:720-740 | a run on two CPUs that reaches a due task still current, and what the wakeup leaves fits no assignment of places |
| Scheduler.AckOwners | src/process/mod.rs:911-955 | acknowledgements name distinct zombies that are off every CPU, each the owner of the stack named |
| Scheduler.Kernel.constructor | src/process/mod.rs:443-466 | the state after the boot CPU has entered its idle loop meets the invariant |
| Scheduler.Kernel.SelectTarget | src/process/mod.rs:179-195 | the lowest-numbered idle CPU with an empty queue if there is one, else the boot CPU |
| Scheduler.Kernel.AddTask | src/process/mod.rs:270-364 | the new task is Ready at the end of one queue, with a fresh identifier and a stack of its own; which queue, exactly |
| Scheduler.Kernel.Finish | src/process/mod.rs:484-499 | the handed-over task becomes Ready at the end of this CPU's queue |
| Scheduler.Kernel.ClaimLocal | src/process/mod.rs:197-215 | the head of the queue, never skipped, reserved for this CPU |
| Scheduler.Kernel.FindVictim | src/process/mod.rs:217-268 | the first of the most loaded other queues with more than one entry |
| Scheduler.Kernel.FindMigratable | src/process/mod.rs:217-268 | the last entry that is not pinned |
| Scheduler.Kernel.Steal | src/process/mod.rs:217-268 | the last unpinned task of the first longest queue with more than one entry; nothing exactly when there is none |
| Scheduler.Kernel.SwitchTo | src/process/mod.rs:583-681 | the claimed task becomes current; it is Claimed, may run here and, unless taken up early, has its stack pointer stored |
| Scheduler.Kernel.SwitchToIdle | src/process/mod.rs:532-581 | a blocked or dead task gives way to the idle loop, whose stack pointer is stored |
| Scheduler.Kernel.SwitchTask | src/process/mod.rs:501-681 | the whole new state: on CPU 0 sleepers woken and acknowledged stacks freed, then drain, pick and switch; local work in order, else the last migratable entry of the longest other queue; whoever was current is current, parked or on the way out; which tasks count as taken up early, exactly; the other CPUs are untouched |
| Scheduler.Kernel.Reap | src/process/mod.rs:911-955 | every acknowledged stack is freed exactly once and no other; each is in use if and only if a CPU is still on its way off it |
| Scheduler.Kernel.SaveStack | src/process/mod.rs:1020-1024 | from here on the outgoing task can be resumed |
| Scheduler.Kernel.PublishOut | src/process/mod.rs:1025-1029 | the preempted task moves to an empty handoff slot |
| Scheduler.Kernel.PublishRetired | src/process/mod.rs:1030-1044 | the zombie's stack is acknowledged in a free slot, or nowhere when all are taken |
| Scheduler.Kernel.WaitTask | src/process/mod.rs:742-784 | answers the exit code if and only if the task is a zombie, marks the caller as waiting if and only if it is another live task, under one lock |
| Scheduler.Kernel.Terminate | src/process/mod.rs:957-999 | the task is a zombie and exactly the tasks waiting for it are Ready, queued in order; the invariant survives if and only if none of them is still current |
| Scheduler.Kernel.WakeSleepers | src/process/mod.rs:720-740 | exactly the due tasks become Ready, each in order at the end of its own CPU's queue; the invariant survives if and only if none of them is still current, and then each that was not taken up early has its stack pointer stored if and only if no CPU is saving it |
| Scheduler.Kernel.WakeEvent | src/process/mod.rs:835-870 | every task waiting for the event runs again, in place if it has not left its CPU, else in order at the end of its queue, with its stack pointer stored, if it was not taken up early, if and only if no CPU is saving it |
| Scheduler.Kernel.MarkWaiting | src/process/mod.rs:809-833 | the running task is Waiting and still current |
| Scheduler.Kernel.MarkSleeping | src/process/mod.rs:871-890 | the running task is Sleeping and still current |
| Scheduler.Kernel.Run | src/process/mod.rs:197-1056 | for every interleaving of sections and publications on any number of CPUs the invariant holds; it stops exactly at a step that would wake a current task, never if blocking calls are marked and switched in one step; a task counts as taken up early only if some switch of the run did so, never if stack pointers are stored at once |
| KernelHeap.LiveDisjoint | src/memory/heap.rs:309-389 | live payloads never overlap, headers and back pointers between them included |
| KernelHeap.LivePlace | src/memory/heap.rs:309-389 | a live payload and its promised words lie inside the heap |
| KernelHeap.AllReturned | src/memory/heap.rs:190-299 | with nothing live the large list is one free block of the original size if and only if no slab was cut from it |
| KernelHeap.Heap.Life | src/memory/heap.rs:166-389 | any allocations, resizings and frees, then freeing what is left: the same equivalence |
| KernelHeap.SlabStays | src/memory/heap.rs:190-208 | a heap of any size with room for a slab, in which everything is freed and the slab stays |
| LargeList.AllFree | src/memory/heap.rs:268-299 | a coalesced list of free blocks is a single block |
| LargeList.SplitKeeps | src/memory/heap.rs:231-265 | the stores of a split turn one block of the tiling into two |
| LargeList.MergeKeeps | src/memory/heap.rs:268-299 | the stores of a merge turn two neighbours of the tiling into one |
| KernelHeap.Heap.constructor | src/memory/heap.rs:123-147 | three quarters arena, one quarter a single free block, nothing live |
| KernelHeap.Heap.BucketFor | src/memory/heap.rs:155-162 | the smallest size class that holds the request |
| KernelHeap.Heap.AllocSmall | src/memory/heap.rs:166-212 | a block of the class that nobody has; null exactly when free list, arena and large list all fail |
| KernelHeap.Heap.FreeSmall | src/memory/heap.rs:215-223 | the payload is no longer live, every other is untouched |
| KernelHeap.Heap.AllocLarge | src/memory/heap.rs:231-265 | the first free block that is large enough, split when the rest is worth it; null exactly when none is |
| KernelHeap.Heap.FreeLarge | src/memory/heap.rs:268-299 | the block leaves the ones in use, all others stay, and no two free blocks are neighbours |
| KernelHeap.Heap.Alloc | src/memory/heap.rs:309-346 | an aligned payload with room for the request, every live payload as before; null, with nothing changed, if and only if neither lists, arena nor large blocks can serve it |
| KernelHeap.Heap.Dealloc | src/memory/heap.rs:349-369 | exactly this payload is no longer live; null is ignored |
| KernelHeap.Heap.CapacityOf | src/memory/heap.rs:372-389 | the room the payload was given |
| KernelHeap.Heap.Realloc | src/memory/heap.rs:505-529 | the new payload starts with the old one's words as far as both reach; others are untouched; null exactly when a new payload cannot be had, and then the old one stays |
| KernelHeap.Heap.Store | src/memory/heap.rs:309-389 | a store through a live pointer disturbs neither the heap nor another payload |
| UserHeap.InsertedSorted | user/src/std.rs:203-229 | insertion keeps the list sorted, apart and coalesced |
| UserHeap.InsertedWords | user/src/std.rs:203-229 | insertion adds exactly the words of the block |
| UserHeap.TakenWords | user/src/std.rs:231-257 | what is taken and what stays are exactly what was there |
| UserHeap.FreeStep | user/src/std.rs:293-304 | freeing keeps the partition into free and live blocks |
| UserHeap.GrowStep | user/src/std.rs:260-290 | memory from the kernel extends the partition |
| UserHeap.AllocStep | user/src/std.rs:260-290 | handing a block out keeps the partition and every live block |
| UserHeap.NeedFits | user/src/std.rs:260-290 | the padded request has room for the aligned payload, the size word and the back pointer |
| UserHeap.Heap.InsertFree | user/src/std.rs:203-229 | the loop and its merges are that insertion |
| UserHeap.Heap.TakeFree | user/src/std.rs:231-257 | the first block that is large enough, split when the rest is worth it; none exactly when none is |
| UserHeap.Heap.Alloc | user/src/std.rs:260-290 | an aligned payload with room for the request; null if and only if the alignment is bad, the size overflows, or no block fits and the kernel refuses |
| UserHeap.Heap.Free | user/src/std.rs:293-304 | exactly this payload is no longer live; null is ignored |
| UserHeap.Heap.Realloc | user/src/std.rs:307-321 | the new payload starts with the old one's words as far as both reach; others are untouched, for a null pointer too; null exactly when a new payload cannot be had, and then the old one stays |
| UserHeap.Heap.Life | user/src/std.rs:203-321 | any allocations, resizings and frees, then freeing what is left: the free list is the memory obtained, in maximal pieces, and no other list is |
| UserHeap.AllReturned | user/src/std.rs:203-229 | with nothing live the free list is the list of maximal intervals of the memory obtained |
| UserHeap.OneWhole | user/src/std.rs:203-229 | there is one such list |
| Frames.AllocateFrame | src/memory/mod.rs:111-136 | the next frame in hand-out order: conventional, ahead of the cursor, never frame 0; besides it exactly abandoned frames are passed, and without an answer nothing is ahead |
| Frames.AllocateAll | src/memory/mod.rs:111-136 | called until it answers nothing it yields every frame ahead, each once, if and only if no descriptor ahead starts at address 0 with more than one page |
| Frames.NoneLost | src/memory/mod.rs:111-136 | the frames still to come are all the frames ahead under the same condition |
| Frames.ZeroStart | src/memory/mod.rs:111-136 | a map with nine frames that yields none |
| Frames.AllocateContiguous | src/memory/mod.rs:84-94 | the first neighbouring frames in hand-out order, none of them handed out before, and what is left after them; none if and only if there are no such neighbours |
| Frames.WindowInRow | src/memory/mod.rs:84-136 | neighbouring frames of one descriptor that are to come are handed out in a row |
| Frames.FramePool.constructor | src/memory/frame.rs:22-31 | the pool starts where the boot allocator stopped |
| Frames.FramePool.AllocFrame | src/memory/frame.rs:34-50 | a zeroed frame nobody has, one fewer left; none if and only if none is left, on the free list or to come from the boot memory |
| Frames.FramePool.FreeFrame | src/memory/frame.rs:53-59 | the frame is free again, linked through its first word, and the count is right |
| AddressSpace.PathInjective | src/memory/address_space.rs:106-119 | different user pages have different table paths |
| AddressSpace.CreateRoot | src/memory/address_space.rs:49-60 | a PML4 with every kernel slot shared and no user slot present; none if and only if no frame is left |
| AddressSpace.AddressSpace.LeafTable | src/memory/address_space.rs:106-119 | the table covering the page, if and only if it is a user page and there is a frame for each missing table; exactly those are added |
| AddressSpace.AddressSpace.Map | src/memory/address_space.rs:93-103 | the entry goes in if and only if the slot was free and the missing tables can be had |
| AddressSpace.AddressSpace.MapNewPage | src/memory/address_space.rs:68-91 | a zeroed page at its address if and only if it is a free user page and frames for it and the missing tables are left; otherwise no frame is kept but for tables |
| AddressSpace.AddressSpace.ReserveFrames | src/memory/address_space.rs:138-181 | all the frames, chained, if and only if that many are left; else none |
| AddressSpace.AddressSpace.GrowHeap | src/memory/address_space.rs:138-181 | all of the new pages, zeroed, if and only if they end below the limit and frames for them and the missing tables are left; else none and heap_end unchanged; frames are lost if and only if a page of the range was mapped before |
| AddressSpace.AddressSpace.GrowOver | src/memory/address_space.rs:138-181 | a growth that loses a frame |
| AddressSpace.AddressSpace.FreeTable | src/memory/address_space.rs:201-213 | the frame and everything below it return to the pool, nothing else |
| AddressSpace.AddressSpace.Drop | src/memory/address_space.rs:186-197 | exactly the frames of the tree return to the pool |
| AddressSpace.AddressSpace.Live | src/memory/address_space.rs:68-197 | for every sequence of mappings and growth, with failures anywhere, dropping the space returns exactly what it took, but for frames lost if and only if some growth went over a mapped page |
| Paging.IndicesExact | src/memory/paging.rs:11-14 | two pages share a path if and only if they agree in 36 bits |
| Paging.HungWalk | src/memory/paging.rs:16-49 | hanging an empty table changes no translation |
| Paging.SetLeaf | src/memory/paging.rs:51-53 | writing a last-level entry changes no other translation |
| Paging.MapPage | src/memory/paging.rs:4-60 | the page translates to the new entry and every other page as before, if and only if no large page is in the way and a frame is left for each missing table; else the source panics and no translation has changed |
| Paging.PagePresent | src/memory/paging.rs:97-113 | true if and only if the hardware lets the access through, large pages and user bits at every level included |
| Paging.RangeMapped | src/memory/paging.rs:70-95 | true if and only if the range is empty, or ends below the top and every byte of it is canonical and accessible |
| Paging.TopRefused | src/memory/paging.rs:70-95 | a table in which the last byte is mapped and refused, and the byte before it is not |
| Url.RemovesDots | user/src/wget.rs:124-153 | remove_dot_segments of section 5.2.4 of RFC 3986 on an absolute path is a walk over its segments with a stack |
| Url.NoDotsLeft | user/src/wget.rs:124-153 | the result is absolute and has no `.` or `..` segment |
| Url.Idempotent | user/src/wget.rs:124-153 | normalising twice is normalising once |
| Url.UrlBuf.Push | user/src/wget.rs:110-116 | appends the piece, or fails exactly when it does not fit |
| Url.Collect | user/src/wget.rs:126-145 | the segments left standing, or failure exactly when more than 64 stand at once |
| Url.PushNormalizedPath | user/src/wget.rs:124-153 | appends exactly what remove_dot_segments gives; fails exactly on more than 64 standing segments or more than 512 bytes |

## Left out

- TcpTcb.Tcb.Connect: the lock section that sends the SYN; the table of connections, ephemeral ports and the blocking loop around the section are not modelled.
- TcpTcb.Tcb.Read: one lock section of the blocking loop.
- TcpTcb.Tcb.Write: one lock section of the blocking loop.
- Scheduler.Kernel.SwitchTask: on CPU 0, requires that no due task is still current; `Scheduler.Kernel.WakeSleepers` covers that case up to the broken state, and what the switch would make of that is not modelled.
- Scheduler.Kernel.Run: ends at a wakeup that finds its task still current. Identifiers of tasks and keys of events are different values here; in the source both are numbers in one field.
- KernelHeap.Heap.Realloc: memory is 8-byte words, so up to seven trailing bytes of the copied prefix are not tracked.
- UserHeap.Heap.Realloc: likewise.
- KernelHeap.Heap.constructor: the region starts at word 2 or later and is a multiple of 32 bytes long; the one call passes whole pages (src/main.rs:347).
- UserHeap.Heap.Life: every answer of `heap_grow` lies above the ones before, as `grow_heap` answers.
- UserHeap.Heap.Alloc: pages answered by `heap_grow` are 16-byte aligned and not part of the heap yet.
- Paging.MapPage: the tables form a tree of frames the pool has handed out. Every call of the source passes the boot allocator, which is a pool whose free list is empty; it stays empty. The TLB flush and the flag bits other than present, writable, user, large and no-execute are not modelled.
- FatDisk.Disk.ReadBlocks: the RAM disk; NVMe, device errors and crash consistency are not modelled.
- The rest of the URL code: `parse_url`, `resolve`, `has_scheme`, redirects.
- UDP sockets, ARP, DNS, IPv4 and ICMP handling; the program loader; the console; system call dispatch.
- Device drivers, interrupts, ACPI, UEFI and boot code.
- The memory model and the spinlock itself: a lock section is atomic.
- Freeing of a task's address space and descriptors when it ends.
- The `.jh` ports, the foreign-call wrappers and the copy of the FAT code in the host tool.
